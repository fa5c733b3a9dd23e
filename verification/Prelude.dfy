/**
 Vocabulary shared by every module: results, bytes, machine integers and the
 two saturating conversions the storage crate applies to Unix times.
 */
module Prelude {

  datatype Option<+T> = None | Some(value: T)

  datatype Result<+T, +E> = Ok(value: T) | Err(error: E)

  /** A byte is written as the character with the same code, so that a string
      literal is also a byte literal. */
  type Byte = c: char | c as int < 256

  type Bytes = seq<Byte>

  const ZEROS16: Bytes := "\0\0\0\0\0\0\0\0\0\0\0\0\0\0\0\0"

  /** A 16-byte message id. */
  type MsgId = b: Bytes | |b| == 16 witness ZEROS16

  /** A 32-byte key, or the 32-byte hash that serves as a user id. */
  type Key32 = b: Bytes | |b| == 32 witness ZEROS16 + ZEROS16

  /** The prekey id that means "no prekey was used". */
  const NO_PREKEY: u32 := 0

  /** The length of an Ed25519 signature. */
  const SIG_LEN := 64

  const U8_LIMIT := 0x100
  const U16_LIMIT := 0x1_0000
  const U32_LIMIT := 0x1_0000_0000
  const U64_LIMIT := 0x1_0000_0000_0000_0000
  const I64_MAX := 0x7FFF_FFFF_FFFF_FFFF

  type u16 = x: int | 0 <= x < U16_LIMIT
  type u32 = x: int | 0 <= x < U32_LIMIT
  type u64 = x: int | 0 <= x < U64_LIMIT

  /** Rust's `saturating_add` on `u64`. */
  function SatAdd64(a: u64, b: u64): u64 {
    if a + b < U64_LIMIT then a + b else U64_LIMIT - 1
  }

  /** Unix seconds as the signed 64-bit integer a table column stores. */
  function I64Secs(secs: u64): int {
    if secs <= I64_MAX then secs else I64_MAX
  }

  /** What the stored comparison `expiry > now` means for the two `u64` times:
      the same comparison, except that at the last representable second
      nothing is later any more. */
  lemma StoredLater(expiry: u64, now: u64)
    ensures I64Secs(expiry) > I64Secs(now) <==> expiry > now && now < I64_MAX
  {
  }

  function Last<T>(s: seq<T>): T
    requires s != []
  {
    s[|s| - 1]
  }

  function Elements<T>(s: seq<T>): set<T> {
    set x | x in s
  }

  /** A stretch of `s` is four pieces in a row exactly when each piece is where
      it should be. */
  lemma Pieces<T>(s: seq<T>, off: nat, a: seq<T>, b: seq<T>, c: seq<T>, d: seq<T>)
    requires off + |a| + |b| + |c| + |d| <= |s|
    ensures
      var (i, j, k, l) := (off + |a|, off + |a| + |b|, off + |a| + |b| + |c|, off + |a| + |b| + |c| + |d|);
      s[off..l] == a + b + c + d <==> s[off..i] == a && s[i..j] == b && s[j..k] == c && s[k..l] == d
  {
    var (i, j, k, l) := (off + |a|, off + |a| + |b|, off + |a| + |b| + |c|, off + |a| + |b| + |c| + |d|);
    var t := s[off..l];
    assert t == s[off..i] + s[i..j] + s[j..k] + s[k..l];
    if t == a + b + c + d {
      assert s[off..i] == t[..|a|];
      assert s[i..j] == t[|a|..|a| + |b|];
      assert s[j..k] == t[|a| + |b|..|a| + |b| + |c|];
      assert s[k..l] == t[|a| + |b| + |c|..];
    }
  }

  lemma SubsetSize<T>(a: set<T>, b: set<T>)
    requires a <= b
    ensures |a| <= |b|
  {
    assert b == a + (b - a);
  }
}
