/**
 A library that meets every law assumed of the real one: sealing that only its
 addressee opens, a code of k blocks and one parity block of which any k suffice.
 It keeps nothing secret; it shows that the laws can hold together, for a library
 that seals and splits every input of a realistic size.
 */
module ToyLibrary {
  import opened Prelude
  import opened TextCodec
  import opened L = Library
  import opened Json
  import opened Prekeys

  const ZEROS12: Bytes := ZEROS16[..12]
  const ZEROS64: Bytes := ZEROS16 + ZEROS16 + ZEROS16 + ZEROS16

  /** The one prekey record and the one claim record that the toy library reads. */
  const PREKEY_TXT := "prekey"
  const PREKEY := Prekey(7, "kkkkkkkkkkkkkkkkkkkkkkkkkkkkkkkk", 1000)
  const CLAIM_TXT := "claim"
  const CLAIM := Claim(ZEROS16, ZEROS16 + ZEROS16, "a", 0, 0, 1000)

  // ---- sealing ----

  function Header(public: Key32, aad: Bytes): (b: Bytes)
    ensures |b| == 52 + |aad|
  {
    public + ZEROS12 + BigEndian(|aad|, 8) + aad
  }

  function Seal(public: Key32, plaintext: Bytes, aad: Bytes, rnd: Bytes): Option<Bytes> {
    if |aad| < U64_LIMIT then Some(Header(public, aad) + plaintext) else None
  }

  function Open(seed: Key32, payload: Bytes, aad: Bytes): Option<Bytes> {
    if |aad| < U64_LIMIT && Header(seed, aad) <= payload then Some(payload[52 + |aad|..]) else None
  }

  lemma HeaderDetermines(public: Key32, aad: Bytes, public': Key32, aad': Bytes, payload: Bytes)
    requires |aad| < U64_LIMIT && |aad'| < U64_LIMIT
    requires Header(public, aad) <= payload && Header(public', aad') <= payload
    ensures public == public' && aad == aad'
  {
    Pieces(payload, 0, public, ZEROS12, BigEndian(|aad|, 8), aad);
    Pieces(payload, 0, public', ZEROS12, BigEndian(|aad'|, 8), aad');
    assert payload[0..52 + |aad|] == payload[..52 + |aad|] && payload[0..52 + |aad'|] == payload[..52 + |aad'|];
    Widths();
    BigEndianRoundTrip(|aad|, 8);
    BigEndianRoundTrip(|aad'|, 8);
  }

  // ---- the erasure code ----

  /** The sum of one column over the first `k` blocks, leaving out block `skip`. */
  function ColumnSum(at: nat -> Bytes, k: nat, skip: int, j: nat): nat {
    if k == 0 then 0
    else ColumnSum(at, k - 1, skip, j) + (if k - 1 == skip || j >= |at(k - 1)| then 0 else at(k - 1)[j] as int)
  }

  function InSeq(blocks: seq<Bytes>): nat -> Bytes {
    (i: nat) => if i < |blocks| then blocks[i] else []
  }

  function InMap(m: map<nat, Bytes>): nat -> Bytes {
    (i: nat) => if i in m then m[i] else []
  }

  function Parity(blocks: seq<Bytes>): (b: Bytes)
    ensures |b| == BLOCK_LEN
  {
    seq(BLOCK_LEN, j requires 0 <= j < BLOCK_LEN => (ColumnSum(InSeq(blocks), |blocks|, -1, j) % 256) as char)
  }

  /** Block `i` from the parity block and the others. */
  function Missing(m: map<nat, Bytes>, k: nat, i: nat): (b: Bytes)
    ensures |b| == BLOCK_LEN
  {
    seq(BLOCK_LEN, j requires 0 <= j < BLOCK_LEN =>
      var parity := if j < |InMap(m)(k)| then InMap(m)(k)[j] as int else 0;
      ((parity - ColumnSum(InMap(m), k, i, j)) % 256) as char)
  }

  lemma {:induction false} SumsAgree(at: nat -> Bytes, at': nat -> Bytes, k: nat, skip: int, j: nat)
    requires forall i :: 0 <= i < k && i != skip ==> at(i) == at'(i)
    ensures ColumnSum(at, k, skip, j) == ColumnSum(at', k, skip, j)
  {
    if k > 0 {
      SumsAgree(at, at', k - 1, skip, j);
    }
  }

  lemma {:induction false} SumWithout(at: nat -> Bytes, k: nat, i: nat, j: nat)
    requires i < k && j < |at(i)|
    ensures ColumnSum(at, k, -1, j) == ColumnSum(at, k, i, j) + (at(i)[j] as int)
  {
    if i < k - 1 {
      SumWithout(at, k - 1, i, j);
    } else {
      SumNotReached(at, k - 1, i, j);
    }
  }

  lemma {:induction false} SumNotReached(at: nat -> Bytes, k: nat, i: nat, j: nat)
    requires k <= i
    ensures ColumnSum(at, k, -1, j) == ColumnSum(at, k, i, j)
  {
    if k > 0 {
      SumNotReached(at, k - 1, i, j);
    }
  }

  lemma MissingIsRight(m: map<nat, Bytes>, blocks: seq<Bytes>, i: nat)
    requires i < |blocks| && |blocks[i]| == BLOCK_LEN
    requires |blocks| in m && m[|blocks|] == Parity(blocks)
    requires forall x :: 0 <= x < |blocks| && x != i ==> x in m && m[x] == blocks[x]
    ensures Missing(m, |blocks|, i) == blocks[i]
  {
    var k := |blocks|;
    forall j | 0 <= j < BLOCK_LEN ensures Missing(m, k, i)[j] == blocks[i][j] {
      SumWithout(InSeq(blocks), k, i, j);
      SumsAgree(InMap(m), InSeq(blocks), k, i, j);
      var rest, all := ColumnSum(InMap(m), k, i, j), ColumnSum(InSeq(blocks), k, -1, j);
      assert InMap(m)(k)[j] as int == all % 256;
      ModuloDifference(all, rest, blocks[i][j] as int);
    }
  }

  lemma ModuloDifference(all: int, rest: int, x: int)
    requires all == rest + x && 0 <= x < 256
    ensures (all % 256 - rest) % 256 == x
  {
    var q := all / 256;
    assert all % 256 - rest == x - 256 * q;
    assert (x + 256 * (-q)) % 256 == x;
  }

  function Block(padded: Bytes, i: nat): (b: Bytes)
    requires BLOCK_LEN * (i + 1) <= |padded|
    ensures |b| == BLOCK_LEN
  {
    padded[BLOCK_LEN * i..BLOCK_LEN * (i + 1)]
  }

  function Blocks(padded: Bytes, k: nat): (r: seq<Bytes>)
    requires |padded| == BLOCK_LEN * k
    ensures |r| == k && forall i :: 0 <= i < k ==> |r[i]| == BLOCK_LEN
  {
    seq(k, i requires 0 <= i < k => Block(padded, i))
  }

  function Joined(blocks: seq<Bytes>): Bytes {
    if blocks == [] then [] else Joined(blocks[..|blocks| - 1]) + Last(blocks)
  }

  lemma {:induction false} JoinedBlocks(padded: Bytes, k: nat)
    requires |padded| == BLOCK_LEN * k
    ensures Joined(Blocks(padded, k)) == padded
  {
    if k > 0 {
      var init := padded[..BLOCK_LEN * (k - 1)];
      JoinedBlocks(init, k - 1);
      forall i | 0 <= i < k - 1 ensures Blocks(init, k - 1)[i] == Blocks(padded, k)[i] {
        assert Block(init, i) == Block(padded, i);
      }
      assert Blocks(padded, k)[..k - 1] == Blocks(init, k - 1);
      assert padded == init + Block(padded, k - 1);
    }
  }

  function Zeros(n: nat): (b: Bytes)
    ensures |b| == n
  {
    seq(n, i => '\0')
  }

  /** How many blocks hold the data and its four-byte length. */
  function BlockCount(n: nat): (k: nat)
    ensures k >= 1 && n + 4 <= BLOCK_LEN * k
  {
    (n + 4) / BLOCK_LEN + 1
  }

  function Padded(data: Bytes): (b: Bytes)
    requires |data| < U32_LIMIT
    ensures |b| == BLOCK_LEN * BlockCount(|data|)
  {
    BigEndian(|data|, 4) + data + Zeros(BLOCK_LEN * BlockCount(|data|) - |data| - 4)
  }

  function Unpadded(b: Bytes): Option<Bytes> {
    if |b| < 4 || 4 + FromBigEndian(b[..4]) > |b| then None
    else Some(b[4..4 + FromBigEndian(b[..4])])
  }

  lemma PaddedReads(data: Bytes)
    requires |data| < U32_LIMIT
    ensures Unpadded(Padded(data)) == Some(data)
  {
    Widths();
    BigEndianRoundTrip(|data|, 4);
    assert Padded(data)[..4] == BigEndian(|data|, 4);
    assert Padded(data)[4..4 + |data|] == data;
  }

  function Split(data: Bytes): Option<(seq<Bytes>, nat)> {
    if |data| >= U32_LIMIT then None
    else
      var blocks := Blocks(Padded(data), BlockCount(|data|));
      Some((blocks + [Parity(blocks)], BlockCount(|data|)))
  }

  function Assemble(m: map<nat, Bytes>, k: nat, n: nat): Option<Bytes> {
    Unpadded(Joined(seq(k, i requires 0 <= i < k => if i in m then m[i] else Missing(m, k, i))))
  }

  lemma OneLess(s: set<nat>, x: nat)
    requires x in s
    ensures |s - {x}| == |s| - 1
  {
    assert s == (s - {x}) + {x};
  }

  /** At most one of the first `k` blocks is missing, and then the parity block is
      not. */
  lemma OneMissing(m: map<nat, Bytes>, k: nat, i: nat)
    requires |m| >= k && (forall x :: x in m ==> x <= k) && i < k && i !in m
    ensures forall x :: 0 <= x <= k && x != i ==> x in m
  {
    assert |m.Keys| == |m|;
    forall x | 0 <= x <= k && x != i ensures x in m {
      if x !in m {
        BelowSize(k + 1);
        OneLess(Below(k + 1), i);
        OneLess(Below(k + 1) - {i}, x);
        SubsetSize(m.Keys, Below(k + 1) - {i} - {x});
      }
    }
  }

  function Below(n: nat): (r: set<nat>)
    ensures forall x :: x in r <==> 0 <= x < n
  {
    if n == 0 then {} else Below(n - 1) + {n - 1}
  }

  lemma {:induction false} BelowSize(n: nat)
    ensures |Below(n)| == n
  {
    if n > 0 {
      BelowSize(n - 1);
    }
  }

  lemma Assembles(data: Bytes, m: map<nat, Bytes>)
    requires |data| < U32_LIMIT
    requires var (blocks, k) := Split(data).value;
      |m| >= k && forall i :: i in m ==> i < |blocks| && m[i] == blocks[i]
    ensures Assemble(m, Split(data).value.1, |Split(data).value.0|) == Some(data)
  {
    var k := BlockCount(|data|);
    var blocks := Blocks(Padded(data), k);
    var all := blocks + [Parity(blocks)];
    var rebuilt := seq(k, i requires 0 <= i < k => if i in m then m[i] else Missing(m, k, i));
    forall i | 0 <= i < k ensures rebuilt[i] == blocks[i] {
      if i in m {
        assert m[i] == all[i] == blocks[i];
      } else {
        OneMissing(m, k, i);
        assert m[k] == all[k] == Parity(blocks);
        forall x | 0 <= x < k && x != i ensures x in m && m[x] == blocks[x] {
          assert m[x] == all[x];
        }
        MissingIsRight(m, blocks, i);
      }
    }
    assert rebuilt == blocks;
    JoinedBlocks(Padded(data), k);
    PaddedReads(data);
  }

  // ---- the library ----

  function Toy(): Library {
    L.Library.Library(
      (b: Bytes) => "000000000000",
      (k: Key32) => k,
      (k: Key32) => k,
      (k: Key32) => k,
      (seed: Key32, m: Bytes) => ZEROS64,
      (m: Bytes, sig: Bytes, spk: Key32) => |sig| == SIG_LEN,
      Seal,
      Open,
      (b: Bytes) => b,
      (s: string) => if forall i :: 0 <= i < |s| ==> s[i] as int < 256 then Some(AsByteString(s)) else None,
      (b: Bytes) => b,
      (b: Bytes) => Some(b),
      Split,
      Assemble,
      ParseFlat,
      (s: string) => if s == CLAIM_TXT then Some(CLAIM) else None,
      (s: string) => None,
      (a: string, b: string) => "",
      (s: string, k: Key32) => if s == PREKEY_TXT then Some(PREKEY) else None,
      (a: string, b: string) => "")
  }

  function AsByteString(s: string): (b: Bytes)
    requires forall i :: 0 <= i < |s| ==> s[i] as int < 256
    ensures b == s
  {
    s
  }

  lemma ToySeals()
    ensures Toy().SealLaws() && Toy().AuthenticityLaws()
  {
    forall seed, plaintext, aad, rnd | Seal(seed, plaintext, aad, rnd).Some?
      ensures |Seal(seed, plaintext, aad, rnd).value| >= MIN_ENCRYPTED
      ensures Open(seed, Seal(seed, plaintext, aad, rnd).value, aad) == Some(plaintext)
    {
      var payload := Seal(seed, plaintext, aad, rnd).value;
      assert payload[..|Header(seed, aad)|] == Header(seed, aad);
    }
    forall public, plaintext, aad, rnd, seed, aad' |
        Seal(public, plaintext, aad, rnd).Some? && Open(seed, Seal(public, plaintext, aad, rnd).value, aad').Some?
      ensures seed == public && aad' == aad
    {
      HeaderDetermines(public, aad, seed, aad', Seal(public, plaintext, aad, rnd).value);
    }
  }

  lemma ToySplits()
    ensures Toy().ChunkLaws()
  {
    forall data: Bytes | Split(data).Some?
      ensures Toy().SplitsInto(data, Split(data).value.0, Split(data).value.1)
    {
      var (blocks, k) := Split(data).value;
      forall m | Toy().EnoughOf(m, blocks, k) ensures Assemble(m, k, |blocks|) == Some(data) {
        Assembles(data, m);
      }
    }
  }

  lemma ToyIsLawful()
    ensures Toy().Laws()
  {
    ToySeals();
    ToySplits();
    ParseFlatReadsBack();
  }

  /** All laws at once, and nothing of a realistic size is refused. */
  lemma LawsCanBeMet()
    ensures Toy().Laws()
    ensures forall public, plaintext, aad, rnd :: |aad| < U64_LIMIT ==> Toy().seal(public, plaintext, aad, rnd).Some?
    ensures forall data :: |data| < U32_LIMIT ==> Toy().split(data).Some?
  {
    ToyIsLawful();
  }
}
