/** Decimal and hexadecimal notation, big-endian bytes, each with its inverse. */
module TextCodec {
  import opened Prelude
  import opened Text

  /** An ASCII string is a byte string. */
  function AsBytes(s: string): (b: Bytes)
    requires IsAscii(s)
    ensures b == s
  {
    assert forall i :: 0 <= i < |s| ==> s[i] in s;
    s
  }

  predicate IsDigit(c: char) {
    '0' <= c <= '9'
  }

  function DigitOf(d: int): (c: char)
    requires 0 <= d < 10
    ensures IsDigit(c) && c as int == '0' as int + d
  {
    ('0' as int + d) as char
  }

  function DecimalOf(n: nat): (s: string)
    ensures s != "" && forall c :: c in s ==> IsDigit(c)
  {
    if n < 10 then [DigitOf(n)] else DecimalOf(n / 10) + [DigitOf(n % 10)]
  }

  function ParseDecimal(s: string): nat
    requires forall c :: c in s ==> IsDigit(c)
  {
    if s == "" then 0
    else
      assert Last(s) in s && IsDigit(Last(s));
      10 * ParseDecimal(s[..|s| - 1]) + (Last(s) as int - '0' as int)
  }

  lemma {:induction false} DecimalRoundTrip(n: nat)
    ensures ParseDecimal(DecimalOf(n)) == n
    ensures DecimalOf(n)[0] == '0' ==> n == 0 && DecimalOf(n) == "0"
  {
    if n >= 10 {
      DecimalRoundTrip(n / 10);
      assert DecimalOf(n)[..|DecimalOf(n)| - 1] == DecimalOf(n / 10);
    } else {
      assert DecimalOf(n)[..0] == "";
    }
  }

  /** The first digit counts most. */
  lemma {:induction false} FirstDigitHighest(first: char, rest: string)
    requires IsDigit(first) && forall c :: c in rest ==> IsDigit(c)
    ensures ParseDecimal([first] + rest) == (first as int - '0' as int) * Pow10(|rest|) + ParseDecimal(rest)
    decreases |rest|
  {
    var all := [first] + rest;
    if rest != "" {
      var init, p := rest[..|rest| - 1], Pow10(|rest| - 1);
      FirstDigitHighest(first, init);
      assert all[..|all| - 1] == [first] + init;
      TenTimes(first as int - '0' as int, p, ParseDecimal(init));
    } else {
      assert all[..0] == "";
    }
  }

  lemma TenTimes(x: nat, p: nat, y: nat)
    ensures 10 * (x * p + y) == x * (10 * p) + 10 * y
  {
    assert 10 * (x * p) == x * (10 * p);
  }

  /** A number below a power of ten has at most that many digits. */
  lemma {:induction false} DecimalLength(n: nat, digits: nat, limit: nat)
    requires digits >= 1 && limit == Pow10(digits) && n < limit
    ensures |DecimalOf(n)| <= digits
  {
    if n >= 10 {
      assert digits > 1 by {
        assert Pow10(1) == 10 * Pow10(0) == 10;
      }
      DecimalLength(n / 10, digits - 1, Pow10(digits - 1));
    }
  }

  function Pow10(k: nat): nat {
    if k == 0 then 1 else 10 * Pow10(k - 1)
  }

  const HEX_DIGITS := "0123456789abcdef"

  function HexOf(b: Bytes): (s: string)
    ensures |s| == 2 * |b|
    ensures forall c :: c in s ==> c in HEX_DIGITS
  {
    if b == [] then ""
    else [HEX_DIGITS[b[0] as int / 16], HEX_DIGITS[b[0] as int % 16]] + HexOf(b[1..])
  }

  /** The value of a hex digit of either case. */
  function HexValue(c: char): (r: Option<int>)
    ensures r.Some? ==> 0 <= r.value < 16
  {
    if '0' <= c <= '9' then Some(c as int - '0' as int)
    else if 'a' <= c <= 'f' then Some(c as int - 'a' as int + 10)
    else if 'A' <= c <= 'F' then Some(c as int - 'A' as int + 10)
    else None
  }

  /** `hex::decode`. */
  function UnHex(s: string): Option<Bytes> {
    if s == "" then Some([])
    else if |s| == 1 then None
    else
      var hi, lo, rest := HexValue(s[0]), HexValue(s[1]), UnHex(s[2..]);
      if hi.None? || lo.None? || rest.None? then None
      else Some([(16 * hi.value + lo.value) as char] + rest.value)
  }

  lemma HexDigitValue(d: int)
    requires 0 <= d < 16
    ensures HexValue(HEX_DIGITS[d]) == Some(d)
  {
    if d < 10 {
      assert HEX_DIGITS[d] as int == '0' as int + d;
    } else {
      assert HEX_DIGITS[d] as int == 'a' as int + d - 10;
    }
  }

  /** Two digits and what follows. */
  lemma HexStep(hi: char, lo: char, rest: string, b: Byte, bs: Bytes)
    requires HexValue(hi) == Some(b as int / 16) && HexValue(lo) == Some(b as int % 16) && UnHex(rest) == Some(bs)
    ensures UnHex([hi, lo] + rest) == Some([b] + bs)
  {
    assert ([hi, lo] + rest)[2..] == rest;
  }

  lemma {:induction false} HexRoundTrip(b: Bytes)
    ensures UnHex(HexOf(b)) == Some(b)
  {
    if b != [] {
      var hi, lo := b[0] as int / 16, b[0] as int % 16;
      HexDigitValue(hi);
      HexDigitValue(lo);
      HexRoundTrip(b[1..]);
      HexStep(HEX_DIGITS[hi], HEX_DIGITS[lo], HexOf(b[1..]), b[0], b[1..]);
      assert b == [b[0]] + b[1..];
    }
  }

  lemma AfterPair(pair: string, rest: string, i: nat, k: nat)
    requires |pair| == 2 && k == 2 * (i - 1) && k + 1 < |rest|
    ensures (pair + rest)[2 * i] == rest[k] && (pair + rest)[2 * i + 1] == rest[k + 1]
  {
  }

  /** Two digits a byte, the high one first. */
  lemma {:induction false} HexDigitsAre(b: Bytes, i: nat)
    requires i < |b|
    ensures HexValue(HexOf(b)[2 * i]) == Some(b[i] as int / 16)
    ensures HexValue(HexOf(b)[2 * i + 1]) == Some(b[i] as int % 16)
  {
    var hi, lo := b[0] as int / 16, b[0] as int % 16;
    if i == 0 {
      HexDigitValue(hi);
      HexDigitValue(lo);
    } else {
      AfterPair([HEX_DIGITS[hi], HEX_DIGITS[lo]], HexOf(b[1..]), i, 2 * (i - 1));
      HexDigitsAre(b[1..], i - 1);
    }
  }

  /** The `k` low-order bytes of `n`, most significant first. */
  function BigEndian(n: nat, k: nat): (b: Bytes)
    ensures |b| == k
  {
    if k == 0 then [] else BigEndian(n / 256, k - 1) + [(n % 256) as char]
  }

  function FromBigEndian(b: Bytes): nat {
    if b == [] then 0 else 256 * FromBigEndian(b[..|b| - 1]) + (Last(b) as int)
  }

  function Pow256(k: nat): nat {
    if k == 0 then 1 else 256 * Pow256(k - 1)
  }

  lemma {:induction false} BigEndianRoundTrip(n: nat, k: nat)
    requires n < Pow256(k)
    ensures FromBigEndian(BigEndian(n, k)) == n
  {
    if k > 0 {
      BigEndianRoundTrip(n / 256, k - 1);
      assert BigEndian(n, k)[..k - 1] == BigEndian(n / 256, k - 1);
    }
  }

  lemma {:induction false} BigEndianBytes(b: Bytes)
    ensures FromBigEndian(b) < Pow256(|b|)
    ensures BigEndian(FromBigEndian(b), |b|) == b
  {
    if b != [] {
      var init := b[..|b| - 1];
      BigEndianBytes(init);
      Shifted(FromBigEndian(init), Last(b) as int, |init|);
      assert b == init + [Last(b)] && |b| == |init| + 1;
    }
  }

  /** The first byte counts most. */
  lemma {:induction false} FirstByteHighest(first: Byte, rest: Bytes)
    ensures FromBigEndian([first] + rest) == (first as int) * Pow256(|rest|) + FromBigEndian(rest)
    decreases |rest|
  {
    var all := [first] + rest;
    if rest != [] {
      var init, p := rest[..|rest| - 1], Pow256(|rest| - 1);
      FirstByteHighest(first, init);
      assert all[..|all| - 1] == [first] + init;
      Distributes(first as int, p, FromBigEndian(init));
    } else {
      assert all[..0] == [];
    }
  }

  lemma Distributes(x: nat, p: nat, y: nat)
    ensures 256 * (x * p + y) == x * (256 * p) + 256 * y
  {
    assert 256 * (x * p) == x * (256 * p);
  }

  /** One more byte at the low end. */
  lemma Shifted(hi: nat, lo: nat, k: nat)
    requires lo < 256 && hi < Pow256(k)
    ensures 256 * hi + lo < Pow256(k + 1)
    ensures BigEndian(256 * hi + lo, k + 1) == BigEndian(hi, k) + [lo as char]
  {
    assert (256 * hi + lo) / 256 == hi && (256 * hi + lo) % 256 == lo;
  }

  /** The sizes of integers this protocol writes. */
  lemma Widths()
    ensures Pow256(1) == U8_LIMIT && Pow256(2) == U16_LIMIT && Pow256(4) == U32_LIMIT && Pow256(8) == U64_LIMIT
    ensures Pow10(3) == 1000 && Pow10(10) == 10_000_000_000 && Pow10(20) == 100_000_000_000_000_000_000
  {
    assert Pow256(2) == 256 * Pow256(1);
    assert Pow256(4) == 256 * 256 * Pow256(2);
    assert Pow256(6) == 256 * 256 * Pow256(4);
    assert Pow256(8) == 256 * 256 * Pow256(6);
    assert Pow10(2) == 10 * Pow10(1);
    assert Pow10(4) == 10 * Pow10(3);
    assert Pow10(6) == 100 * Pow10(4);
    assert Pow10(8) == 100 * Pow10(6);
    assert Pow10(10) == 100 * Pow10(8);
    assert Pow10(12) == 100 * Pow10(10);
    assert Pow10(14) == 100 * Pow10(12);
    assert Pow10(16) == 100 * Pow10(14);
    assert Pow10(18) == 100 * Pow10(16);
    assert Pow10(20) == 100 * Pow10(18);
  }

  predicate Continues(b: Bytes, at: nat, low: int, high: int) {
    at < |b| && low <= b[at] as int <= high
  }

  /** `str::from_utf8` accepts the bytes: the well-formed sequences of
      section 4 of RFC 3629. */
  predicate IsUtf8(b: Bytes)
    decreases |b|
  {
    if b == [] then true
    else
      var x := b[0] as int;
      if x < 0x80 then IsUtf8(b[1..])
      else if 0xC2 <= x <= 0xDF then Continues(b, 1, 0x80, 0xBF) && IsUtf8(b[2..])
      else if 0xE0 <= x <= 0xEF then
        && Continues(b, 1, if x == 0xE0 then 0xA0 else 0x80, if x == 0xED then 0x9F else 0xBF)
        && Continues(b, 2, 0x80, 0xBF)
        && IsUtf8(b[3..])
      else
        && 0xF0 <= x <= 0xF4
        && Continues(b, 1, if x == 0xF0 then 0x90 else 0x80, if x == 0xF4 then 0x8F else 0xBF)
        && Continues(b, 2, 0x80, 0xBF)
        && Continues(b, 3, 0x80, 0xBF)
        && IsUtf8(b[4..])
  }

  lemma {:induction false} AsciiIsUtf8(b: Bytes)
    requires IsAscii(b)
    ensures IsUtf8(b)
  {
    if b != [] {
      assert b[0] in b;
      assert forall c :: c in b[1..] ==> c in b;
      AsciiIsUtf8(b[1..]);
    }
  }
}
