/** String operations the Rust code takes from its standard library. */
module Text {
  import opened Prelude

  /** `char::is_whitespace`. */
  predicate IsWhitespace(c: char) {
    var n := c as int;
    0x09 <= n <= 0x0D || n == 0x20 || n == 0x85 || n == 0xA0 || n == 0x1680
    || 0x2000 <= n <= 0x200A || n == 0x2028 || n == 0x2029 || n == 0x202F || n == 0x205F || n == 0x3000
  }

  function TrimStart(s: string): (r: string)
    ensures r == [] || !IsWhitespace(r[0])
    ensures forall c :: c in r ==> c in s
  {
    if s != [] && IsWhitespace(s[0]) then TrimStart(s[1..]) else s
  }

  function TrimEnd(s: string): (r: string)
    ensures r == [] || !IsWhitespace(Last(r))
    ensures r <= s
  {
    if s != [] && IsWhitespace(Last(s)) then TrimEnd(s[..|s| - 1]) else s
  }

  /** `str::trim`. */
  function Trim(s: string): string {
    TrimEnd(TrimStart(s))
  }

  ghost predicate AllWhitespace(s: string) {
    forall c :: c in s ==> IsWhitespace(c)
  }

  lemma {:induction false} TrimStartCuts(s: string) returns (cut: string)
    ensures s == cut + TrimStart(s) && AllWhitespace(cut)
  {
    cut := [];
    if s != [] && IsWhitespace(s[0]) {
      cut := TrimStartCuts(s[1..]);
      cut := [s[0]] + cut;
    }
  }

  lemma {:induction false} TrimEndCuts(s: string) returns (cut: string)
    ensures s == TrimEnd(s) + cut && AllWhitespace(cut)
  {
    cut := [];
    if s != [] && IsWhitespace(Last(s)) {
      cut := TrimEndCuts(s[..|s| - 1]);
      cut := cut + [Last(s)];
    }
  }

  /** Trimming takes whitespace off both ends, all of it and nothing else. */
  lemma TrimCuts(s: string)
    ensures exists before, after :: AllWhitespace(before) && AllWhitespace(after) && s == before + Trim(s) + after
    ensures Trim(s) != [] ==> !IsWhitespace(Trim(s)[0]) && !IsWhitespace(Last(Trim(s)))
  {
    var before := TrimStartCuts(s);
    var after := TrimEndCuts(TrimStart(s));
    assert s == before + Trim(s) + after;
  }

  lemma TrimmedStays(s: string)
    requires s == [] || (!IsWhitespace(s[0]) && !IsWhitespace(Last(s)))
    ensures Trim(s) == s
  {
  }

  /** `trim_end_matches('.')`. */
  function TrimEndDots(s: string): (r: string)
    ensures r == [] || Last(r) != '.'
    ensures r <= s
    ensures forall i :: |r| <= i < |s| ==> s[i] == '.'
  {
    if s != [] && Last(s) == '.' then TrimEndDots(s[..|s| - 1]) else s
  }

  /** The first position of `c`, as `str::find` reports it. */
  function Find(s: string, c: char): (r: Option<nat>)
    ensures r.Some? ==> r.value < |s| && s[r.value] == c && c !in s[..r.value]
    ensures r.None? ==> c !in s
  {
    if s == [] then None
    else if s[0] == c then Some(0)
    else
      var rest := Find(s[1..], c);
      if rest.None? then None
      else
        assert s[..rest.value + 1] == [s[0]] + s[1..][..rest.value];
        Some(rest.value + 1)
  }

  lemma FindFirst(a: string, c: char, b: string)
    requires c !in a
    ensures Find(a + [c] + b, c) == Some(|a|)
  {
    var s := a + [c] + b;
    assert s[|a|] == c;
    assert forall j :: 0 <= j < |a| ==> s[j] == a[j] && s[j] in a;
    var i := Find(s, c).value;
    assert forall j :: 0 <= j < i ==> s[j] in s[..i];
  }

  function ToLowerAscii(c: char): (r: char)
    ensures (c as int) < 128 ==> (r as int) < 128
  {
    if 'A' <= c <= 'Z' then (c as int + 32) as char else c
  }

  /** `to_ascii_lowercase`. */
  function LowerAscii(s: string): (r: string)
    ensures |r| == |s|
    ensures forall i :: 0 <= i < |s| ==> r[i] == ToLowerAscii(s[i])
  {
    seq(|s|, i requires 0 <= i < |s| => ToLowerAscii(s[i]))
  }

  /** The same letter, in upper or lower case, or the same character. */
  predicate SameLetter(a: char, b: char) {
    a == b || ('A' <= a <= 'Z' && b as int == a as int + 32) || ('A' <= b <= 'Z' && a as int == b as int + 32)
  }

  /** `eq_ignore_ascii_case`. */
  predicate SameUpToCase(s: string, t: string) {
    |s| == |t| && forall i :: 0 <= i < |s| ==> SameLetter(s[i], t[i])
  }

  lemma LowerAsciiIff(s: string, t: string)
    ensures LowerAscii(s) == LowerAscii(t) <==> SameUpToCase(s, t)
  {
    if LowerAscii(s) == LowerAscii(t) {
      forall i | 0 <= i < |s| ensures SameLetter(s[i], t[i]) {
        assert LowerAscii(s)[i] == LowerAscii(t)[i];
      }
    }
  }

  predicate IsAscii(s: string) {
    forall c :: c in s ==> c as int < 128
  }

  predicate IsAsciiAlnum(c: char) {
    'a' <= c <= 'z' || 'A' <= c <= 'Z' || '0' <= c <= '9'
  }

  /** The pieces of `s` between occurrences of `c`, as `str::split` yields them. */
  function Split(s: string, c: char): (r: seq<string>)
    ensures |r| >= 1
    ensures forall p :: p in r ==> c !in p
  {
    var i := Find(s, c);
    if i.None? then [s] else [s[..i.value]] + Split(s[i.value + 1..], c)
  }

  /** The pieces with the separator between them. */
  function Join(parts: seq<string>, c: char): string {
    if parts == [] then "" else if |parts| == 1 then parts[0] else parts[0] + [c] + Join(parts[1..], c)
  }

  lemma JoinFirst(first: string, rest: seq<string>, c: char)
    requires rest != []
    ensures Join([first] + rest, c) == first + [c] + Join(rest, c)
  {
    assert ([first] + rest)[1..] == rest;
  }

  /** Splitting takes out the separators and nothing else. */
  lemma {:induction false} SplitJoins(s: string, c: char)
    ensures Join(Split(s, c), c) == s
    decreases |s|
  {
    var i := Find(s, c);
    if i.Some? {
      var first, rest := s[..i.value], s[i.value + 1..];
      SplitJoins(rest, c);
      JoinFirst(first, Split(rest, c), c);
      assert s == first + [c] + rest;
    }
  }

  /** Every character of a string is the separator or is in some piece. */
  lemma {:induction false} SplitCovers(s: string, c: char, d: char)
    requires d in s
    ensures d == c || exists part :: part in Split(s, c) && d in part
    decreases |s|
  {
    var i := Find(s, c);
    if i.Some? && d != c {
      var rest := s[i.value + 1..];
      assert s == s[..i.value] + [s[i.value]] + rest;
      if d in s[..i.value] {
        assert s[..i.value] in Split(s, c);
      } else {
        SplitCovers(rest, c, d);
        var part :| part in Split(rest, c) && d in part;
        assert part in Split(s, c);
      }
    } else if i.None? {
      assert s in Split(s, c);
    }
  }

  /** What ends in the separator has an empty last piece. */
  lemma {:induction false} SplitEmptyLast(s: string, c: char)
    requires s != "" && Last(s) == c
    ensures "" in Split(s, c)
    decreases |s|
  {
    var i := Find(s, c).value;
    var rest := s[i + 1..];
    if rest != "" {
      SplitEmptyLast(rest, c);
      assert "" in Split(rest, c);
    } else {
      assert Split(rest, c) == [""];
    }
  }
}
