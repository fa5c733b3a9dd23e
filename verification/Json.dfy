/**
 JSON as far as this protocol writes it: flat objects of plain strings and
 unsigned numbers. Reading is a parameter, because the program leaves it to a
 library; `ReadsBack` is the one thing assumed of that library, and `ParseFlat`
 shows that it can be met.
 */
module Json {
  import opened Prelude
  import opened Text
  import opened TextCodec

  datatype Value = Str(s: string) | Num(n: nat) | Other

  datatype Doc = Malformed | NotObject | Object(fields: map<string, Value>)

  type Members = seq<(string, Value)>

  type Parser = string -> Doc

  /** Characters that JSON strings carry without an escape, within ASCII. */
  predicate Plain(s: string) {
    forall c :: c in s ==> 0x20 <= c as int < 0x7F && c != '"' && c != '\\'
  }

  predicate PrintableMember(m: (string, Value)) {
    && Plain(m.0)
    && !m.1.Other?
    && (m.1.Str? ==> Plain(m.1.s))
    && (m.1.Num? ==> m.1.n < U64_LIMIT)
  }

  predicate Printable(ms: Members) {
    forall m :: m in ms ==> PrintableMember(m)
  }

  ghost predicate DistinctNames(ms: Members) {
    forall i, j :: 0 <= i < j < |ms| ==> ms[i].0 != ms[j].0
  }

  function Quote(s: string): string {
    "\"" + s + "\""
  }

  function PrintValue(v: Value): string {
    match v
    case Str(s) => Quote(s)
    case Num(n) => DecimalOf(n)
    case Other => "null"
  }

  function PrintMember(m: (string, Value)): string {
    Quote(m.0) + ":" + PrintValue(m.1)
  }

  function PrintMembers(ms: Members): string {
    if ms == [] then ""
    else if |ms| == 1 then PrintMember(ms[0])
    else PrintMember(ms[0]) + "," + PrintMembers(ms[1..])
  }

  /** The most compact form, fields in the order given. */
  function Print(ms: Members): string {
    "{" + PrintMembers(ms) + "}"
  }

  function FieldsOf(ms: Members): map<string, Value> {
    if ms == [] then map[] else map[ms[0].0 := ms[0].1] + FieldsOf(ms[1..])
  }

  /** What is asked of a JSON reader. */
  ghost predicate ReadsBack(parse: Parser) {
    forall ms :: Printable(ms) && ms != [] && DistinctNames(ms) ==> parse(Print(ms)) == Object(FieldsOf(ms))
  }

  lemma {:induction false} FieldLookup(ms: Members, i: nat)
    requires DistinctNames(ms) && i < |ms|
    ensures ms[i].0 in FieldsOf(ms) && FieldsOf(ms)[ms[i].0] == ms[i].1
  {
    if i > 0 {
      FieldLookup(ms[1..], i - 1);
    } else {
      FieldNames(ms[1..]);
    }
  }

  lemma {:induction false} FieldNames(ms: Members)
    ensures forall k :: k in FieldsOf(ms) <==> exists i :: 0 <= i < |ms| && ms[i].0 == k
  {
    if ms != [] {
      FieldNames(ms[1..]);
      forall k ensures k in FieldsOf(ms) <==> exists i :: 0 <= i < |ms| && ms[i].0 == k {
        if i :| 0 <= i < |ms| && ms[i].0 == k {
          assert i > 0 ==> ms[1..][i - 1].0 == k;
        }
        if i :| 0 <= i < |ms[1..]| && ms[1..][i].0 == k {
          assert ms[i + 1].0 == k;
        }
      }
    }
  }

  // A reader for exactly these objects

  function TakeString(s: string): (r: Option<(string, string)>)
    ensures r.Some? ==> |r.value.1| < |s|
  {
    if s == "" || s[0] != '"' then None
    else
      var close := Find(s[1..], '"');
      if close.None? || !Plain(s[1..][..close.value]) then None
      else Some((s[1..][..close.value], s[close.value + 2..]))
  }

  function DigitCount(s: string): (n: nat)
    ensures n <= |s|
    ensures forall c :: c in s[..n] ==> IsDigit(c)
    ensures n < |s| ==> !IsDigit(s[n])
  {
    if s == "" || !IsDigit(s[0]) then 0
    else
      assert s[..1 + DigitCount(s[1..])] == [s[0]] + s[1..][..DigitCount(s[1..])];
      1 + DigitCount(s[1..])
  }

  function TakeValue(s: string): (r: Option<(Value, string)>)
    ensures r.Some? ==> |r.value.1| < |s|
  {
    if s != "" && s[0] == '"' then
      var t := TakeString(s);
      if t.None? then None else Some((Str(t.value.0), t.value.1))
    else
      var n := DigitCount(s);
      if n == 0 || (n > 1 && s[0] == '0') then None else Some((Num(ParseDecimal(s[..n])), s[n..]))
  }

  function TakeMember(s: string): (r: Option<((string, Value), string)>)
    ensures r.Some? ==> |r.value.1| < |s|
  {
    var name := TakeString(s);
    if name.None? || name.value.1 == "" || name.value.1[0] != ':' then None
    else
      var v := TakeValue(name.value.1[1..]);
      if v.None? then None else Some(((name.value.0, v.value.0), v.value.1))
  }

  function TakeMembers(s: string): Option<map<string, Value>>
    decreases |s|
  {
    var m := TakeMember(s);
    if m.None? then None
    else
      var ((name, v), rest) := m.value;
      if rest == "}" then Some(map[name := v])
      else if rest == "" || rest[0] != ',' then None
      else
        var more := TakeMembers(rest[1..]);
        if more.None? then None else Some(map[name := v] + more.value)
  }

  function ParseFlat(s: string): Doc {
    if s == "" || s[0] != '{' then Malformed
    else if TakeMembers(s[1..]).None? then Malformed
    else Object(TakeMembers(s[1..]).value)
  }

  lemma TakesString(t: string, rest: string)
    requires Plain(t)
    ensures TakeString(Quote(t) + rest) == Some((t, rest))
  {
    var s := Quote(t) + rest;
    assert s[1..] == t + ['"'] + rest;
    assert '"' !in t;
    FindFirst(t, '"', rest);
    assert s[1..][..|t|] == t && s[|t| + 2..] == rest;
  }

  lemma {:induction false} CountsDigits(digits: string, rest: string)
    requires forall c :: c in digits ==> IsDigit(c)
    requires rest != "" && !IsDigit(rest[0])
    ensures DigitCount(digits + rest) == |digits|
  {
    if digits != "" {
      assert digits[0] in digits;
      assert (digits + rest)[1..] == digits[1..] + rest;
      CountsDigits(digits[1..], rest);
    } else {
      assert digits + rest == rest;
    }
  }

  lemma TakesValue(v: Value, rest: string)
    requires !v.Other? && (v.Str? ==> Plain(v.s))
    requires rest != "" && !IsDigit(rest[0])
    ensures TakeValue(PrintValue(v) + rest) == Some((v, rest))
  {
    match v {
      case Str(t) =>
        TakesString(t, rest);
      case Num(n) =>
        DecimalRoundTrip(n);
        CountsDigits(DecimalOf(n), rest);
        assert DecimalOf(n)[0] in DecimalOf(n);
        var s := DecimalOf(n) + rest;
        assert s[..|DecimalOf(n)|] == DecimalOf(n) && s[|DecimalOf(n)|..] == rest;
    }
  }

  lemma TakesMember(m: (string, Value), rest: string)
    requires PrintableMember(m) && rest != "" && !IsDigit(rest[0])
    ensures TakeMember(PrintMember(m) + rest) == Some((m, rest))
  {
    var body := ":" + (PrintValue(m.1) + rest);
    assert PrintMember(m) + rest == Quote(m.0) + body;
    TakesString(m.0, body);
    assert body[1..] == PrintValue(m.1) + rest;
    TakesValue(m.1, rest);
  }

  predicate OneLine(s: string) {
    forall c :: c in s ==> 0x20 <= c as int < 0x7F
  }

  lemma {:induction false} PrintIsOneLine(ms: Members)
    requires Printable(ms)
    ensures OneLine(PrintMembers(ms)) && OneLine(Print(ms))
  {
    if ms != [] {
      assert PrintableMember(ms[0]);
      assert OneLine(PrintMember(ms[0]));
      PrintIsOneLine(ms[1..]);
    }
  }

  lemma TakesOneMore(m: (string, Value), tail: string, fields: map<string, Value>)
    requires PrintableMember(m) && TakeMembers(tail) == Some(fields)
    ensures TakeMembers(PrintMember(m) + "," + tail) == Some(map[m.0 := m.1] + fields)
  {
    var rest := "," + tail;
    assert PrintMember(m) + "," + tail == PrintMember(m) + rest;
    TakesMember(m, rest);
    assert rest[1..] == tail;
    assert rest[0] != "}"[0];
  }

  lemma {:induction false} TakesMembers(ms: Members)
    requires Printable(ms) && ms != []
    ensures TakeMembers(PrintMembers(ms) + "}") == Some(FieldsOf(ms))
  {
    assert ms[0] in ms;
    if |ms| == 1 {
      TakesMember(ms[0], "}");
      assert FieldsOf(ms[1..]) == map[];
      assert FieldsOf(ms) == map[ms[0].0 := ms[0].1];
    } else {
      TakesMembers(ms[1..]);
      TakesOneMore(ms[0], PrintMembers(ms[1..]) + "}", FieldsOf(ms[1..]));
      assert PrintMembers(ms) + "}" == PrintMember(ms[0]) + "," + (PrintMembers(ms[1..]) + "}");
    }
  }

  /** A JSON reader that meets the assumption exists. */
  lemma ParseFlatReadsBack()
    ensures ReadsBack(ParseFlat)
  {
    forall ms | Printable(ms) && ms != [] && DistinctNames(ms) ensures ParseFlat(Print(ms)) == Object(FieldsOf(ms)) {
      FlatRoundTrip(ms);
    }
  }

  lemma FlatRoundTrip(ms: Members)
    requires Printable(ms) && ms != []
    ensures ParseFlat(Print(ms)) == Object(FieldsOf(ms))
  {
    assert Print(ms)[1..] == PrintMembers(ms) + "}";
    TakesMembers(ms);
  }
}
