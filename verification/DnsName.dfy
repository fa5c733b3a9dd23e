/** Which strings are publishable DNS owner names. A name is given by its UTF-8
    bytes, so lengths are byte lengths. */
module DnsName {
  import opened Prelude
  import opened Text

  datatype NameError = EmptyName | EmptyLabel | InvalidLabel

  /** The octet limit on a label, section 2.3.4 of RFC 1035. */
  const MAX_LABEL := 63

  /** `strip_suffix('.')`, where there is a dot to strip. */
  function Undot(name: Bytes): (r: Bytes) {
    if name != "" && Last(name) == '.' then name[..|name| - 1] else name
  }

  predicate EndsWithTwoDots(name: Bytes) {
    |name| >= 2 && Last(name) == '.' && name[|name| - 2] == '.'
  }

  function LabelError(part: string): Option<NameError> {
    if part == "" then Some(EmptyLabel)
    else if |part| > MAX_LABEL then Some(InvalidLabel)
    else if part[0] == '-' || Last(part) == '-' then Some(InvalidLabel)
    else if exists c :: c in part && !(IsAsciiAlnum(c) || c == '-') then Some(InvalidLabel)
    else None
  }

  function LabelsError(parts: seq<string>): Option<NameError> {
    if parts == [] then None
    else
      var e := LabelError(parts[0]);
      if e.Some? then e else LabelsError(parts[1..])
  }

  function NameErrorOf(name: Bytes): Option<NameError> {
    if name == "" then Some(EmptyName)
    else if EndsWithTwoDots(name) then Some(EmptyLabel)
    else
      var normalized := Undot(name);
      if normalized == "" then Some(EmptyName)
      else if !IsAscii(normalized) then Some(InvalidLabel)
      else LabelsError(Split(normalized, '.'))
  }

  predicate IsLabel(part: string) {
    && 1 <= |part| <= MAX_LABEL
    && (forall c :: c in part ==> IsAsciiAlnum(c) || c == '-')
    && part[0] != '-' && Last(part) != '-'
  }

  /** A dot-separated list of labels, with no dot at the end. */
  predicate IsName(name: Bytes) {
    forall part :: part in Split(name, '.') ==> IsLabel(part)
  }

  lemma {:induction false} LabelsErrorIff(parts: seq<string>)
    ensures LabelsError(parts).None? <==> forall part :: part in parts ==> IsLabel(part)
  {
    if parts != [] {
      LabelsErrorIff(parts[1..]);
      assert parts[0] in parts;
      assert LabelError(parts[0]).None? <==> IsLabel(parts[0]);
      assert forall part :: part in parts <==> part == parts[0] || part in parts[1..];
    }
  }

  lemma NameHasNoDotAtTheEnd(name: Bytes)
    requires IsName(name)
    ensures name != "" && Last(name) != '.' && IsAscii(name)
  {
    assert Split("", '.') == [""];
    assert "" in Split("", '.');
    if Last(name) == '.' {
      SplitEmptyLast(name, '.');
      assert false;
    }
    forall d | d in name ensures d as int < 128 {
      SplitCovers(name, '.', d);
    }
  }

  /** What the validator accepts: a name, with or without one final dot. */
  lemma NameErrorIff(name: Bytes)
    ensures NameErrorOf(name).None? <==> IsName(Undot(name))
  {
    var normalized := Undot(name);
    LabelsErrorIff(Split(normalized, '.'));
    if IsName(normalized) {
      NameHasNoDotAtTheEnd(normalized);
    }
  }

  /** The first piece that is no label is empty. */
  ghost predicate FirstBadIsEmpty(parts: seq<string>) {
    exists i :: 0 <= i < |parts| && parts[i] == "" && forall j :: 0 <= j < i ==> IsLabel(parts[j])
  }

  lemma {:induction false} LabelsErrorKind(parts: seq<string>)
    ensures LabelsError(parts) == Some(EmptyLabel) <==> FirstBadIsEmpty(parts)
    ensures LabelsError(parts) != Some(EmptyName)
  {
    if parts != [] {
      assert LabelError(parts[0]).None? <==> IsLabel(parts[0]);
      if IsLabel(parts[0]) {
        var rest := parts[1..];
        LabelsErrorKind(rest);
        if FirstBadIsEmpty(rest) {
          var i :| 0 <= i < |rest| && rest[i] == "" && forall j :: 0 <= j < i ==> IsLabel(rest[j]);
          assert parts[i + 1] == "";
          assert forall j :: 1 <= j < i + 1 ==> parts[j] == rest[j - 1];
        }
        if FirstBadIsEmpty(parts) {
          var i :| 0 <= i < |parts| && parts[i] == "" && forall j :: 0 <= j < i ==> IsLabel(parts[j]);
          assert rest[i - 1] == "";
          assert forall j :: 0 <= j < i - 1 ==> rest[j] == parts[j + 1];
        }
      } else if parts[0] == "" {
        assert FirstBadIsEmpty(parts);
      }
    }
  }

  /** What the validator complains of. */
  lemma NameErrorKind(name: Bytes)
    ensures NameErrorOf(name) == Some(EmptyName) <==> name == "" || name == "."
    ensures NameErrorOf(name) == Some(EmptyLabel) <==>
      EndsWithTwoDots(name)
      || (name != "" && name != "." && IsAscii(Undot(name)) && FirstBadIsEmpty(Split(Undot(name), '.')))
  {
    LabelsErrorKind(Split(Undot(name), '.'));
  }

  /** A name is its own undotted form. */
  lemma UndotTwice(name: Bytes)
    requires IsName(Undot(name))
    ensures Undot(Undot(name)) == Undot(name) && NameErrorOf(Undot(name)).None?
  {
    NameHasNoDotAtTheEnd(Undot(name));
    NameErrorIff(Undot(name));
  }
}
