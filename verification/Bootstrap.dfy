/**
 The bootstrap record of a user domain: the clusters that serve it, most
 preferred first, and the byte format the zone operator signs.

 A record may be written with a final dot on its names and with its entries in
 any order; validating it brings it to a canonical form in place.
 */
module Bootstrap {
  import opened Prelude
  import opened Text
  import opened TextCodec
  import opened StableSort
  import opened DnsName

  const MAGIC: Bytes := AsBytes("DMPBS01")
  const MAX_USER_DOMAIN := 64
  const MAX_BASE_DOMAIN := 64
  const MAX_ENTRIES := 16
  const HEAD := 56

  datatype Error =
    | UserDomainEmpty
    | NameWithEmptyLabel
    | UserDomainTooLong(actual: nat)
    | InvalidBaseDomain
    | NameWithInvalidLabel
    | InvalidEntryCount
    | DuplicateEntry(priority: u16, baseDomain: Bytes)
    | MalformedBody
    | SigningKeyMismatch
    | WireTooLong(length: nat)

  datatype Entry = Entry(priority: u16, baseDomain: Bytes, operatorSpk: Key32)

  datatype Record = Record(userDomain: Bytes, signerSpk: Key32, entries: seq<Entry>, seqNo: u64, exp: u64)

  type Key = (u16, string)

  function FromNameError(e: NameError): Error {
    match e
    case EmptyName => UserDomainEmpty
    case EmptyLabel => NameWithEmptyLabel
    case InvalidLabel => NameWithInvalidLabel
  }

  /** Two entries must not agree on this. */
  function KeyOf(e: Entry): Key {
    (e.priority, LowerAscii(e.baseDomain))
  }

  const ByPriority: Entry -> int := (e: Entry) => e.priority

  /** The judgements this module passes on a name; everything below holds for
      any lawful rule, and the two in use are fixed in `RULE` at the end. */
  datatype NameRule = NameRule(problem: Bytes -> Option<NameError>, utf8: Bytes -> bool)

  /** A single final dot makes no difference, two do, and names are text. */
  ghost predicate LawAt(rule: NameRule, name: Bytes) {
    && (rule.problem(name).None? ==>
          rule.utf8(name) && Undot(name) != "" && !EndsWithTwoDots(name) && rule.problem(Undot(name)).None?)
    && (!EndsWithTwoDots(name) && rule.problem(Undot(name)).None? ==> rule.problem(name).None?)
  }

  ghost predicate Lawful(rule: NameRule) {
    forall name :: LawAt(rule, name)
  }

  predicate Passes(rule: NameRule, name: Bytes, limit: nat) {
    rule.problem(name).None? && |Undot(name)| <= limit
  }

  // ---- which records are acceptable, and their canonical form ----

  predicate AllPass(rule: NameRule, es: seq<Entry>) {
    forall i :: 0 <= i < |es| ==> Passes(rule, es[i].baseDomain, MAX_BASE_DOMAIN)
  }

  function CanonicalEntry(e: Entry): Entry {
    e.(baseDomain := Undot(e.baseDomain))
  }

  function CanonicalEntries(es: seq<Entry>): (r: seq<Entry>)
    ensures |r| == |es|
    ensures forall i :: 0 <= i < |es| ==> r[i] == CanonicalEntry(es[i])
  {
    seq(|es|, i requires 0 <= i < |es| => CanonicalEntry(es[i]))
  }

  predicate DistinctKeys(es: seq<Entry>) {
    forall i, j :: 0 <= i < j < |es| ==> KeyOf(es[i]) != KeyOf(es[j])
  }

  predicate AcceptableBy(rule: NameRule, r: Record) {
    && Passes(rule, r.userDomain, MAX_USER_DOMAIN)
    && 1 <= |r.entries| <= MAX_ENTRIES
    && AllPass(rule, r.entries)
    && DistinctKeys(CanonicalEntries(r.entries))
  }

  function Canonical(r: Record): Record {
    r.(userDomain := Undot(r.userDomain), entries := Sort(CanonicalEntries(r.entries), ByPriority))
  }

  // ---- validation as the code does it ----

  function EntryError(rule: NameRule, e: Entry): Option<Error> {
    if e.baseDomain == "" then Some(InvalidBaseDomain)
    else if rule.problem(e.baseDomain).Some? then Some(FromNameError(rule.problem(e.baseDomain).value))
    else if Undot(e.baseDomain) == "" then Some(InvalidBaseDomain)
    else if |Undot(e.baseDomain)| > MAX_BASE_DOMAIN then Some(InvalidBaseDomain)
    else None
  }

  /** The entry as `validate` leaves it, also when it fails. */
  function EntryAfter(rule: NameRule, e: Entry): Entry {
    if e.baseDomain == "" || rule.problem(e.baseDomain).Some? then e else CanonicalEntry(e)
  }

  /** The entry list and the first error after the loop has run from `i` on. */
  function Scan(rule: NameRule, es: seq<Entry>, i: nat, seen: set<Key>): (r: (seq<Entry>, Option<Error>))
    requires i <= |es|
    ensures |r.0| == |es|
    decreases |es| - i
  {
    if i == |es| then (es, None)
    else
      var e := EntryAfter(rule, es[i]);
      if EntryError(rule, es[i]).Some? then (es[i := e], EntryError(rule, es[i]))
      else if KeyOf(e) in seen then (es[i := e], Some(DuplicateEntry(e.priority, e.baseDomain)))
      else Scan(rule, es[i := e], i + 1, seen + {KeyOf(e)})
  }

  function UserDomainError(rule: NameRule, name: Bytes): Option<Error> {
    if name == "" then Some(UserDomainEmpty)
    else if EndsWithTwoDots(name) then Some(NameWithEmptyLabel)
    else
      var popped := Undot(name);
      if popped == "" then Some(UserDomainEmpty)
      else if |popped| > MAX_USER_DOMAIN then Some(UserDomainTooLong(|popped|))
      else if rule.problem(popped).Some? then Some(FromNameError(rule.problem(popped).value))
      else None
  }

  /** The record as `validate` leaves it, and its verdict. */
  function Validated(rule: NameRule, r: Record): (Record, Option<Error>) {
    var named := if EndsWithTwoDots(r.userDomain) then r else r.(userDomain := Undot(r.userDomain));
    if UserDomainError(rule, r.userDomain).Some? then (named, UserDomainError(rule, r.userDomain))
    else if r.entries == [] || |r.entries| > MAX_ENTRIES then (named, Some(InvalidEntryCount))
    else
      var (es, error) := Scan(rule, r.entries, 0, {});
      (named.(entries := if error.None? then Sort(es, ByPriority) else es), error)
  }

  /** The state of the loop before entry `i`: so far every entry was fine, has
      been made canonical, and no key has come up twice. */
  ghost predicate ScannedTo(rule: NameRule, original: seq<Entry>, es: seq<Entry>, i: nat, seen: set<Key>) {
    && i <= |es| == |original|
    && (forall j :: 0 <= j < i ==>
        Passes(rule, original[j].baseDomain, MAX_BASE_DOMAIN) && es[j] == CanonicalEntry(original[j]))
    && (forall j :: i <= j < |es| ==> es[j] == original[j])
    && (forall j, k :: 0 <= j < k < i ==> KeyOf(es[j]) != KeyOf(es[k]))
    && (forall k :: k in seen <==> exists j :: 0 <= j < i && KeyOf(es[j]) == k)
  }

  lemma ScanStep(rule: NameRule, original: seq<Entry>, es: seq<Entry>, i: nat, seen: set<Key>)
    requires ScannedTo(rule, original, es, i, seen) && i < |es|
    requires Passes(rule, original[i].baseDomain, MAX_BASE_DOMAIN) && KeyOf(CanonicalEntry(original[i])) !in seen
    ensures ScannedTo(rule, original, es[i := CanonicalEntry(es[i])], i + 1, seen + {KeyOf(CanonicalEntry(es[i]))})
  {
    var e := CanonicalEntry(es[i]);
    var next := es[i := e];
    forall j, k | 0 <= j < k < i + 1 ensures KeyOf(next[j]) != KeyOf(next[k]) {
      assert KeyOf(es[j]) in seen;
    }
    forall k ensures k in seen + {KeyOf(e)} <==> exists j :: 0 <= j < i + 1 && KeyOf(next[j]) == k {
      if k in seen {
        var j :| 0 <= j < i && KeyOf(es[j]) == k;
        assert KeyOf(next[j]) == k;
      } else if k == KeyOf(e) {
        assert KeyOf(next[i]) == k;
      }
    }
  }

  /** The loop accepts exactly the lists whose entries are all fine and have
      different keys, and leaves them all in canonical form. */
  lemma {:induction false} ScanIff(rule: NameRule, original: seq<Entry>, es: seq<Entry>, i: nat, seen: set<Key>)
    requires Lawful(rule) && ScannedTo(rule, original, es, i, seen)
    ensures Scan(rule, es, i, seen).1.None? <==> AllPass(rule, original) && DistinctKeys(CanonicalEntries(original))
    ensures Scan(rule, es, i, seen).1.None? ==> Scan(rule, es, i, seen).0 == CanonicalEntries(original)
    decreases |es| - i
  {
    if i == |es| {
      ScanDone(rule, original, es, seen);
    } else {
      EntryErrorIff(rule, original[i]);
      if !Passes(rule, original[i].baseDomain, MAX_BASE_DOMAIN) {
        assert !AllPass(rule, original);
      } else if KeyOf(CanonicalEntry(original[i])) in seen {
        ScanRepeats(rule, original, es, i, seen);
      } else {
        ScanStep(rule, original, es, i, seen);
        ScanIff(rule, original, es[i := CanonicalEntry(es[i])], i + 1, seen + {KeyOf(CanonicalEntry(es[i]))});
      }
    }
  }

  lemma ScanDone(rule: NameRule, original: seq<Entry>, es: seq<Entry>, seen: set<Key>)
    requires ScannedTo(rule, original, es, |es|, seen)
    ensures AllPass(rule, original) && es == CanonicalEntries(original) && DistinctKeys(es)
  {
  }

  lemma ScanRepeats(rule: NameRule, original: seq<Entry>, es: seq<Entry>, i: nat, seen: set<Key>)
    requires ScannedTo(rule, original, es, i, seen) && i < |es| && KeyOf(CanonicalEntry(original[i])) in seen
    ensures !DistinctKeys(CanonicalEntries(original))
  {
    var c := CanonicalEntries(original);
    var j :| 0 <= j < i && KeyOf(es[j]) == KeyOf(c[i]);
    assert KeyOf(c[j]) == KeyOf(c[i]);
  }

  lemma EntryErrorIff(rule: NameRule, e: Entry)
    requires Lawful(rule)
    ensures EntryError(rule, e).None? <==> Passes(rule, e.baseDomain, MAX_BASE_DOMAIN)
    ensures EntryError(rule, e).None? ==> EntryAfter(rule, e) == CanonicalEntry(e)
  {
    assert LawAt(rule, e.baseDomain);
  }

  /** Validation accepts exactly the acceptable records and makes them canonical. */
  lemma ValidatedIff(rule: NameRule, r: Record)
    requires Lawful(rule)
    ensures Validated(rule, r).1.None? <==> AcceptableBy(rule, r)
    ensures AcceptableBy(rule, r) ==> Validated(rule, r).0 == Canonical(r)
  {
    assert LawAt(rule, r.userDomain);
    ScanIff(rule, r.entries, r.entries, 0, {});
  }

  /** Every entry is in canonical form and passes. */
  ghost predicate AllCanonical(rule: NameRule, es: seq<Entry>) {
    forall i :: 0 <= i < |es| ==> CanonicalEntry(es[i]) == es[i] && Passes(rule, es[i].baseDomain, MAX_BASE_DOMAIN)
  }

  lemma CanonicalEntryStays(rule: NameRule, e: Entry)
    requires Lawful(rule) && Passes(rule, e.baseDomain, MAX_BASE_DOMAIN)
    ensures CanonicalEntry(CanonicalEntry(e)) == CanonicalEntry(e)
    ensures Passes(rule, CanonicalEntry(e).baseDomain, MAX_BASE_DOMAIN)
  {
    assert LawAt(rule, e.baseDomain);
  }

  lemma SortedAreCanonical(rule: NameRule, es: seq<Entry>)
    requires Lawful(rule) && AllPass(rule, es)
    ensures AllCanonical(rule, Sort(CanonicalEntries(es), ByPriority))
  {
    var c := CanonicalEntries(es);
    var s := Sort(c, ByPriority);
    SortElements(c, ByPriority);
    forall i | 0 <= i < |s|
      ensures CanonicalEntry(s[i]) == s[i] && Passes(rule, s[i].baseDomain, MAX_BASE_DOMAIN)
    {
      assert s[i] in c;
      var j :| 0 <= j < |c| && c[j] == s[i];
      CanonicalEntryStays(rule, es[j]);
    }
  }

  /** The canonical form of an acceptable record is acceptable and its own
      canonical form. */
  lemma CanonicalStays(rule: NameRule, r: Record)
    requires Lawful(rule) && AcceptableBy(rule, r)
    ensures AcceptableBy(rule, Canonical(r)) && Canonical(Canonical(r)) == Canonical(r)
    ensures AllCanonical(rule, Canonical(r).entries)
  {
    var c := CanonicalEntries(r.entries);
    var s := Sort(c, ByPriority);
    SortSpec(c, ByPriority);
    SortedAreCanonical(rule, r.entries);
    assert LawAt(rule, r.userDomain);
    assert CanonicalEntries(s) == s;
    SortSorted(s, ByPriority);
    DistinctKeysInMultiset(c, s);
  }

  lemma DistinctKeysInMultiset(c: seq<Entry>, s: seq<Entry>)
    requires multiset(c) == multiset(s) && DistinctKeys(c)
    ensures DistinctKeys(s)
  {
    assert Distinct(c);
    DistinctInMultiset(c, s);
    forall i, j | 0 <= i < j < |s| ensures KeyOf(s[i]) != KeyOf(s[j]) {
      assert s[i] != s[j];
      assert s[i] in multiset(c) && s[j] in multiset(c);
      var a :| 0 <= a < |c| && c[a] == s[i];
      var b :| 0 <= b < |c| && c[b] == s[j];
      assert a < b || b < a;
    }
  }

  // ---- the byte format ----

  /** `u16::to_be_bytes`. */
  function U16Bytes(n: u16): (b: Bytes)
    ensures |b| == 2
  {
    [(n / 256) as char, (n % 256) as char]
  }

  /** `u16::from_be_bytes`. */
  function U16At(body: Bytes, at: nat): u16
    requires at + 1 < |body|
  {
    256 * (body[at] as int) + (body[at + 1] as int)
  }

  /** Both are big-endian. */
  lemma U16IsBigEndian(body: Bytes, at: nat)
    requires at + 1 < |body|
    ensures U16At(body, at) == FromBigEndian(body[at..at + 2]) && U16Bytes(U16At(body, at)) == body[at..at + 2]
  {
    var b := body[at..at + 2];
    assert b == [body[at], body[at + 1]] && b[..1][..0] == [];
    assert FromBigEndian(b[..1]) == body[at] as int;
  }

  function EntryBytes(e: Entry): (b: Bytes)
    requires |e.baseDomain| < U8_LIMIT
    ensures |b| == 35 + |e.baseDomain|
  {
    U16Bytes(e.priority) + [|e.baseDomain| as char] + e.baseDomain + e.operatorSpk
  }

  predicate Fits(es: seq<Entry>) {
    forall i :: 0 <= i < |es| ==> |es[i].baseDomain| < U8_LIMIT
  }

  function EntriesBytes(es: seq<Entry>): Bytes
    requires Fits(es)
  {
    if es == [] then [] else EntryBytes(es[0]) + EntriesBytes(es[1..])
  }

  function HeadBytes(r: Record): (b: Bytes)
    requires |r.userDomain| < U8_LIMIT
    ensures |b| == HEAD
  {
    MAGIC + BigEndian(r.seqNo, 8) + BigEndian(r.exp, 8) + r.signerSpk + [|r.userDomain| as char]
  }

  function BodyOf(r: Record): Bytes
    requires |r.userDomain| < U8_LIMIT && |r.entries| < U8_LIMIT && Fits(r.entries)
  {
    HeadBytes(r) + r.userDomain + [|r.entries| as char] + EntriesBytes(r.entries)
  }

  lemma PassFits(rule: NameRule, r: Record)
    requires AcceptableBy(rule, r)
    ensures |r.userDomain| < U8_LIMIT && Fits(r.entries)
  {
    forall i | 0 <= i < |r.entries| ensures |r.entries[i].baseDomain| < U8_LIMIT {
      assert Passes(rule, r.entries[i].baseDomain, MAX_BASE_DOMAIN);
    }
  }

  /** What serialising a record yields. */
  function PrintBy(rule: NameRule, r: Record): Result<Bytes, Error>
    requires Lawful(rule)
  {
    ValidatedIff(rule, r);
    if Validated(rule, r).1.Some? then Err(Validated(rule, r).1.value)
    else
      CanonicalStays(rule, r);
      PassFits(rule, Canonical(r));
      Ok(BodyOf(Canonical(r)))
  }

  function Byte0(b: Bytes, at: nat): nat
    requires at < |b|
  {
    b[at] as int
  }

  /** The length a name of `len` bytes at `off` has without its final dot. */
  function EffectiveLen(body: Bytes, off: nat, len: nat): nat
    requires off + len <= |body|
  {
    |Undot(body[off..off + len])|
  }

  function ParseEntry(rule: NameRule, body: Bytes, off: nat): (r: Result<(Entry, nat), Error>)
    ensures r.Ok? ==> off < r.value.1 <= |body|
  {
    if off + 3 > |body| then Err(MalformedBody)
    else
      var len := Byte0(body, off + 2);
      if off + 3 + len > |body| then Err(MalformedBody)
      else
        var name := body[off + 3..off + 3 + len];
        if EffectiveLen(body, off + 3, len) == 0
          || EffectiveLen(body, off + 3, len) > MAX_BASE_DOMAIN then Err(InvalidBaseDomain)
        else if !rule.utf8(name) then Err(InvalidBaseDomain)
        else if off + 3 + len + 32 > |body| then Err(MalformedBody)
        else if rule.problem(name).Some? then Err(FromNameError(rule.problem(name).value))
        else
          Ok((Entry(U16At(body, off), Undot(name), body[off + 3 + len..off + 35 + len]), off + 35 + len))
  }

  type EntryReader = nat -> Result<(Entry, nat), Error>

  function EntriesOf(rule: NameRule, body: Bytes): EntryReader {
    (off: nat) => ParseEntry(rule, body, off)
  }

  /** `n` more entries from `off` on, after those in `acc`. */
  function ParseEntries(entryAt: EntryReader, off: nat, n: nat, seen: set<Key>,
                        acc: seq<Entry>): (r: Result<(seq<Entry>, nat), Error>)
    decreases n
  {
    if n == 0 then Ok((acc, off))
    else match entryAt(off)
      case Err(e) => Err(e)
      case Ok((entry, next)) =>
        if KeyOf(entry) in seen then Err(DuplicateEntry(entry.priority, entry.baseDomain))
        else ParseEntries(entryAt, next, n - 1, seen + {KeyOf(entry)}, acc + [entry])
  }

  /** Everything before the entries, and how many entries are announced. */
  function ParseHead(rule: NameRule, body: Bytes): (r: Result<(Record, nat), Error>)
    ensures r.Ok? ==>
      && |body| > HEAD && HEAD + 1 + Byte0(body, HEAD - 1) <= |body|
      && 1 <= r.value.1 <= MAX_ENTRIES
  {
    if |body| < HEAD then Err(MalformedBody)
    else if body[..7] != MAGIC then Err(MalformedBody)
    else
      var len := Byte0(body, HEAD - 1);
      if HEAD + len > |body| then Err(MalformedBody)
      else
        var name := body[HEAD..HEAD + len];
        var effective := EffectiveLen(body, HEAD, len);
        if effective == 0 || effective > MAX_USER_DOMAIN then Err(UserDomainTooLong(effective))
        else if !rule.utf8(name) then Err(MalformedBody)
        else if rule.problem(name).Some? then Err(FromNameError(rule.problem(name).value))
        else if HEAD + len + 1 > |body| then Err(MalformedBody)
        else
          var count := Byte0(body, HEAD + len);
          if count == 0 || count > MAX_ENTRIES then Err(InvalidEntryCount)
          else
            Widths();
            BigEndianBytes(body[7..15]);
            BigEndianBytes(body[15..23]);
            Ok((Record(Undot(name), body[23..55], [], FromBigEndian(body[7..15]), FromBigEndian(body[15..23])), count))
  }

  function ParseBy(rule: NameRule, body: Bytes): Result<Record, Error> {
    match ParseHead(rule, body)
    case Err(e) => Err(e)
    case Ok((head, count)) =>
      match ParseEntries(EntriesOf(rule, body), HEAD + 1 + Byte0(body, HEAD - 1), count, {}, [])
      case Err(e) => Err(e)
      case Ok((entries, off)) =>
        if off != |body| then Err(MalformedBody)
        else Ok(head.(entries := Sort(entries, ByPriority)))
  }

  // ---- parsing what was printed ----

  /** The fields of `e` stand at `off`, each in its place. */
  ghost predicate EntryStandsAt(body: Bytes, off: nat, e: Entry)
    requires |e.baseDomain| < U8_LIMIT
  {
    var len := |e.baseDomain|;
    && off + 35 + len <= |body|
    && U16At(body, off) == e.priority
    && body[off + 2] as int == len
    && body[off + 3..off + 3 + len] == e.baseDomain
    && body[off + 3 + len..off + 35 + len] == e.operatorSpk
  }

  lemma EntryBytesStand(body: Bytes, off: nat, e: Entry)
    requires |e.baseDomain| < U8_LIMIT && off + 35 + |e.baseDomain| <= |body|
    ensures body[off..off + 35 + |e.baseDomain|] == EntryBytes(e) <==> EntryStandsAt(body, off, e)
  {
    var len := |e.baseDomain|;
    Pieces(body, off, U16Bytes(e.priority), [len as char], e.baseDomain, e.operatorSpk);
    assert body[off + 2..off + 3] == [body[off + 2]];
    assert body[off..off + 2] == [body[off], body[off + 1]];
  }

  lemma EntryAt(rule: NameRule, body: Bytes, off: nat, e: Entry)
    requires |e.baseDomain| < U8_LIMIT && EntryStandsAt(body, off, e)
    requires Lawful(rule) && Passes(rule, e.baseDomain, MAX_BASE_DOMAIN)
    ensures ParseEntry(rule, body, off) == Ok((CanonicalEntry(e), off + 35 + |e.baseDomain|))
  {
    assert LawAt(rule, e.baseDomain);
  }

  /** The entry a parsed one was written as, final dot and all. */
  lemma EntryWritten(rule: NameRule, body: Bytes, off: nat) returns (e: Entry)
    requires ParseEntry(rule, body, off).Ok?
    ensures Passes(rule, e.baseDomain, MAX_BASE_DOMAIN) && |e.baseDomain| < U8_LIMIT
    ensures ParseEntry(rule, body, off).value == (CanonicalEntry(e), off + 35 + |e.baseDomain|)
    ensures EntryStandsAt(body, off, e)
  {
    var len := Byte0(body, off + 2);
    e := Entry(U16At(body, off), body[off + 3..off + 3 + len], body[off + 3 + len..off + 35 + len]);
  }

  /** The entries stand one after the other between `off` and `end`. */
  ghost predicate Stand(body: Bytes, es: seq<Entry>, off: nat, end: nat)
    decreases |es|
  {
    if es == [] then off == end
    else
      && |es[0].baseDomain| < U8_LIMIT
      && EntryStandsAt(body, off, es[0])
      && Stand(body, es[1..], off + 35 + |es[0].baseDomain|, end)
  }

  lemma FirstEntryStands(body: Bytes, off: nat, end: nat, e: Entry, rest: Bytes)
    requires |e.baseDomain| < U8_LIMIT && off <= end <= |body| && body[off..end] == EntryBytes(e) + rest
    ensures EntryStandsAt(body, off, e) && off + 35 + |e.baseDomain| <= end
    ensures body[off + 35 + |e.baseDomain|..end] == rest
  {
    var size := 35 + |e.baseDomain|;
    assert body[off..off + size] == body[off..end][..size];
    assert body[off + size..end] == body[off..end][size..];
    EntryBytesStand(body, off, e);
  }

  lemma {:induction false} BytesStand(body: Bytes, es: seq<Entry>, off: nat, end: nat)
    requires Fits(es) && off <= end <= |body| && body[off..end] == EntriesBytes(es)
    ensures Stand(body, es, off, end)
    decreases |es|
  {
    if es != [] {
      var size := 35 + |es[0].baseDomain|;
      FirstEntryStands(body, off, end, es[0], EntriesBytes(es[1..]));
      BytesStand(body, es[1..], off + size, end);
    }
  }

  lemma FitsFirst(es: seq<Entry>)
    requires es != [] && |es[0].baseDomain| < U8_LIMIT && Fits(es[1..])
    ensures Fits(es)
  {
    assert es == [es[0]] + es[1..];
  }

  /** An entry and the bytes after it. */
  lemma FirstEntryBytes(body: Bytes, off: nat, end: nat, e: Entry, rest: Bytes)
    requires |e.baseDomain| < U8_LIMIT && EntryStandsAt(body, off, e)
    requires off + 35 + |e.baseDomain| <= end <= |body| && body[off + 35 + |e.baseDomain|..end] == rest
    ensures body[off..end] == EntryBytes(e) + rest
  {
    var next := off + 35 + |e.baseDomain|;
    EntryBytesStand(body, off, e);
    assert body[off..end] == body[off..next] + body[next..end];
  }

  lemma {:induction false} StandBytes(body: Bytes, es: seq<Entry>, off: nat, end: nat)
    requires end <= |body| && Stand(body, es, off, end)
    ensures Fits(es) && off <= end && body[off..end] == EntriesBytes(es)
    decreases |es|
  {
    if es != [] {
      StandBytes(body, es[1..], off + 35 + |es[0].baseDomain|, end);
      FitsFirst(es);
      FirstEntryBytes(body, off, end, es[0], EntriesBytes(es[1..]));
    }
  }

  /** `seen` holds the keys of the first `i` entries. */
  ghost predicate Seen(seen: set<Key>, c: seq<Entry>, i: nat)
    requires i <= |c|
  {
    forall k :: k in seen <==> exists j :: 0 <= j < i && KeyOf(c[j]) == k
  }

  lemma SeenStep(seen: set<Key>, c: seq<Entry>, i: nat)
    requires i < |c| && Seen(seen, c, i)
    ensures Seen(seen + {KeyOf(c[i])}, c, i + 1)
    ensures DistinctKeys(c) ==> KeyOf(c[i]) !in seen
  {
    forall k ensures k in seen + {KeyOf(c[i])} <==> exists j :: 0 <= j < i + 1 && KeyOf(c[j]) == k {
      if k in seen {
        var j :| 0 <= j < i && KeyOf(c[j]) == k;
        assert 0 <= j < i + 1 && KeyOf(c[j]) == k;
      }
    }
  }

  /** Reading from `off` finds the entries of `c` up to `end`. */
  ghost predicate Laid(entryAt: EntryReader, c: seq<Entry>, off: nat, end: nat)
    decreases |c|
  {
    if c == [] then off == end
    else entryAt(off).Ok? && entryAt(off).value.0 == c[0] && Laid(entryAt, c[1..], entryAt(off).value.1, end)
  }

  /** Laid-out entries with different keys are what the loop collects ... */
  lemma {:induction false} LaidIsParsed(entryAt: EntryReader, off: nat, end: nat, c: seq<Entry>, i: nat, seen: set<Key>)
    requires DistinctKeys(c) && i <= |c| && Seen(seen, c, i) && Laid(entryAt, c[i..], off, end)
    ensures ParseEntries(entryAt, off, |c| - i, seen, c[..i]) == Ok((c, end))
    decreases |c| - i
  {
    if i == |c| {
      assert c[..i] == c;
    } else {
      SeenStep(seen, c, i);
      assert c[..i] + [c[i]] == c[..i + 1];
      assert c[i..][1..] == c[i + 1..];
      LaidIsParsed(entryAt, entryAt(off).value.1, end, c, i + 1, seen + {KeyOf(c[i])});
    }
  }

  /** ... and what the loop collects was laid out and has different keys. */
  lemma {:induction false} ParsedIsLaid(entryAt: EntryReader, off: nat, n: nat, seen: set<Key>, acc: seq<Entry>)
    requires ParseEntries(entryAt, off, n, seen, acc).Ok?
    requires DistinctKeys(acc) && Seen(seen, acc, |acc|)
    ensures var (c, end) := ParseEntries(entryAt, off, n, seen, acc).value;
      acc <= c && |c| == |acc| + n && DistinctKeys(c) && Laid(entryAt, c[|acc|..], off, end)
    decreases n
  {
    if n > 0 {
      var (e, next) := entryAt(off).value;
      SeenGrows(seen, acc, e);
      ParsedIsLaid(entryAt, next, n - 1, seen + {KeyOf(e)}, acc + [e]);
      var c := ParseEntries(entryAt, off, n, seen, acc).value.0;
      assert c[|acc|..][1..] == c[|acc| + 1..];
    }
  }

  lemma SeenGrows(seen: set<Key>, acc: seq<Entry>, c: Entry)
    requires DistinctKeys(acc) && Seen(seen, acc, |acc|) && KeyOf(c) !in seen
    ensures DistinctKeys(acc + [c]) && Seen(seen + {KeyOf(c)}, acc + [c], |acc| + 1)
  {
    var all := acc + [c];
    assert forall j :: 0 <= j < |acc| ==> all[j] == acc[j];
    assert Seen(seen, all, |acc|) by {
      forall k ensures k in seen <==> exists j :: 0 <= j < |acc| && KeyOf(all[j]) == k {
        if k in seen {
          var j :| 0 <= j < |acc| && KeyOf(acc[j]) == k;
          assert KeyOf(all[j]) == k;
        }
      }
    }
    SeenStep(seen, all, |acc|);
  }

  lemma CanonicalFirst(e: Entry, rest: seq<Entry>)
    ensures CanonicalEntries([e] + rest) == [CanonicalEntry(e)] + CanonicalEntries(rest)
  {
  }

  lemma AllPassRest(rule: NameRule, es: seq<Entry>)
    requires es != [] && AllPass(rule, es)
    ensures Passes(rule, es[0].baseDomain, MAX_BASE_DOMAIN) && AllPass(rule, es[1..])
  {
  }

  lemma LaidFirst(entryAt: EntryReader, e: Entry, rest: seq<Entry>, off: nat, next: nat, end: nat)
    requires entryAt(off) == Ok((e, next)) && Laid(entryAt, rest, next, end)
    ensures Laid(entryAt, [e] + rest, off, end)
  {
    assert ([e] + rest)[1..] == rest;
  }

  /** Standing entries are read in canonical form. */
  lemma {:induction false} StandIsLaid(rule: NameRule, body: Bytes, es: seq<Entry>, off: nat, end: nat)
    requires Lawful(rule) && AllPass(rule, es) && Stand(body, es, off, end)
    ensures Laid(EntriesOf(rule, body), CanonicalEntries(es), off, end)
    decreases |es|
  {
    if es != [] {
      var next := off + 35 + |es[0].baseDomain|;
      AllPassRest(rule, es);
      EntryAt(rule, body, off, es[0]);
      StandIsLaid(rule, body, es[1..], next, end);
      LaidFirst(EntriesOf(rule, body), CanonicalEntry(es[0]), CanonicalEntries(es[1..]), off, next, end);
      CanonicalFirst(es[0], es[1..]);
      assert es == [es[0]] + es[1..];
    }
  }

  lemma StandFirst(body: Bytes, e: Entry, rest: seq<Entry>, off: nat, end: nat)
    requires |e.baseDomain| < U8_LIMIT && EntryStandsAt(body, off, e)
    requires Stand(body, rest, off + 35 + |e.baseDomain|, end)
    ensures Stand(body, [e] + rest, off, end)
  {
    assert ([e] + rest)[1..] == rest;
  }

  lemma PassFirst(rule: NameRule, e: Entry, rest: seq<Entry>)
    requires Passes(rule, e.baseDomain, MAX_BASE_DOMAIN) && AllPass(rule, rest)
    ensures AllPass(rule, [e] + rest)
  {
  }

  /** `e` is how the entry that was read at `off` had been written, perhaps with a
      final dot. */
  ghost predicate WrittenAs(rule: NameRule, body: Bytes, off: nat, read: (Entry, nat), e: Entry) {
    && Passes(rule, e.baseDomain, MAX_BASE_DOMAIN) && |e.baseDomain| < U8_LIMIT
    && EntryStandsAt(body, off, e)
    && read == (CanonicalEntry(e), off + 35 + |e.baseDomain|)
  }

  /** Whatever is read had been written. */
  ghost predicate ReadsWritten(entryAt: EntryReader, rule: NameRule, body: Bytes) {
    forall off :: entryAt(off).Ok? ==> exists e :: WrittenAs(rule, body, off, entryAt(off).value, e)
  }

  lemma ParserReadsWritten(rule: NameRule, body: Bytes)
    ensures ReadsWritten(EntriesOf(rule, body), rule, body)
  {
    forall off: nat | ParseEntry(rule, body, off).Ok?
      ensures exists e :: WrittenAs(rule, body, off, ParseEntry(rule, body, off).value, e)
    {
      var e := EntryWritten(rule, body, off);
      assert WrittenAs(rule, body, off, ParseEntry(rule, body, off).value, e);
    }
  }

  /** A list that was read had been standing there. */
  lemma {:induction false} LaidWasStanding(entryAt: EntryReader, rule: NameRule, body: Bytes, c: seq<Entry>, off: nat,
                                           end: nat)
    returns (es: seq<Entry>)
    requires ReadsWritten(entryAt, rule, body) && Laid(entryAt, c, off, end)
    ensures AllPass(rule, es) && Stand(body, es, off, end) && CanonicalEntries(es) == c
    decreases |c|
  {
    if c == [] {
      es := [];
    } else {
      var e :| WrittenAs(rule, body, off, entryAt(off).value, e);
      var rest := LaidWasStanding(entryAt, rule, body, c[1..], entryAt(off).value.1, end);
      es := [e] + rest;
      FirstWasStanding(rule, body, e, rest, off, end, entryAt(off).value);
      assert c == [c[0]] + c[1..];
    }
  }

  lemma FirstWasStanding(rule: NameRule, body: Bytes, e: Entry, rest: seq<Entry>, off: nat, end: nat,
                         read: (Entry, nat))
    requires WrittenAs(rule, body, off, read, e) && AllPass(rule, rest) && Stand(body, rest, read.1, end)
    ensures AllPass(rule, [e] + rest) && Stand(body, [e] + rest, off, end)
    ensures CanonicalEntries([e] + rest) == [read.0] + CanonicalEntries(rest)
  {
    StandFirst(body, e, rest, off, end);
    PassFirst(rule, e, rest);
    CanonicalFirst(e, rest);
  }

  lemma HeadAt(rule: NameRule, body: Bytes, r: Record)
    requires Lawful(rule) && Passes(rule, r.userDomain, MAX_USER_DOMAIN) && |r.userDomain| < U8_LIMIT
    requires 1 <= |r.entries| <= MAX_ENTRIES
    requires |body| >= HEAD + |r.userDomain| + 1
    requires body[..HEAD] == HeadBytes(r) && body[HEAD..HEAD + |r.userDomain|] == r.userDomain
    requires body[HEAD + |r.userDomain|] as int == |r.entries|
    ensures ParseHead(rule, body) == Ok((r.(userDomain := Undot(r.userDomain), entries := []), |r.entries|))
    ensures Byte0(body, HEAD - 1) == |r.userDomain|
  {
    var h := HeadBytes(r);
    assert LawAt(rule, r.userDomain);
    assert body[..7] == h[..7] == MAGIC;
    assert body[7..15] == h[7..15] == BigEndian(r.seqNo, 8);
    assert body[15..23] == h[15..23] == BigEndian(r.exp, 8);
    assert body[23..55] == h[23..55] == r.signerSpk;
    assert body[55] == h[55];
    Widths();
    BigEndianRoundTrip(r.seqNo, 8);
    BigEndianRoundTrip(r.exp, 8);
  }

  /** Parsing the bytes of an acceptable record, canonical or not, gives its
      canonical form. */
  lemma BodyLayout(r: Record)
    requires |r.userDomain| < U8_LIMIT && |r.entries| < U8_LIMIT && Fits(r.entries)
    ensures var body, at := BodyOf(r), HEAD + |r.userDomain|;
      && |body| > at
      && body[..HEAD] == HeadBytes(r) && body[HEAD..at] == r.userDomain
      && Byte0(body, at) == |r.entries| && body[at + 1..|body|] == EntriesBytes(r.entries)
  {
    var body, at := BodyOf(r), HEAD + |r.userDomain|;
    Pieces(body, 0, HeadBytes(r), r.userDomain, [|r.entries| as char], EntriesBytes(r.entries));
    assert body[0..|body|] == body && body[0..HEAD] == body[..HEAD];
    assert body[at] == body[at..at + 1][0];
  }

  lemma BodyParses(rule: NameRule, r: Record)
    requires Lawful(rule) && AcceptableBy(rule, r)
    ensures |r.userDomain| < U8_LIMIT && Fits(r.entries)
    ensures ParseBy(rule, BodyOf(r)) == Ok(Canonical(r))
  {
    PassFits(rule, r);
    var body := BodyOf(r);
    var at := HEAD + |r.userDomain|;
    BodyLayout(r);
    HeadAt(rule, body, r);
    BytesStand(body, r.entries, at + 1, |body|);
    StandIsLaid(rule, body, r.entries, at + 1, |body|);
    var c := CanonicalEntries(r.entries);
    assert c[0..] == c && c[..0] == [];
    LaidIsParsed(EntriesOf(rule, body), at + 1, |body|, c, 0, {});
  }

  // ---- printing what was parsed ----

  lemma HeadPieces(body: Bytes)
    requires |body| >= HEAD
    ensures body[..HEAD] == body[..7] + body[7..15] + body[15..23] + body[23..55] + [body[55]]
  {
  }

  lemma HeadWritten(rule: NameRule, body: Bytes)
    requires ParseHead(rule, body).Ok?
    ensures var (head, count) := ParseHead(rule, body).value;
            var name := body[HEAD..HEAD + Byte0(body, HEAD - 1)];
      && head.userDomain == Undot(name) && head.entries == []
      && Passes(rule, name, MAX_USER_DOMAIN) && |name| < U8_LIMIT
      && body[..HEAD] == HeadBytes(head.(userDomain := name))
      && Byte0(body, HEAD + |name|) == count
  {
    var len := Byte0(body, HEAD - 1);
    var name := body[HEAD..HEAD + len];
    Widths();
    BigEndianBytes(body[7..15]);
    BigEndianBytes(body[15..23]);
    HeadPieces(body);
  }

  lemma BodyPieces(body: Bytes, r: Record)
    requires |r.userDomain| < U8_LIMIT && |r.entries| < U8_LIMIT && Fits(r.entries)
    requires |body| > HEAD + |r.userDomain|
    requires body[..HEAD] == HeadBytes(r) && body[HEAD..HEAD + |r.userDomain|] == r.userDomain
    requires Byte0(body, HEAD + |r.userDomain|) == |r.entries|
    requires body[HEAD + |r.userDomain| + 1..|body|] == EntriesBytes(r.entries)
    ensures BodyOf(r) == body
  {
    var at := HEAD + |r.userDomain|;
    assert body == body[..HEAD] + body[HEAD..at] + [body[at]] + body[at + 1..|body|];
  }

  /** The entries that a parsed list was written as. */
  lemma ListWritten(rule: NameRule, body: Bytes, off: nat, n: nat) returns (es: seq<Entry>)
    requires off <= |body| && ParseEntries(EntriesOf(rule, body), off, n, {}, []).Ok?
    requires ParseEntries(EntriesOf(rule, body), off, n, {}, []).value.1 == |body|
    ensures |es| == n && AllPass(rule, es) && Fits(es) && body[off..|body|] == EntriesBytes(es)
    ensures CanonicalEntries(es) == ParseEntries(EntriesOf(rule, body), off, n, {}, []).value.0
    ensures DistinctKeys(CanonicalEntries(es))
  {
    var c := ParseEntries(EntriesOf(rule, body), off, n, {}, []).value.0;
    ParsedIsLaid(EntriesOf(rule, body), off, n, {}, []);
    assert c[0..] == c;
    ParserReadsWritten(rule, body);
    es := LaidWasStanding(EntriesOf(rule, body), rule, body, c, off, |body|);
    StandBytes(body, es, off, |body|);
  }

  /** Every body the parser accepts is what some acceptable record is written as,
      and the parser returns that record's canonical form. */
  lemma BodyWritten(rule: NameRule, body: Bytes) returns (raw: Record)
    requires ParseBy(rule, body).Ok?
    ensures AcceptableBy(rule, raw) && |raw.userDomain| < U8_LIMIT && Fits(raw.entries)
    ensures BodyOf(raw) == body && ParseBy(rule, body) == Ok(Canonical(raw))
  {
    var (head, count) := ParseHead(rule, body).value;
    HeadWritten(rule, body);
    var at := HEAD + Byte0(body, HEAD - 1);
    var es := ListWritten(rule, body, at + 1, count);
    raw := head.(userDomain := body[HEAD..at], entries := es);
    assert HeadBytes(raw) == HeadBytes(head.(userDomain := body[HEAD..at]));
    BodyPieces(body, raw);
  }

  // ---- the codec ----

  const RULE := NameRule(NameErrorOf, IsUtf8)

  lemma RuleLawful()
    ensures Lawful(RULE)
  {
    forall name ensures LawAt(RULE, name) {
      NameErrorIff(name);
      NameErrorIff(Undot(name));
      if IsName(Undot(name)) {
        UndotTwice(name);
        NameIsText(name);
      }
    }
  }

  lemma NameIsText(name: Bytes)
    requires IsName(Undot(name))
    ensures IsUtf8(name) && Undot(name) != ""
  {
    NameHasNoDotAtTheEnd(Undot(name));
    assert IsAscii(name) by {
      assert name == Undot(name) || name == Undot(name) + ['.'];
      assert forall c :: c in name ==> c in Undot(name) || c == '.';
    }
    AsciiIsUtf8(name);
  }

  function Print(r: Record): Result<Bytes, Error> {
    RuleLawful();
    PrintBy(RULE, r)
  }

  function Parse(body: Bytes): Result<Record, Error> {
    ParseBy(RULE, body)
  }

  predicate EntryOk(e: Entry) {
    IsName(Undot(e.baseDomain)) && |Undot(e.baseDomain)| <= 64
  }

  /** Names that are names with or without a final dot, one to sixteen entries,
      and no two of them the same but for the case of the name. */
  predicate Acceptable(r: Record) {
    && IsName(Undot(r.userDomain)) && |Undot(r.userDomain)| <= 64
    && 1 <= |r.entries| <= 16
    && (forall i :: 0 <= i < |r.entries| ==> EntryOk(r.entries[i]))
    && (forall i, j :: 0 <= i < j < |r.entries| ==> !Clash(r.entries[i], r.entries[j]))
  }

  /** The same priority, and the same name but for case and one final dot. */
  predicate Clash(e: Entry, f: Entry) {
    e.priority == f.priority && SameUpToCase(Undot(e.baseDomain), Undot(f.baseDomain))
  }

  lemma ClashIff(es: seq<Entry>)
    ensures DistinctKeys(CanonicalEntries(es)) <==> forall i, j :: 0 <= i < j < |es| ==> !Clash(es[i], es[j])
  {
    var c := CanonicalEntries(es);
    forall i, j | 0 <= i < j < |es| ensures KeyOf(c[i]) == KeyOf(c[j]) <==> Clash(es[i], es[j]) {
      LowerAsciiIff(Undot(es[i].baseDomain), Undot(es[j].baseDomain));
    }
  }

  lemma AcceptableIff(r: Record)
    ensures AcceptableBy(RULE, r) <==> Acceptable(r)
  {
    NameErrorIff(r.userDomain);
    ClashIff(r.entries);
    forall i | 0 <= i < |r.entries|
      ensures Passes(RULE, r.entries[i].baseDomain, MAX_BASE_DOMAIN) <==> EntryOk(r.entries[i])
    {
      NameErrorIff(r.entries[i].baseDomain);
    }
  }

  lemma EntryErrorBy(rule: NameRule, e: Entry)
    requires Lawful(rule)
    ensures EntryError(rule, e) == Some(InvalidBaseDomain) <==>
      e.baseDomain == "" || (rule.problem(e.baseDomain).None? && |Undot(e.baseDomain)| > 64)
    ensures e.baseDomain != "" && rule.problem(e.baseDomain).Some? ==>
      EntryError(rule, e) == Some(FromNameError(rule.problem(e.baseDomain).value))
  {
    assert LawAt(rule, e.baseDomain);
  }

  /** What is wrong with an entry. */
  lemma EntryErrorKind(e: Entry)
    ensures EntryError(RULE, e) == Some(InvalidBaseDomain) <==>
      e.baseDomain == "" || (IsName(Undot(e.baseDomain)) && |Undot(e.baseDomain)| > 64)
    ensures e.baseDomain != "" && RULE.problem(e.baseDomain).Some? ==>
      EntryError(RULE, e) == Some(match NameErrorOf(e.baseDomain).value
                                  case EmptyName => UserDomainEmpty
                                  case EmptyLabel => NameWithEmptyLabel
                                  case InvalidLabel => NameWithInvalidLabel)
  {
    RuleLawful();
    EntryErrorBy(RULE, e);
    NameErrorIff(e.baseDomain);
  }

  /** Serialising and parsing back: accepted records are exactly the acceptable
      ones, and what comes back is the canonical form. */
  lemma PrintThenParse(r: Record)
    ensures Print(r).Ok? <==> Acceptable(r)
    ensures Print(r).Ok? ==> Parse(Print(r).value) == Ok(Canonical(r))
  {
    AcceptableIff(r);
    RuleLawful();
    PrintThenParseBy(RULE, r);
  }

  lemma PrintThenParseBy(rule: NameRule, r: Record)
    requires Lawful(rule)
    ensures PrintBy(rule, r).Ok? <==> AcceptableBy(rule, r)
    ensures PrintBy(rule, r).Ok? ==> ParseBy(rule, PrintBy(rule, r).value) == Ok(Canonical(r))
  {
    ValidatedIff(rule, r);
    if AcceptableBy(rule, r) {
      CanonicalStays(rule, r);
      BodyParses(rule, Canonical(r));
    }
  }

  /** Any accepted body yields a record that is already canonical, that
      serialises, and whose serialisation parses to the same record. */
  lemma ParseThenPrint(body: Bytes)
    requires Parse(body).Ok?
    ensures var r := Parse(body).value;
      && Acceptable(r) && Canonical(r) == r
      && Print(r).Ok? && Parse(Print(r).value) == Ok(r)
  {
    RuleLawful();
    var raw := BodyWritten(RULE, body);
    CanonicalStays(RULE, raw);
    AcceptableIff(Canonical(raw));
    PrintThenParse(Canonical(raw));
  }

  /** The bodies that mean the record `r` are exactly the ways to write a record
      whose canonical form is `r`. */
  lemma ParseIff(body: Bytes, r: Record)
    ensures Parse(body) == Ok(r) <==> exists raw :: Acceptable(raw) && Writes(raw, body) && Canonical(raw) == r
  {
    RuleLawful();
    if Parse(body) == Ok(r) {
      var raw := BodyWritten(RULE, body);
      AcceptableIff(raw);
      WritesIff(raw, body);
    }
    if raw :| Acceptable(raw) && Writes(raw, body) && Canonical(raw) == r {
      AcceptableIff(raw);
      WritesIff(raw, body);
      BodyParses(RULE, raw);
    }
  }

  /** The body spells the record out: the magic, sequence number and expiry as eight bytes
      each, the signer's key, the user domain behind its length, the number of
      entries, and the entries one after the other up to the end. */
  ghost predicate Writes(raw: Record, body: Bytes) {
    var at := 56 + |raw.userDomain|;
    && |raw.userDomain| < U8_LIMIT && |raw.entries| < U8_LIMIT && |body| > at
    && body[..7] == "DMPBS01"
    && FromBigEndian(body[7..15]) == raw.seqNo && FromBigEndian(body[15..23]) == raw.exp
    && body[23..55] == raw.signerSpk
    && body[55] as int == |raw.userDomain| && body[56..at] == raw.userDomain
    && body[at] as int == |raw.entries|
    && Stand(body, raw.entries, at + 1, |body|)
  }

  lemma HeadIff(r: Record, head: Bytes)
    requires |r.userDomain| < U8_LIMIT && |head| == HEAD
    ensures head == HeadBytes(r) <==>
      && head[..7] == MAGIC && FromBigEndian(head[7..15]) == r.seqNo && FromBigEndian(head[15..23]) == r.exp
      && head[23..55] == r.signerSpk && head[55] as int == |r.userDomain|
  {
    HeadPieces(head);
    Widths();
    BigEndianRoundTrip(r.seqNo, 8);
    BigEndianRoundTrip(r.exp, 8);
    BigEndianBytes(head[7..15]);
    BigEndianBytes(head[15..23]);
    assert head[..HEAD] == head;
    var h := HeadBytes(r);
    assert h[..7] == MAGIC && h[7..15] == BigEndian(r.seqNo, 8) && h[15..23] == BigEndian(r.exp, 8);
    assert h[23..55] == r.signerSpk && h[55] as int == |r.userDomain|;
  }

  lemma HeadInBody(r: Record, body: Bytes)
    requires |r.userDomain| < U8_LIMIT && |body| > HEAD
    ensures body[..HEAD] == HeadBytes(r) <==>
      && body[..7] == MAGIC && FromBigEndian(body[7..15]) == r.seqNo && FromBigEndian(body[15..23]) == r.exp
      && body[23..55] == r.signerSpk && body[55] as int == |r.userDomain|
  {
    var head := body[..HEAD];
    assert head[..7] == body[..7] && head[7..15] == body[7..15] && head[15..23] == body[15..23];
    assert head[23..55] == body[23..55] && head[55] == body[55];
    HeadIff(r, head);
  }

  /** A record is written as exactly one body. */
  lemma WritesIff(r: Record, body: Bytes)
    ensures Writes(r, body) <==>
      |r.userDomain| < U8_LIMIT && |r.entries| < U8_LIMIT && Fits(r.entries) && BodyOf(r) == body
  {
    var at := HEAD + |r.userDomain|;
    if |r.userDomain| < U8_LIMIT && |r.entries| < U8_LIMIT && |body| > at {
      HeadInBody(r, body);
      if Writes(r, body) {
        StandBytes(body, r.entries, at + 1, |body|);
        BodyPieces(body, r);
      }
    }
    if |r.userDomain| < U8_LIMIT && |r.entries| < U8_LIMIT && Fits(r.entries) && BodyOf(r) == body {
      BodyLayout(r);
      BytesStand(body, r.entries, at + 1, |body|);
    }
  }

  function BestEntry(r: Record): Entry
    requires r.entries != []
  {
    r.entries[0]
  }

  /** `es[i]` has the least priority value, and is the first to have it. */
  ghost predicate IsBest(es: seq<Entry>, i: nat)
    requires i < |es|
  {
    forall j :: 0 <= j < |es| ==>
      es[i].priority <= es[j].priority && (j < i ==> es[j].priority != es[i].priority)
  }

  /** The best entry of a canonical record is the first inserted of those with the
      least priority value. */
  lemma BestIsLeast(r: Record)
    requires r.entries != []
    ensures Canonical(r).entries != []
    ensures exists i :: 0 <= i < |r.entries| && IsBest(r.entries, i)
                        && BestEntry(Canonical(r)) == CanonicalEntry(r.entries[i])
  {
    var c := CanonicalEntries(r.entries);
    SortSpec(c, ByPriority);
    var s := Canonical(r).entries;
    var k := ByPriority(s[0]);
    assert WithKey(s, ByPriority, k)[0] == s[0];
    var i := FirstWithKey(c, k);
    forall j | 0 <= j < |r.entries|
      ensures r.entries[i].priority <= r.entries[j].priority
      ensures j < i ==> r.entries[j].priority != r.entries[i].priority
    {
      assert c[j] in multiset(s);
      var m :| 0 <= m < |s| && s[m] == c[j];
      assert ByPriority(s[0]) <= ByPriority(s[m]);
    }
    assert IsBest(r.entries, i);
  }

  lemma {:induction false} FirstWithKey(es: seq<Entry>, k: int) returns (i: nat)
    requires WithKey(es, ByPriority, k) != []
    ensures i < |es| && es[i] == WithKey(es, ByPriority, k)[0] && ByPriority(es[i]) == k
    ensures forall j :: 0 <= j < i ==> ByPriority(es[j]) != k
  {
    if ByPriority(es[0]) == k {
      i := 0;
    } else {
      i := FirstWithKey(es[1..], k);
      i := i + 1;
    }
  }

  // ---- the record as the program holds it ----

  method ValidateEntry(rule: NameRule, entry: Entry) returns (after: Entry, error: Option<Error>)
    ensures after == EntryAfter(rule, entry) && error == EntryError(rule, entry)
  {
    after := entry;
    if after.baseDomain == "" {
      return after, Some(InvalidBaseDomain);
    }
    var problem := rule.problem(after.baseDomain);
    if problem.Some? {
      return after, Some(FromNameError(problem.value));
    }
    if Last(after.baseDomain) == '.' {
      after := after.(baseDomain := after.baseDomain[..|after.baseDomain| - 1]);
    }
    if after.baseDomain == "" || |after.baseDomain| > MAX_BASE_DOMAIN {
      return after, Some(InvalidBaseDomain);
    }
    error := None;
  }

  method EntryToBodyBytes(rule: NameRule, entry: Entry) returns (after: Entry, r: Result<Bytes, Error>)
    ensures after == EntryAfter(rule, entry)
    ensures EntryError(rule, entry).Some? ==> r == Err(EntryError(rule, entry).value)
    ensures EntryError(rule, entry).None? ==> |after.baseDomain| < U8_LIMIT && r == Ok(EntryBytes(after))
  {
    var error;
    after, error := ValidateEntry(rule, entry);
    if error.Some? {
      return after, Err(error.value);
    }
    r := Ok(U16Bytes(after.priority) + [|after.baseDomain| as char] + after.baseDomain + after.operatorSpk);
  }

  /** A canonical entry goes through validation untouched. */
  lemma CanonicalEntryPasses(rule: NameRule, es: seq<Entry>, i: nat)
    requires Lawful(rule) && AllCanonical(rule, es) && i < |es|
    ensures EntryError(rule, es[i]).None? && EntryAfter(rule, es[i]) == es[i]
  {
    assert LawAt(rule, es[i].baseDomain);
  }

  /** The entries' bytes, one entry at a time. */
  lemma EntriesBytesStep(es: seq<Entry>, i: nat)
    requires Fits(es) && i < |es|
    ensures EntriesBytes(es[i..]) == EntryBytes(es[i]) + EntriesBytes(es[i + 1..])
  {
    assert es[i..][0] == es[i] && es[i..][1..] == es[i + 1..];
  }

  class BootstrapRecord {
    const rule: NameRule
    var userDomain: Bytes
    const signerSpk: Key32
    var entries: seq<Entry>
    const seqNo: u64
    const exp: u64

    ghost function Value(): Record
      reads this
    {
      Record(userDomain, signerSpk, entries, seqNo, exp)
    }

    constructor (r: Record)
      ensures Value() == r && rule == RULE
    {
      rule := RULE;
      userDomain := r.userDomain;
      signerSpk := r.signerSpk;
      entries := r.entries;
      seqNo := r.seqNo;
      exp := r.exp;
    }

    /** Checks every field, popping final dots and sorting the entries on the way. */
    method Validate() returns (error: Option<Error>)
      modifies this
      ensures (Value(), error) == Validated(rule, old(Value()))
    {
      if userDomain == "" {
        return Some(UserDomainEmpty);
      }
      if EndsWithTwoDots(userDomain) {
        return Some(NameWithEmptyLabel);
      }
      if Last(userDomain) == '.' {
        userDomain := userDomain[..|userDomain| - 1];
      }
      if userDomain == "" {
        return Some(UserDomainEmpty);
      }
      if |userDomain| > MAX_USER_DOMAIN {
        return Some(UserDomainTooLong(|userDomain|));
      }
      var problem := rule.problem(userDomain);
      if problem.Some? {
        return Some(FromNameError(problem.value));
      }
      if entries == [] || |entries| > MAX_ENTRIES {
        return Some(InvalidEntryCount);
      }
      error := ValidateEntries();
      if error.None? {
        entries := Sort(entries, ByPriority);
      }
    }

    method ValidateEntries() returns (error: Option<Error>)
      modifies this`entries
      ensures (entries, error) == Scan(rule, old(entries), 0, {})
    {
      var seen: set<Key> := {};
      var i := 0;
      while i < |entries|
        invariant i <= |entries|
        invariant Scan(rule, entries, i, seen) == Scan(rule, old(entries), 0, {})
      {
        var after, problem := ValidateEntry(rule, entries[i]);
        entries := entries[i := after];
        if problem.Some? {
          return problem;
        }
        var key := KeyOf(after);
        if key in seen {
          return Some(DuplicateEntry(after.priority, after.baseDomain));
        }
        seen := seen + {key};
        i := i + 1;
      }
      error := None;
    }

    method ToBodyBytes() returns (r: Result<Bytes, Error>)
      requires Lawful(rule)
      modifies this
      ensures Value() == Validated(rule, old(Value())).0
      ensures r == PrintBy(rule, old(Value()))
    {
      ValidatedIff(rule, Value());
      if AcceptableBy(rule, Value()) {
        CanonicalStays(rule, Value());
        PassFits(rule, Canonical(Value()));
      }
      var error := Validate();
      if error.Some? {
        return Err(error.value);
      }
      var out: Bytes := MAGIC + BigEndian(seqNo, 8) + BigEndian(exp, 8) + signerSpk + [|userDomain| as char];
      assert out == HeadBytes(Value());
      out := out + userDomain + [|entries| as char];
      var rest := EntriesToBodyBytes();
      r := Ok(out + rest);
    }

    method EntriesToBodyBytes() returns (out: Bytes)
      requires Lawful(rule) && AllCanonical(rule, entries) && Fits(entries)
      modifies this`entries
      ensures entries == old(entries) && out == EntriesBytes(entries)
    {
      out := [];
      var i := 0;
      assert entries[0..] == entries;
      while i < |entries|
        invariant i <= |entries| && entries == old(entries)
        invariant out + EntriesBytes(entries[i..]) == EntriesBytes(entries)
      {
        CanonicalEntryPasses(rule, entries, i);
        EntriesBytesStep(entries, i);
        var after, bytes := EntryToBodyBytes(rule, entries[i]);
        entries := entries[i := after];
        out := out + bytes.value;
        i := i + 1;
      }
    }
  }

  method ReadEntries(entryAt: EntryReader, start: nat, count: nat) returns (r: Result<(seq<Entry>, nat), Error>)
    ensures r == ParseEntries(entryAt, start, count, {}, [])
  {
    var off := start;
    var entries: seq<Entry> := [];
    var seen: set<Key> := {};
    for i := 0 to count
      invariant ParseEntries(entryAt, off, count - i, seen, entries) == ParseEntries(entryAt, start, count, {}, [])
    {
      var next := entryAt(off);
      if next.Err? {
        return Err(next.error);
      }
      var entry := next.value.0;
      off := next.value.1;
      if KeyOf(entry) in seen {
        return Err(DuplicateEntry(entry.priority, entry.baseDomain));
      }
      seen := seen + {KeyOf(entry)};
      entries := entries + [entry];
    }
    r := Ok((entries, off));
  }

  /** Reads a body front to back. */
  method FromBodyBytes(rule: NameRule, body: Bytes) returns (r: Result<Record, Error>)
    ensures r == ParseBy(rule, body)
  {
    var head := ParseHead(rule, body);
    if head.Err? {
      return Err(head.error);
    }
    var (record, count) := head.value;
    var read := ReadEntries(EntriesOf(rule, body), HEAD + 1 + Byte0(body, HEAD - 1), count);
    if read.Err? {
      return Err(read.error);
    }
    var (entries, off) := read.value;
    if off != |body| {
      return Err(MalformedBody);
    }
    r := Ok(record.(entries := Sort(entries, ByPriority)));
  }

  // ---- signing ----

  const RECORD_PREFIX := "v=dmp1;t=bootstrap;"
  const MAX_WIRE := 1200

  /** One signing key with its public key, signature checking and base64. */
  datatype Signing = Signing(
    spk: Key32,
    sign: Bytes -> Bytes,
    verify: (Bytes, Bytes, Bytes) -> bool,
    b64: Bytes -> string,
    unb64: string -> Option<Bytes>)
  {
    ghost predicate Laws() {
      && (forall m :: |sign(m)| == SIG_LEN && verify(m, sign(m), spk))
      && (forall b :: unb64(b64(b)) == Some(b))
    }
  }

  function Sign(c: Signing, r: Record): Result<string, Error> {
    if c.spk != r.signerSpk then Err(SigningKeyMismatch)
    else match Print(r)
      case Err(e) => Err(e)
      case Ok(body) =>
        var wire := RECORD_PREFIX + c.b64(body + c.sign(body));
        if |wire| > MAX_WIRE then Err(WireTooLong(|wire|)) else Ok(wire)
  }

  function Folded(name: Bytes): string {
    LowerAscii(Undot(name))
  }

  function ParseAndVerify(c: Signing, wire: string, pinned: Option<Bytes>, expected: Option<Bytes>,
                          now: u64): Option<Record>
  {
    if !(RECORD_PREFIX <= wire) || |wire| > MAX_WIRE then None
    else match c.unb64(wire[|RECORD_PREFIX|..])
      case None => None
      case Some(blob) =>
        if |blob| < SIG_LEN + |MAGIC| then None
        else
          var body, signature := blob[..|blob| - SIG_LEN], blob[|blob| - SIG_LEN..];
          if pinned.Some? && (|pinned.value| != 32 || !c.verify(body, signature, pinned.value)) then None
          else match Parse(body)
            case Err(_) => None
            case Ok(record) =>
              if (if pinned.Some? then record.signerSpk != pinned.value
                  else !c.verify(body, signature, record.signerSpk)) then None
              else if record.exp < now then None
              else if expected.Some? && Folded(record.userDomain) != Folded(expected.value) then None
              else Some(record)
  }

  /** The TXT string carries the body and the signature. */
  ghost predicate CarriesSigned(c: Signing, wire: string, body: Bytes, signature: Bytes) {
    && "v=dmp1;t=bootstrap;" <= wire && |wire| <= 1200
    && |signature| == 64
    && c.unb64(wire[19..]) == Some(body + signature)
  }

  /** The record satisfies the caller: signed by the pinned key, if one is pinned, not
      expired, and for the expected domain, if one is expected. */
  ghost predicate Satisfies(r: Record, pinned: Option<Bytes>, expected: Option<Bytes>, now: u64) {
    && (pinned.Some? ==> pinned.value == r.signerSpk)
    && now <= r.exp
    && (expected.Some? ==> SameUpToCase(Undot(r.userDomain), Undot(expected.value)))
  }

  lemma BlobSplits(body: Bytes, signature: Bytes)
    requires |signature| == 64
    ensures var blob := body + signature; blob[..|blob| - 64] == body && blob[|blob| - 64..] == signature
  {
  }

  lemma ParsedIsLong(body: Bytes)
    requires Parse(body).Ok?
    ensures |body| > HEAD
  {
  }

  /** The judgement on a string that carries a body and a signature. */
  lemma CarriedIff(c: Signing, wire: string, body: Bytes, signature: Bytes, pinned: Option<Bytes>,
                   expected: Option<Bytes>, now: u64, r: Record)
    requires CarriesSigned(c, wire, body, signature)
    ensures ParseAndVerify(c, wire, pinned, expected, now) == Some(r) <==>
      Parse(body) == Ok(r) && c.verify(body, signature, r.signerSpk) && Satisfies(r, pinned, expected, now)
  {
    BlobSplits(body, signature);
    if Parse(body) == Ok(r) {
      ParsedIsLong(body);
    }
    if expected.Some? {
      LowerAsciiIff(Undot(r.userDomain), Undot(expected.value));
    }
  }

  lemma AcceptedIsCarried(c: Signing, wire: string, pinned: Option<Bytes>, expected: Option<Bytes>, now: u64)
    returns (body: Bytes, signature: Bytes)
    requires ParseAndVerify(c, wire, pinned, expected, now).Some?
    ensures CarriesSigned(c, wire, body, signature)
  {
    var blob := c.unb64(wire[|RECORD_PREFIX|..]).value;
    body, signature := blob[..|blob| - SIG_LEN], blob[|blob| - SIG_LEN..];
    assert blob == body + signature;
  }

  /** For every string: what is accepted is exactly the record of a body that carries a
      valid signature by that record's own signer, for a caller it satisfies. */
  lemma VerifiedIff(c: Signing, wire: string, pinned: Option<Bytes>, expected: Option<Bytes>, now: u64, r: Record)
    ensures ParseAndVerify(c, wire, pinned, expected, now) == Some(r) <==>
      exists body, signature ::
        && CarriesSigned(c, wire, body, signature)
        && Parse(body) == Ok(r) && c.verify(body, signature, r.signerSpk)
        && Satisfies(r, pinned, expected, now)
  {
    if ParseAndVerify(c, wire, pinned, expected, now) == Some(r) {
      var body, signature := AcceptedIsCarried(c, wire, pinned, expected, now);
      CarriedIff(c, wire, body, signature, pinned, expected, now, r);
    }
    forall body, signature | CarriesSigned(c, wire, body, signature) && Parse(body) == Ok(r)
                             && c.verify(body, signature, r.signerSpk) && Satisfies(r, pinned, expected, now)
      ensures ParseAndVerify(c, wire, pinned, expected, now) == Some(r)
    {
      CarriedIff(c, wire, body, signature, pinned, expected, now, r);
    }
  }

  /** A signed record is accepted, in canonical form, exactly by the callers that it
      satisfies. */
  lemma SignedRecordVerifies(c: Signing, r: Record, pinned: Option<Bytes>, expected: Option<Bytes>, now: u64)
    requires c.Laws() && Sign(c, r).Ok?
    ensures ParseAndVerify(c, Sign(c, r).value, pinned, expected, now)
         == if Satisfies(Canonical(r), pinned, expected, now) then Some(Canonical(r)) else None
  {
    var wire := Sign(c, r).value;
    var body := Print(r).value;
    SignedCarries(c, r);
    PrintThenParse(r);
    CarriedIff(c, wire, body, c.sign(body), pinned, expected, now, Canonical(r));
    var accepted := ParseAndVerify(c, wire, pinned, expected, now);
    if accepted.Some? {
      CarriedIff(c, wire, body, c.sign(body), pinned, expected, now, accepted.value);
    }
  }

  lemma SignedCarries(c: Signing, r: Record)
    requires c.Laws() && Sign(c, r).Ok?
    ensures Print(r).Ok? && CarriesSigned(c, Sign(c, r).value, Print(r).value, c.sign(Print(r).value))
  {
    var blob := Print(r).value + c.sign(Print(r).value);
    assert (RECORD_PREFIX + c.b64(blob))[|RECORD_PREFIX|..] == c.b64(blob);
  }
}
