/**
 Client-side rotation chain walking: fetch the rotation RRsets of a contact,
 verify and sort the records into rotations and revocations, walk the chain.
 Signature checking is a parameter; the loops are the program's.
 */
module RotationChain {
  import opened Prelude
  import opened Text
  import opened DnsReader
  import opened RotationGraph
  import StableSort

  const ROTATION_PREFIX := "v=dmp1;t=rotation;"
  const REVOCATION_PREFIX := "v=dmp1;t=revocation;"
  const SUBJECT_TYPE_USER_IDENTITY := 1

  datatype RotationRecord = RotationRecord(
    subjectType: nat, oldSpk: Key32, newSpk: Key32, seqNo: u64, ts: u64, exp: u64)

  datatype RevocationRecord = RevocationRecord(subjectType: nat, revokedSpk: Key32, ts: u64)

  datatype Contact = Contact(username: string, x25519: Key32, spk: Key32, domain: string)

  /** The library calls: record verification against a subject at this moment,
      and the 16-hex-digit hash of a user name. */
  datatype Verifier = Verifier(
    rotation: (string, string) -> Option<RotationRecord>,
    revocation: (string, string) -> Option<RevocationRecord>,
    nameHash: string -> string)

  function DeriveRrsetNames(v: Verifier, subject: string, subjectType: nat): (names: seq<string>)
  {
    if subjectType != SUBJECT_TYPE_USER_IDENTITY then []
    else
      var at := Find(subject, '@');
      if at.None? then []
      else
        var user, host := Trim(subject[..at.value]), Trim(subject[at.value + 1..]);
        if user == [] || host == [] then []
        else
          var zoneForm := "rotate.dmp." + TrimEndDots(host);
          var hashForm := "rotate.id-" + v.nameHash(user) + "." + TrimEndDots(host);
          if hashForm == zoneForm then [zoneForm] else [zoneForm, hashForm]
  }

  /** `subject` is cut at its first '@'. */
  ghost predicate Halves(subject: string, user: string, host: string) {
    subject == user + "@" + host && '@' !in user
  }

  /** A subject of the form user@host has its records at two names: one shared by the
      zone, one of its own. No other subject has any. */
  ghost predicate IsNameOf(v: Verifier, subject: string, subjectType: nat, name: string) {
    subjectType == SUBJECT_TYPE_USER_IDENTITY && exists user, host ::
      && Halves(subject, user, host) && Trim(user) != "" && Trim(host) != ""
      && (|| name == "rotate.dmp." + TrimEndDots(Trim(host))
          || name == "rotate.id-" + v.nameHash(Trim(user)) + "." + TrimEndDots(Trim(host)))
  }

  lemma NamesIff(v: Verifier, subject: string, subjectType: nat, name: string)
    ensures name in DeriveRrsetNames(v, subject, subjectType) <==> IsNameOf(v, subject, subjectType, name)
  {
    var at := Find(subject, '@');
    if at.Some? {
      var user, host := subject[..at.value], subject[at.value + 1..];
      assert subject == user + [subject[at.value]] + host;
      assert Halves(subject, user, host);
    }
    forall user, host | Halves(subject, user, host)
      ensures at == Some(|user|) && subject[..|user|] == user && subject[|user| + 1..] == host
    {
      assert subject == user + ['@'] + host;
      FindFirst(user, '@', host);
    }
  }

  /** DNS serves the TXT string at one of the subject's names. */
  ghost predicate Serves(reader: Reader, v: Verifier, subject: string, subjectType: nat, txt: string) {
    exists name :: IsNameOf(v, subject, subjectType, name) && reader(name).Records? && txt in reader(name).txts
  }

  /** One of the subject's names cannot be read. */
  ghost predicate Blind(reader: Reader, v: Verifier, subject: string, subjectType: nat) {
    exists name :: IsNameOf(v, subject, subjectType, name) && reader(name).Failed?
  }

  /** The rotation is published for the subject, and verifies. */
  ghost predicate Rotates(reader: Reader, v: Verifier, subject: string, subjectType: nat, rot: RotationRecord) {
    rot.subjectType == subjectType && exists txt ::
      && Serves(reader, v, subject, subjectType, txt) && "v=dmp1;t=rotation;" <= txt
      && v.rotation(txt, subject) == Some(rot)
  }

  /** A revocation of the key is published for the subject, and verifies. */
  ghost predicate Revokes(reader: Reader, v: Verifier, subject: string, subjectType: nat, spk: Key32) {
    exists txt, rev ::
      && Serves(reader, v, subject, subjectType, txt) && "v=dmp1;t=revocation;" <= txt
      && v.revocation(txt, subject) == Some(rev) && rev.subjectType == subjectType && rev.revokedSpk == spk
  }

  /** Every TXT string at any of the names. */
  function FetchedSet(reader: Reader, names: seq<string>): set<string> {
    set name, txt | name in names && txt in TxtsAt(reader, name) :: txt
  }

  function RotationOf(v: Verifier, txt: string, subject: string, subjectType: nat): Option<RotationRecord> {
    if ROTATION_PREFIX <= txt && v.rotation(txt, subject).Some?
       && v.rotation(txt, subject).value.subjectType == subjectType
    then v.rotation(txt, subject) else None
  }

  function RevocationOf(v: Verifier, txt: string, subject: string, subjectType: nat): Option<RevocationRecord> {
    if !(ROTATION_PREFIX <= txt) && REVOCATION_PREFIX <= txt && v.revocation(txt, subject).Some?
       && v.revocation(txt, subject).value.subjectType == subjectType
    then v.revocation(txt, subject) else None
  }

  function EdgeOf(r: RotationRecord): Edge {
    Edge(r.oldSpk, r.newSpk, r.seqNo)
  }

  function EdgesOf(rotations: seq<RotationRecord>): set<Edge> {
    set r | r in rotations :: EdgeOf(r)
  }

  function RevokedOf(revocations: seq<RevocationRecord>): set<Key32> {
    set r | r in revocations :: r.revokedSpk
  }

  /** The graph that a set of TXT strings amounts to for one subject. */
  function GraphOf(v: Verifier, txts: set<string>, subject: string, subjectType: nat): Graph {
    Graph(set txt | txt in txts && RotationOf(v, txt, subject, subjectType).Some?
                  :: EdgeOf(RotationOf(v, txt, subject, subjectType).value),
          set txt | txt in txts && RevocationOf(v, txt, subject, subjectType).Some?
                  :: RevocationOf(v, txt, subject, subjectType).value.revokedSpk)
  }

  lemma FetchedIff(reader: Reader, v: Verifier, subject: string, subjectType: nat, txt: string)
    ensures txt in FetchedSet(reader, DeriveRrsetNames(v, subject, subjectType))
       <==> Serves(reader, v, subject, subjectType, txt)
  {
    var names := DeriveRrsetNames(v, subject, subjectType);
    if txt in FetchedSet(reader, names) {
      var name :| name in names && txt in TxtsAt(reader, name);
      NamesIff(v, subject, subjectType, name);
    }
    if name :| IsNameOf(v, subject, subjectType, name) && reader(name).Records? && txt in reader(name).txts {
      NamesIff(v, subject, subjectType, name);
      assert name in names && txt in TxtsAt(reader, name);
    }
  }

  lemma BlindIff(reader: Reader, v: Verifier, subject: string, subjectType: nat)
    ensures Blind(reader, v, subject, subjectType)
       <==> exists name :: name in DeriveRrsetNames(v, subject, subjectType) && reader(name).Failed?
  {
    forall name
      ensures name in DeriveRrsetNames(v, subject, subjectType) <==> IsNameOf(v, subject, subjectType, name)
    {
      NamesIff(v, subject, subjectType, name);
    }
  }

  lemma PrefixesDiffer(txt: string)
    ensures !(ROTATION_PREFIX <= txt && REVOCATION_PREFIX <= txt)
  {
    assert ROTATION_PREFIX[10] != REVOCATION_PREFIX[10];
  }

  /** The published graph. */
  function PublishedGraph(reader: Reader, v: Verifier, subject: string, subjectType: nat): Graph {
    GraphOf(v, FetchedSet(reader, DeriveRrsetNames(v, subject, subjectType)), subject, subjectType)
  }

  /** Its edges are the rotations published for the subject, and it marks the keys of
      which a revocation is published. */
  lemma GraphIsPublished(reader: Reader, v: Verifier, subject: string, subjectType: nat)
    ensures forall e ::
      e in PublishedGraph(reader, v, subject, subjectType).edges <==>
        exists rot :: Rotates(reader, v, subject, subjectType, rot) && e == Edge(rot.oldSpk, rot.newSpk, rot.seqNo)
    ensures forall spk ::
      spk in PublishedGraph(reader, v, subject, subjectType).revoked <==> Revokes(reader, v, subject, subjectType, spk)
  {
    var g := PublishedGraph(reader, v, subject, subjectType);
    forall e ensures e in g.edges <==>
      exists rot :: Rotates(reader, v, subject, subjectType, rot) && e == Edge(rot.oldSpk, rot.newSpk, rot.seqNo)
    {
      EdgeIsPublished(reader, v, subject, subjectType, e);
    }
    forall spk ensures spk in g.revoked <==> Revokes(reader, v, subject, subjectType, spk) {
      RevokedIsPublished(reader, v, subject, subjectType, spk);
    }
  }

  lemma EdgeIsPublished(reader: Reader, v: Verifier, subject: string, subjectType: nat, e: Edge)
    ensures e in PublishedGraph(reader, v, subject, subjectType).edges
       <==> exists rot :: Rotates(reader, v, subject, subjectType, rot) && e == Edge(rot.oldSpk, rot.newSpk, rot.seqNo)
  {
    var txts := FetchedSet(reader, DeriveRrsetNames(v, subject, subjectType));
    if e in PublishedGraph(reader, v, subject, subjectType).edges {
      var txt :| txt in txts && RotationOf(v, txt, subject, subjectType).Some?
              && EdgeOf(RotationOf(v, txt, subject, subjectType).value) == e;
      FetchedIff(reader, v, subject, subjectType, txt);
      assert Rotates(reader, v, subject, subjectType, RotationOf(v, txt, subject, subjectType).value);
    }
    if rot :| Rotates(reader, v, subject, subjectType, rot) && e == EdgeOf(rot) {
      var txt :| Serves(reader, v, subject, subjectType, txt) && ROTATION_PREFIX <= txt
              && v.rotation(txt, subject) == Some(rot);
      FetchedIff(reader, v, subject, subjectType, txt);
      assert txt in txts && RotationOf(v, txt, subject, subjectType) == Some(rot);
    }
  }

  lemma RevokedIsPublished(reader: Reader, v: Verifier, subject: string, subjectType: nat, spk: Key32)
    ensures spk in PublishedGraph(reader, v, subject, subjectType).revoked
       <==> Revokes(reader, v, subject, subjectType, spk)
  {
    var txts := FetchedSet(reader, DeriveRrsetNames(v, subject, subjectType));
    if spk in PublishedGraph(reader, v, subject, subjectType).revoked {
      var txt :| txt in txts && RevocationOf(v, txt, subject, subjectType).Some?
              && RevocationOf(v, txt, subject, subjectType).value.revokedSpk == spk;
      FetchedIff(reader, v, subject, subjectType, txt);
      var rev := RevocationOf(v, txt, subject, subjectType).value;
      assert v.revocation(txt, subject) == Some(rev) && rev.subjectType == subjectType;
    }
    if Revokes(reader, v, subject, subjectType, spk) {
      var txt, rev :|
        Serves(reader, v, subject, subjectType, txt) && REVOCATION_PREFIX <= txt
          && v.revocation(txt, subject) == Some(rev) && rev.subjectType == subjectType && rev.revokedSpk == spk;
      FetchedIff(reader, v, subject, subjectType, txt);
      PrefixesDiffer(txt);
      assert txt in txts && RevocationOf(v, txt, subject, subjectType) == Some(rev);
    }
  }

  /** Fail-open fetch: a name that cannot be read contributes nothing. */
  method FetchRecords(reader: Reader, names: seq<string>) returns (out: seq<string>)
    ensures Elements(out) == FetchedSet(reader, names)
    ensures forall i, j :: 0 <= i < j < |out| ==> out[i] != out[j]
  {
    var seen: set<string> := {};
    out := [];
    for n := 0 to |names|
      invariant seen == Elements(out) == FetchedSet(reader, names[..n])
      invariant forall i, j :: 0 <= i < j < |out| ==> out[i] != out[j]
    {
      var answer := reader(names[n]);
      ghost var before := FetchedSet(reader, names[..n]);
      assert names[..n + 1] == names[..n] + [names[n]];
      assert FetchedSet(reader, names[..n + 1]) == before + Elements(TxtsAt(reader, names[n]));
      if answer.Records? {
        out, seen := AddUnseen(answer.txts, out, seen);
      }
    }
    assert names[..|names|] == names;
  }

  /** Append the records that have not been seen yet. */
  method AddUnseen(records: seq<string>, known: seq<string>, seenBefore: set<string>)
    returns (out: seq<string>, seen: set<string>)
    requires seenBefore == Elements(known) && forall i, j :: 0 <= i < j < |known| ==> known[i] != known[j]
    ensures seen == Elements(out) == Elements(known) + Elements(records)
    ensures forall i, j :: 0 <= i < j < |out| ==> out[i] != out[j]
  {
    out, seen := known, seenBefore;
    for t := 0 to |records|
      invariant seen == Elements(out) == Elements(known) + Elements(records[..t])
      invariant forall i, j :: 0 <= i < j < |out| ==> out[i] != out[j]
    {
      assert Elements(records[..t + 1]) == Elements(records[..t]) + {records[t]};
      if records[t] !in seen {
        seen := seen + {records[t]};
        out := out + [records[t]];
      }
    }
    assert records[..|records|] == records;
  }

  /** Fail-closed fetch: one name that cannot be read fails the whole fetch. */
  method FetchRecordsStrict(reader: Reader, names: seq<string>) returns (r: Option<seq<string>>)
    ensures r.None? <==> exists name :: name in names && reader(name).Failed?
    ensures r.Some? ==> Elements(r.value) == FetchedSet(reader, names)
  {
    var seen: set<string> := {};
    var out: seq<string> := [];
    for n := 0 to |names|
      invariant seen == Elements(out) == FetchedSet(reader, names[..n])
      invariant forall i, j :: 0 <= i < j < |out| ==> out[i] != out[j]
      invariant forall m :: 0 <= m < n ==> !reader(names[m]).Failed?
    {
      var answer := reader(names[n]);
      ghost var before := FetchedSet(reader, names[..n]);
      assert names[..n + 1] == names[..n] + [names[n]];
      assert FetchedSet(reader, names[..n + 1]) == before + Elements(TxtsAt(reader, names[n]));
      if answer.Failed? {
        return None;
      }
      if answer.Records? {
        out, seen := AddUnseen(answer.txts, out, seen);
      }
    }
    assert names[..|names|] == names;
    return Some(out);
  }

  /** The rotations of the subject among the records, in order. */
  function RotationsIn(v: Verifier, records: seq<string>, subject: string, subjectType: nat): seq<RotationRecord> {
    if records == [] then []
    else
      var rot := RotationOf(v, Last(records), subject, subjectType);
      RotationsIn(v, records[..|records| - 1], subject, subjectType) + if rot.Some? then [rot.value] else []
  }

  /** The revocations of the subject among the records, in order. */
  function RevocationsIn(v: Verifier, records: seq<string>, subject: string, subjectType: nat): seq<RevocationRecord> {
    if records == [] then []
    else
      var rev := RevocationOf(v, Last(records), subject, subjectType);
      RevocationsIn(v, records[..|records| - 1], subject, subjectType) + if rev.Some? then [rev.value] else []
  }

  /** Verify each record and sort it by kind; anything else is ignored. */
  method Partition(v: Verifier, records: seq<string>, subject: string, subjectType: nat)
    returns (rotations: seq<RotationRecord>, revocations: seq<RevocationRecord>)
    ensures rotations == RotationsIn(v, records, subject, subjectType)
    ensures revocations == RevocationsIn(v, records, subject, subjectType)
    ensures EdgesOf(rotations) == GraphOf(v, Elements(records), subject, subjectType).edges
    ensures RevokedOf(revocations) == GraphOf(v, Elements(records), subject, subjectType).revoked
  {
    rotations, revocations := [], [];
    for i := 0 to |records|
      invariant rotations == RotationsIn(v, records[..i], subject, subjectType)
      invariant revocations == RevocationsIn(v, records[..i], subject, subjectType)
    {
      var txt := records[i];
      assert records[..i + 1][..i] == records[..i];
      if ROTATION_PREFIX <= txt {
        var rot := v.rotation(txt, subject);
        if rot.Some? && rot.value.subjectType == subjectType {
          rotations := rotations + [rot.value];
        }
      } else if REVOCATION_PREFIX <= txt {
        var rev := v.revocation(txt, subject);
        if rev.Some? && rev.value.subjectType == subjectType {
          revocations := revocations + [rev.value];
        }
      }
    }
    assert records[..|records|] == records;
    PartitionIsGraph(v, records, subject, subjectType);
  }

  /** The two lists amount to the graph of the set of records. */
  lemma {:induction false} PartitionIsGraph(v: Verifier, records: seq<string>, subject: string, subjectType: nat)
    ensures EdgesOf(RotationsIn(v, records, subject, subjectType))
      == GraphOf(v, Elements(records), subject, subjectType).edges
    ensures RevokedOf(RevocationsIn(v, records, subject, subjectType))
      == GraphOf(v, Elements(records), subject, subjectType).revoked
  {
    if records != [] {
      var init, txt := records[..|records| - 1], Last(records);
      PartitionIsGraph(v, init, subject, subjectType);
      assert records == init + [txt];
      assert Elements(records) == Elements(init) + {txt};
      GraphGrows(v, Elements(init), txt, subject, subjectType);
      RotationsGrow(RotationsIn(v, init, subject, subjectType), RotationOf(v, txt, subject, subjectType));
      RevocationsGrow(RevocationsIn(v, init, subject, subjectType), RevocationOf(v, txt, subject, subjectType));
    }
  }

  lemma GraphGrows(v: Verifier, txts: set<string>, txt: string, subject: string, subjectType: nat)
    ensures var g, g' := GraphOf(v, txts, subject, subjectType), GraphOf(v, txts + {txt}, subject, subjectType);
            var rot, rev := RotationOf(v, txt, subject, subjectType), RevocationOf(v, txt, subject, subjectType);
      && g'.edges == g.edges + (if rot.Some? then {EdgeOf(rot.value)} else {})
      && g'.revoked == g.revoked + (if rev.Some? then {rev.value.revokedSpk} else {})
  {
  }

  lemma RotationsGrow(rots: seq<RotationRecord>, rot: Option<RotationRecord>)
    ensures EdgesOf(rots + if rot.Some? then [rot.value] else [])
         == EdgesOf(rots) + if rot.Some? then {EdgeOf(rot.value)} else {}
  {
  }

  lemma RevocationsGrow(revs: seq<RevocationRecord>, rev: Option<RevocationRecord>)
    ensures RevokedOf(revs + if rev.Some? then [rev.value] else [])
         == RevokedOf(revs) + if rev.Some? then {rev.value.revokedSpk} else {}
  {
  }

  type ByOld = map<Key32, seq<RotationRecord>>

  ghost predicate Indexes(byOld: ByOld, rotations: seq<RotationRecord>) {
    && (forall r :: r in rotations ==> r.oldSpk in byOld && r in byOld[r.oldSpk])
    && (forall k :: k in byOld ==> byOld[k] != [])
    && (forall k, r :: k in byOld && r in byOld[k] ==> r in rotations && r.oldSpk == k)
  }

  method IndexByOld(rotations: seq<RotationRecord>) returns (byOld: ByOld)
    ensures Indexes(byOld, rotations)
  {
    byOld := map[];
    for i := 0 to |rotations|
      invariant Indexes(byOld, rotations[..i])
    {
      var rot := rotations[i];
      var bucket := if rot.oldSpk in byOld then byOld[rot.oldSpk] else [];
      byOld := byOld[rot.oldSpk := bucket + [rot]];
      assert rotations[..i + 1] == rotations[..i] + [rot];
    }
    assert rotations[..|rotations|] == rotations;
  }

  /** What one index lookup says about the graph. */
  lemma BucketMeaning(byOld: ByOld, rotations: seq<RotationRecord>, g: Graph, head: Key32)
    requires Indexes(byOld, rotations) && g.edges == EdgesOf(rotations)
    ensures head !in byOld <==> Successors(g, head) == {}
    ensures head in byOld ==> Successors(g, head) == set r | r in byOld[head] :: r.newSpk
    ensures head in byOld ==> Seqs(g, head) == set r | r in byOld[head] :: r.seqNo
  {
    forall e | e in g.edges && e.oldSpk == head
      ensures head in byOld && exists r :: r in byOld[head] && EdgeOf(r) == e
    {
      var r :| r in rotations && EdgeOf(r) == e;
      assert r in byOld[head];
    }
    if head in byOld {
      forall r | r in byOld[head] ensures EdgeOf(r) in g.edges {
        assert r in rotations;
      }
      assert byOld[head][0] in byOld[head];
      assert EdgeOf(byOld[head][0]).newSpk in Successors(g, head);
    }
  }

  lemma AtMostOne<T>(s: set<T>, x: T)
    requires x in s
    ensures |s| <= 1 <==> s == {x}
  {
    if |s| <= 1 {
      assert |s - {x}| == 0;
      forall y | y in s ensures y == x {
        assert y == x || y in s - {x};
      }
    }
  }

  /** Choose among the rotations away from one key: none if they disagree on the
      new key, else the one with the lowest sequence number. */
  method PickCandidate(candidates: seq<RotationRecord>, ghost g: Graph, ghost head: Key32)
    returns (rot: Option<RotationRecord>)
    requires candidates != []
    requires Successors(g, head) == set r | r in candidates :: r.newSpk
    requires Seqs(g, head) == set r | r in candidates :: r.seqNo
    ensures rot.None? ==> forall next :: !OnlySuccessor(g, head, next)
    ensures rot.Some? ==> OnlySuccessor(g, head, rot.value.newSpk) && LeastSeq(g, head) == rot.value.seqNo
  {
    var distinctNew := set i | 0 <= i < |candidates| :: candidates[i].newSpk;
    assert distinctNew == Successors(g, head);
    if |distinctNew| > 1 {
      assert forall next :: OnlySuccessor(g, head, next) ==> distinctNew == {next} && |distinctNew| == 1;
      return None;
    }
    var sorted := StableSort.Sort(candidates, (c: RotationRecord) => c.seqNo);
    FirstIsLeast(candidates, sorted[0], g, head);
    AtMostOne(distinctNew, sorted[0].newSpk);
    return Some(sorted[0]);
  }

  /** The rotations away from one key: none, or the candidate among them. */
  method NextRotation(byOld: ByOld, rotations: seq<RotationRecord>, head: Key32, ghost g: Graph)
    returns (any: bool, rot: Option<RotationRecord>)
    requires Indexes(byOld, rotations) && g.edges == EdgesOf(rotations)
    ensures any <==> Successors(g, head) != {}
    ensures any && rot.None? ==> forall next :: !OnlySuccessor(g, head, next)
    ensures any && rot.Some? ==> OnlySuccessor(g, head, rot.value.newSpk) && LeastSeq(g, head) == rot.value.seqNo
  {
    BucketMeaning(byOld, rotations, g, head);
    if head !in byOld {
      return false, None;
    }
    any := true;
    rot := PickCandidate(byOld[head], g, head);
  }

  /** The walk at a key with one successor, spelt out. */
  lemma WalkAt(g: Graph, head: Key32, visited: set<Key32>, lastSeq: Option<u64>, hop: nat, next: Key32)
    requires hop < MAX_ROTATION_HOPS && OnlySuccessor(g, head, next)
    ensures next in Successors(g, head)
    ensures Walk(g, true, head, visited, lastSeq, hop) ==
            var m := LeastSeq(g, head);
            if lastSeq.Some? && m <= lastSeq.value then None
            else if next in g.revoked || next in visited then None
            else Walk(g, true, next, visited + {next}, Some(m), hop + 1)
  {
    assert next in Successors(g, head);
    forall other | OnlySuccessor(g, head, other) ensures other == next {
      assert next in {other};
    }
  }

  /** The walk at a key it does not go on from, spelt out. */
  lemma WalkStops(g: Graph, head: Key32, visited: set<Key32>, lastSeq: Option<u64>, hop: nat)
    requires hop <= MAX_ROTATION_HOPS
    requires Successors(g, head) == {} || hop == MAX_ROTATION_HOPS || forall next :: !OnlySuccessor(g, head, next)
    ensures Walk(g, true, head, visited, lastSeq, hop)
         == if Successors(g, head) == {} && hop > 0 then Some(head) else None
  {
  }

  /** The hop loop. */
  method WalkRecords(rotations: seq<RotationRecord>, revocations: seq<RevocationRecord>, pinned: Key32)
    returns (r: Option<Key32>)
    ensures r == Resolve(Graph(EdgesOf(rotations), RevokedOf(revocations)), pinned)
  {
    ghost var g := Graph(EdgesOf(rotations), RevokedOf(revocations));
    var revokedSpks := set i | 0 <= i < |revocations| :: revocations[i].revokedSpk;
    assert revokedSpks == g.revoked;
    if pinned in revokedSpks {
      return None;
    }
    var byOld := IndexByOld(rotations);
    r := WalkIndexed(byOld, rotations, revokedSpks, pinned, g);
  }

  method WalkIndexed(byOld: ByOld, rotations: seq<RotationRecord>, revokedSpks: set<Key32>, pinned: Key32,
                     ghost g: Graph)
    returns (r: Option<Key32>)
    requires Indexes(byOld, rotations) && g.edges == EdgesOf(rotations) && revokedSpks == g.revoked
    ensures r == Walk(g, true, pinned, {pinned}, None, 0)
  {
    var head := pinned;
    var visited := {head};
    var lastSeq: Option<u64> := None;
    for hop := 0 to MAX_ROTATION_HOPS
      invariant Walk(g, true, pinned, {pinned}, None, 0) == Walk(g, true, head, visited, lastSeq, hop)
    {
      var any, rot := NextRotation(byOld, rotations, head, g);
      if !any {
        WalkStops(g, head, visited, lastSeq, hop);
        return if hop == 0 then None else Some(head);
      }
      if rot.None? {
        WalkStops(g, head, visited, lastSeq, hop);
        return None;
      }
      WalkAt(g, head, visited, lastSeq, hop, rot.value.newSpk);
      if lastSeq.Some? && rot.value.seqNo <= lastSeq.value {
        return None;
      }
      lastSeq := Some(rot.value.seqNo);
      var nextSpk := rot.value.newSpk;
      if nextSpk in revokedSpks {
        return None;
      }
      if nextSpk in visited {
        return None;
      }
      visited := visited + {nextSpk};
      head := nextSpk;
    }
    BucketMeaning(byOld, rotations, g, head);
    WalkStops(g, head, visited, lastSeq, MAX_ROTATION_HOPS);
    return if head in byOld then None else Some(head);
  }

  lemma FirstIsLeast(candidates: seq<RotationRecord>, rot: RotationRecord, g: Graph, head: Key32)
    requires candidates != []
    requires rot == StableSort.Sort(candidates, (c: RotationRecord) => c.seqNo)[0]
    requires Successors(g, head) == set r | r in candidates :: r.newSpk
    requires Seqs(g, head) == set r | r in candidates :: r.seqNo
    ensures rot in candidates && rot.newSpk in Successors(g, head)
    ensures LeastSeq(g, head) == rot.seqNo
  {
    var key := (c: RotationRecord) => c.seqNo;
    var sorted := StableSort.Sort(candidates, key);
    StableSort.SortElements(candidates, key);
    StableSort.SortSpec(candidates, key);
    assert rot in sorted;
    assert rot.newSpk in Successors(g, head);
    forall r | r in candidates ensures rot.seqNo <= r.seqNo {
      assert r in sorted;
      var i :| 0 <= i < |sorted| && sorted[i] == r;
      assert i > 0 ==> key(sorted[0]) <= key(sorted[i]);
    }
    assert rot.seqNo in Seqs(g, head);
    var m := LeastSeq(g, head);
    var r :| r in candidates && r.seqNo == m;
  }

  /** The key the subject's published records lead to from the pinned key. */
  ghost function CurrentSpk(reader: Reader, v: Verifier, pinned: Key32, subject: string,
                            subjectType: nat): Option<Key32>
  {
    Resolve(PublishedGraph(reader, v, subject, subjectType), pinned)
  }

  method ResolveCurrentSpk(reader: Reader, v: Verifier, pinned: Key32, subject: string, subjectType: nat)
    returns (r: Option<Key32>)
    ensures r == CurrentSpk(reader, v, pinned, subject, subjectType)
  {
    var names := DeriveRrsetNames(v, subject, subjectType);
    if names == [] {
      assert Successors(GraphOf(v, FetchedSet(reader, names), subject, subjectType), pinned) == {};
      return None;
    }
    var records := FetchRecords(reader, names);
    if records == [] {
      assert Elements(records) == {};
      assert Successors(GraphOf(v, FetchedSet(reader, names), subject, subjectType), pinned) == {};
      return None;
    }
    var rotations, revocations := Partition(v, records, subject, subjectType);
    r := WalkRecords(rotations, revocations, pinned);
  }

  ghost predicate Carried(reader: Reader, names: seq<string>, txt: string) {
    exists name :: name in names && txt in TxtsAt(reader, name)
  }

  /** Two views of DNS on which the subject's names carry the same TXT strings,
      in whatever order, multiplicity and split over the two names, resolve to
      the same key. */
  lemma ResolveIgnoresArrangement(reader: Reader, reader': Reader, v: Verifier, pinned: Key32, subject: string,
                                  subjectType: nat)
    requires forall txt :: Carried(reader, DeriveRrsetNames(v, subject, subjectType), txt)
                      <==> Carried(reader', DeriveRrsetNames(v, subject, subjectType), txt)
    ensures CurrentSpk(reader, v, pinned, subject, subjectType) == CurrentSpk(reader', v, pinned, subject, subjectType)
  {
    var names := DeriveRrsetNames(v, subject, subjectType);
    forall txt ensures txt in FetchedSet(reader, names) <==> txt in FetchedSet(reader', names) {
      assert txt in FetchedSet(reader, names) <==> Carried(reader, names, txt);
      assert txt in FetchedSet(reader', names) <==> Carried(reader', names, txt);
    }
    assert FetchedSet(reader, names) == FetchedSet(reader', names);
  }

  /** Every triple and every revoked key of the first lists is in the second. */
  ghost predicate Covered(rots: seq<RotationRecord>, revs: seq<RevocationRecord>,
                          rots': seq<RotationRecord>, revs': seq<RevocationRecord>) {
    && (forall r :: r in rots ==> exists r' :: r' in rots' && EdgeOf(r') == EdgeOf(r))
    && (forall r :: r in revs ==> exists r' :: r' in revs' && r'.revokedSpk == r.revokedSpk)
  }

  /** Only (old, new, seq) triples and revoked keys matter, not the order, the
      times or the number of copies of the records that carry them. */
  lemma ResolveIgnoresOtherFields(rots: seq<RotationRecord>, revs: seq<RevocationRecord>,
                                  rots': seq<RotationRecord>, revs': seq<RevocationRecord>, pinned: Key32)
    requires Covered(rots, revs, rots', revs') && Covered(rots', revs', rots, revs)
    ensures Resolve(Graph(EdgesOf(rots), RevokedOf(revs)), pinned)
         == Resolve(Graph(EdgesOf(rots'), RevokedOf(revs')), pinned)
  {
    assert EdgesOf(rots) == EdgesOf(rots') && RevokedOf(revs) == RevokedOf(revs');
  }

  /** A DNS view in which some reads fail or come back short, compared with one
      in which nothing is missing. */
  ghost predicate SeesLess(reader: Reader, full: Reader) {
    forall name, txt :: txt in TxtsAt(reader, name) ==> txt in TxtsAt(full, name)
  }

  /** Failing open costs at most hops, never direction: what a partial view
      accepts lies on the chain the full view follows, if the full view still
      trusts any. */
  lemma PartialViewNeverDiverts(reader: Reader, full: Reader, v: Verifier, pinned: Key32, subject: string)
    requires SeesLess(reader, full)
    requires CurrentSpk(reader, v, pinned, subject, SUBJECT_TYPE_USER_IDENTITY).Some?
    requires CurrentSpk(full, v, pinned, subject, SUBJECT_TYPE_USER_IDENTITY).Some?
    ensures var g := PublishedGraph(full, v, subject, SUBJECT_TYPE_USER_IDENTITY);
            exists c :: IsChainFromTo(g, c, pinned,
                                      CurrentSpk(full, v, pinned, subject, SUBJECT_TYPE_USER_IDENTITY).value)
                     && CurrentSpk(reader, v, pinned, subject, SUBJECT_TYPE_USER_IDENTITY).value in c
  {
    var names := DeriveRrsetNames(v, subject, SUBJECT_TYPE_USER_IDENTITY);
    var g := PublishedGraph(reader, v, subject, SUBJECT_TYPE_USER_IDENTITY);
    var g' := PublishedGraph(full, v, subject, SUBJECT_TYPE_USER_IDENTITY);
    assert FetchedSet(reader, names) <= FetchedSet(full, names);
    GrowthNeverDiverts(g, g', pinned);
    var c, c' :| IsChainFromTo(g, c, pinned, Resolve(g, pinned).value)
              && IsChainFromTo(g', c', pinned, Resolve(g', pinned).value) && c <= c';
    assert Last(c) == c'[|c| - 1];
  }

  function SubjectOf(c: Contact): string {
    c.username + "@" + c.domain
  }

  predicate Walkable(c: Contact) {
    c.username != [] && c.domain != []
  }

  /** Some pinned contact has rotated to `spk`. */
  ghost predicate RotatedTo(reader: Reader, v: Verifier, contacts: seq<Contact>, spk: Key32) {
    exists c :: c in contacts && Walkable(c)
      && CurrentSpk(reader, v, c.spk, SubjectOf(c), SUBJECT_TYPE_USER_IDENTITY) == Some(spk)
  }

  method RotationManifestAccepted(reader: Reader, v: Verifier, contacts: seq<Contact>, spk: Key32) returns (r: bool)
    ensures r <==> RotatedTo(reader, v, contacts, spk)
  {
    for i := 0 to |contacts|
      invariant !RotatedTo(reader, v, contacts[..i], spk)
    {
      var c := contacts[i];
      assert contacts[..i + 1] == contacts[..i] + [c];
      if c.username == [] || c.domain == [] {
        continue;
      }
      var head := ResolveCurrentSpk(reader, v, c.spk, SubjectOf(c), SUBJECT_TYPE_USER_IDENTITY);
      if head == Some(spk) {
        assert c in contacts;
        return true;
      }
    }
    assert contacts[..|contacts|] == contacts;
    return false;
  }

  /** A name of the contact cannot be read. */
  ghost predicate Unreadable(reader: Reader, v: Verifier, c: Contact) {
    && c.username != "" && c.domain != ""
    && Blind(reader, v, c.username + "@" + c.domain, SUBJECT_TYPE_USER_IDENTITY)
  }

  /** The contact has published a revocation of the key. */
  ghost predicate RevokedFor(reader: Reader, v: Verifier, c: Contact, spk: Key32) {
    && c.username != "" && c.domain != ""
    && Revokes(reader, v, c.username + "@" + c.domain, SUBJECT_TYPE_USER_IDENTITY, spk)
  }

  /** None is a failed read. */
  method IsSpkRevoked(reader: Reader, v: Verifier, spk: Key32, subject: string, subjectType: nat)
    returns (r: Option<bool>)
    ensures r.None? <==> Blind(reader, v, subject, subjectType)
    ensures r == Some(true) <==>
      !Blind(reader, v, subject, subjectType) && Revokes(reader, v, subject, subjectType, spk)
  {
    GraphIsPublished(reader, v, subject, subjectType);
    BlindIff(reader, v, subject, subjectType);
    var names := DeriveRrsetNames(v, subject, subjectType);
    if names == [] {
      return Some(false);
    }
    var fetched := FetchRecordsStrict(reader, names);
    if fetched.None? {
      return None;
    }
    if fetched.value == [] {
      assert FetchedSet(reader, names) == {};
      return Some(false);
    }
    var _, revocations := Partition(v, fetched.value, subject, subjectType);
    var hit := exists i :: 0 <= i < |revocations| && revocations[i].revokedSpk == spk;
    assert hit <==> spk in RevokedOf(revocations);
    return Some(hit);
  }

  /** The first contact, in list order, that settles the cross-check: a failed
      read or a revocation. */
  ghost function RevocationCheck(reader: Reader, v: Verifier, contacts: seq<Contact>, spk: Key32): Option<bool> {
    if contacts == [] then Some(false)
    else if Unreadable(reader, v, contacts[0]) then None
    else if RevokedFor(reader, v, contacts[0], spk) then Some(true)
    else RevocationCheck(reader, v, contacts[1..], spk)
  }

  method RotationManifestRevoked(reader: Reader, v: Verifier, contacts: seq<Contact>, spk: Key32)
    returns (r: Option<bool>)
    ensures r == RevocationCheck(reader, v, contacts, spk)
  {
    for i := 0 to |contacts|
      invariant RevocationCheck(reader, v, contacts, spk) == RevocationCheck(reader, v, contacts[i..], spk)
    {
      var c := contacts[i];
      assert contacts[i..][0] == c && contacts[i..][1..] == contacts[i + 1..];
      if c.username == [] || c.domain == [] {
        continue;
      }
      var hit := IsSpkRevoked(reader, v, spk, SubjectOf(c), SUBJECT_TYPE_USER_IDENTITY);
      if hit.None? {
        return None;
      }
      if hit.value {
        return Some(true);
      }
    }
    return Some(false);
  }

  /** Failing closed: a key passes only when every contact's every name was read
      and none of them carries a revocation of it. */
  lemma {:induction false} RevocationCheckFailsClosed(reader: Reader, v: Verifier, contacts: seq<Contact>, spk: Key32)
    ensures RevocationCheck(reader, v, contacts, spk) == Some(false)
       <==> forall c :: c in contacts ==> !Unreadable(reader, v, c) && !RevokedFor(reader, v, c, spk)
    ensures RevocationCheck(reader, v, contacts, spk) == Some(true)
        ==> exists c :: c in contacts && RevokedFor(reader, v, c, spk)
  {
    if contacts != [] {
      RevocationCheckFailsClosed(reader, v, contacts[1..], spk);
      assert contacts == [contacts[0]] + contacts[1..];
    }
  }
}
