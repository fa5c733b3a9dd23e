/**
 The replay cache: a table of `(sender, message id)` pairs with an expiry, which
 every operation first purges. The table is refined to a journal that forgets
 nothing.
 */
module ReplayCache {
  import opened Prelude

  datatype Pair = Pair(spk: Key32, msgId: MsgId)

  /** The rows of the table, with the expiry column as stored. */
  type Rows = map<Pair, int>

  /** For every pair ever recorded, the expiry of its last recording. */
  type Journal = map<Pair, u64>

  function Purged(rows: Rows, now: u64): Rows {
    map p | p in rows && rows[p] > I64Secs(now) :: rows[p]
  }

  /** The pair is in the journal with an expiry after `now`. The last
      representable second counts as after everything. */
  predicate Remembers(journal: Journal, p: Pair, now: u64) {
    p in journal && journal[p] > now && now < I64_MAX
  }

  /** From `since` on, the purged table answers like the journal. */
  ghost predicate Refines(rows: Rows, journal: Journal, since: u64) {
    && (forall p :: p in rows ==> p in journal && rows[p] == I64Secs(journal[p]))
    && (forall p :: p in journal && I64Secs(journal[p]) > I64Secs(since) ==> p in rows)
  }

  lemma PurgeRefines(rows: Rows, journal: Journal, since: u64, now: u64)
    requires Refines(rows, journal, since) && since <= now
    ensures Refines(Purged(rows, now), journal, now)
    ensures forall p :: p in Purged(rows, now) <==> Remembers(journal, p, now)
  {
    forall p ensures p in Purged(rows, now) <==> Remembers(journal, p, now) {
      if p in journal {
        StoredLater(journal[p], now);
      }
    }
  }

  // The operations

  datatype Op =
    | HasSeen(p: Pair)
    | Record(p: Pair, expiry: Option<u64>)
    | CleanupExpired
    | Size

  datatype Timed = Timed(now: u64, op: Op)

  datatype Reply = Bool(b: bool) | Count(n: nat) | Done

  /** One operation on the purged table. */
  function TableStep(ttl: u64, rows: Rows, c: Timed): (Rows, Reply) {
    var live := Purged(rows, c.now);
    match c.op
    case HasSeen(p) => (live, Bool(p in live))
    case Record(p, e) => (live[p := I64Secs(ExpiryOf(ttl, e, c.now))], Done)
    case CleanupExpired => (live, Done)
    case Size => (live, Count(|live|))
  }

  /** The same operation on the journal. */
  function JournalStep(ttl: u64, journal: Journal, c: Timed): (Journal, Reply) {
    match c.op
    case HasSeen(p) => (journal, Bool(Remembers(journal, p, c.now)))
    case Record(p, e) => (journal[p := ExpiryOf(ttl, e, c.now)], Done)
    case CleanupExpired => (journal, Done)
    case Size => (journal, Count(|set p | p in journal && Remembers(journal, p, c.now)|))
  }

  function ExpiryOf(ttl: u64, e: Option<u64>, now: u64): u64 {
    if e.Some? then e.value else SatAdd64(now, ttl)
  }

  class ReplayCache {
    const defaultTtlSecs: u64
    var rows: Rows
    /** What has been recorded, never purged. */
    ghost var journal: Journal
    /** The time of the latest call. */
    ghost var clock: u64

    /** From the latest call on the table answers like the journal. */
    ghost predicate Valid()
      reads this
    {
      Refines(rows, journal, clock)
    }

    /** And the clock has not gone back since. */
    ghost predicate InTime(now: u64)
      reads this
    {
      Valid() && clock <= now
    }

    constructor (ttl: u64)
      ensures Valid() && rows == map[] && journal == map[] && clock == 0 && defaultTtlSecs == ttl
    {
      defaultTtlSecs := ttl;
      rows := map[];
      journal := map[];
      clock := 0;
    }

    /** Drop the rows whose expiry has passed and count them. */
    method PurgeLocked(now: u64) returns (removed: nat)
      modifies this
      ensures rows == Purged(old(rows), now) && journal == old(journal) && clock == now
      ensures removed == |old(rows)| - |rows|
      ensures old(InTime(now)) ==> Valid() && forall p :: p in rows <==> Remembers(journal, p, now)
    {
      if InTime(now) {
        PurgeRefines(rows, journal, clock, now);
      }
      var kept := Purged(rows, now);
      assert kept.Keys <= rows.Keys;
      SubsetSize(kept.Keys, rows.Keys);
      removed := |rows| - |kept|;
      rows := kept;
      clock := now;
    }

    method HasSeen(p: Pair, now: u64) returns (seen: bool)
      modifies this
      ensures (rows, Bool(seen)) == TableStep(defaultTtlSecs, old(rows), Timed(now, Op.HasSeen(p)))
      ensures journal == old(journal) && clock == now
      ensures old(InTime(now)) ==> Valid() && (seen <==> Remembers(journal, p, now))
    {
      var _ := PurgeLocked(now);
      seen := p in rows && rows[p] > I64Secs(now);
    }

    method Record(p: Pair, expiry: Option<u64>, now: u64)
      modifies this
      ensures rows == TableStep(defaultTtlSecs, old(rows), Timed(now, Op.Record(p, expiry))).0
      ensures journal == old(journal)[p := ExpiryOf(defaultTtlSecs, expiry, now)] && clock == now
      ensures p in rows && rows[p] == I64Secs(if expiry.Some? then expiry.value else SatAdd64(now, defaultTtlSecs))
      ensures forall q :: q != p ==>
        (q in rows <==> q in old(rows) && old(rows)[q] > I64Secs(now)) && (q in rows ==> rows[q] == old(rows)[q])
      ensures old(InTime(now)) ==> Valid()
    {
      var exp := if expiry.Some? then expiry.value else SatAdd64(now, defaultTtlSecs);
      var _ := PurgeLocked(now);
      rows := rows[p := I64Secs(exp)];
      journal := journal[p := exp];
    }

    /** A check at `now` and then, under a second lock, a recording at `later`. */
    method CheckAndRecord(p: Pair, expiry: Option<u64>, now: u64, later: u64) returns (wasFresh: bool)
      modifies this
      ensures var (checked, seen) := TableStep(defaultTtlSecs, old(rows), Timed(now, Op.HasSeen(p)));
        && seen == Bool(!wasFresh)
        && rows == if wasFresh then TableStep(defaultTtlSecs, checked, Timed(later, Op.Record(p, expiry))).0
                   else checked
      ensures clock == if wasFresh then later else now
      ensures journal
           == if wasFresh then old(journal)[p := ExpiryOf(defaultTtlSecs, expiry, later)] else old(journal)
      ensures old(InTime(now)) && now <= later ==> Valid() && (wasFresh <==> !Remembers(old(journal), p, now))
    {
      var seen := HasSeen(p, now);
      if seen {
        return false;
      }
      Record(p, expiry, later);
      return true;
    }

    method CleanupExpired(now: u64) returns (removed: nat)
      modifies this
      ensures rows == Purged(old(rows), now) && journal == old(journal) && clock == now
      ensures removed == |old(rows)| - |rows|
      ensures old(InTime(now)) ==> Valid()
    {
      removed := PurgeLocked(now);
    }

    method Size(now: u64) returns (n: nat)
      modifies this
      ensures (rows, Count(n)) == TableStep(defaultTtlSecs, old(rows), Timed(now, Op.Size))
      ensures journal == old(journal) && clock == now
      ensures old(InTime(now)) ==> Valid() && n == |set p | p in journal && Remembers(journal, p, now)|
    {
      var _ := PurgeLocked(now);
      n := |map p | p in rows && rows[p] > I64Secs(now) :: rows[p]|;
      assert (map p | p in rows && rows[p] > I64Secs(now) :: rows[p]) == rows;
      if old(InTime(now)) {
        assert rows.Keys == set p | p in journal && Remembers(journal, p, now);
      }
    }
  }

  // Whole runs

  function TableRun(ttl: u64, rows: Rows, run: seq<Timed>): (replies: seq<Reply>)
    ensures |replies| == |run|
    decreases |run|
  {
    if run == [] then []
    else
      var (rows', reply) := TableStep(ttl, rows, run[0]);
      [reply] + TableRun(ttl, rows', run[1..])
  }

  function JournalRun(ttl: u64, journal: Journal, run: seq<Timed>): (replies: seq<Reply>)
    ensures |replies| == |run|
    decreases |run|
  {
    if run == [] then []
    else
      var (journal', reply) := JournalStep(ttl, journal, run[0]);
      [reply] + JournalRun(ttl, journal', run[1..])
  }

  /** The clock never goes back. */
  ghost predicate InTimeOrder(run: seq<Timed>, since: u64) {
    run != [] ==> since <= run[0].now && InTimeOrder(run[1..], run[0].now)
  }

  lemma StepRefines(ttl: u64, rows: Rows, journal: Journal, since: u64, c: Timed)
    requires Refines(rows, journal, since) && since <= c.now
    ensures TableStep(ttl, rows, c).1 == JournalStep(ttl, journal, c).1
    ensures Refines(TableStep(ttl, rows, c).0, JournalStep(ttl, journal, c).0, c.now)
  {
    PurgeRefines(rows, journal, since, c.now);
    assert Purged(rows, c.now).Keys == set p | p in journal && Remembers(journal, p, c.now);
  }

  /** Inline purging is unobservable: along every run under a clock that never
      goes back, the purged table gives the replies of the journal that forgets
      nothing. */
  lemma {:induction false} PurgingUnobservable(ttl: u64, rows: Rows, journal: Journal, since: u64, run: seq<Timed>)
    requires Refines(rows, journal, since) && InTimeOrder(run, since)
    ensures TableRun(ttl, rows, run) == JournalRun(ttl, journal, run)
    decreases |run|
  {
    if run != [] {
      StepRefines(ttl, rows, journal, since, run[0]);
      PurgingUnobservable(ttl, TableStep(ttl, rows, run[0]).0, JournalStep(ttl, journal, run[0]).0, run[0].now,
                          run[1..]);
    }
  }

  // Clocks that go back

  function TableAfter(ttl: u64, rows: Rows, run: seq<Timed>): Rows
    decreases |run|
  {
    if run == [] then rows else TableAfter(ttl, TableStep(ttl, rows, run[0]).0, run[1..])
  }

  function JournalAfter(ttl: u64, journal: Journal, run: seq<Timed>): Journal
    decreases |run|
  {
    if run == [] then journal else JournalAfter(ttl, JournalStep(ttl, journal, run[0]).0, run[1..])
  }

  predicate Records(c: Timed, p: Pair) {
    c.op.Record? && c.op.p == p
  }

  predicate NeverRecords(run: seq<Timed>, p: Pair) {
    forall i :: 0 <= i < |run| ==> !Records(run[i], p)
  }

  /** Until it is recorded again, a row survives exactly as long as no clock reading
      reaches its expiry; the journal keeps its entry. */
  lemma {:induction false} KeptIff(ttl: u64, rows: Rows, journal: Journal, run: seq<Timed>, p: Pair)
    requires NeverRecords(run, p)
    ensures p in TableAfter(ttl, rows, run) <==>
            p in rows && forall i :: 0 <= i < |run| ==> rows[p] > I64Secs(run[i].now)
    ensures p in TableAfter(ttl, rows, run) ==> TableAfter(ttl, rows, run)[p] == rows[p]
    ensures p in JournalAfter(ttl, journal, run) <==> p in journal
    ensures p in journal ==> JournalAfter(ttl, journal, run)[p] == journal[p]
    decreases |run|
  {
    if run != [] {
      var rows', journal' := TableStep(ttl, rows, run[0]).0, JournalStep(ttl, journal, run[0]).0;
      assert !Records(run[0], p);
      assert forall i :: 0 <= i < |run[1..]| ==> run[1..][i] == run[i + 1];
      KeptIff(ttl, rows', journal', run[1..], p);
      if p in rows' && forall i :: 0 <= i < |run[1..]| ==> rows'[p] > I64Secs(run[1..][i].now) {
        assert forall i :: 1 <= i < |run| ==> run[i] == run[1..][i - 1];
      }
    }
  }

  /** With any clock: after a recording and operations that do not record the pair
      again, the table answers like the journal exactly if the pair counts as
      expired by then, or no reading in between had reached the expiry recorded. */
  lemma AnswersAfterRecordIff(ttl: u64, rows: Rows, journal: Journal, p: Pair, expiry: Option<u64>, at: u64,
                              run: seq<Timed>, now: u64)
    requires NeverRecords(run, p)
    ensures var all := [Timed(at, Record(p, expiry))] + run;
      var exp := ExpiryOf(ttl, expiry, at);
      TableStep(ttl, TableAfter(ttl, rows, all), Timed(now, HasSeen(p))).1
      == JournalStep(ttl, JournalAfter(ttl, journal, all), Timed(now, HasSeen(p))).1
      <==> !(exp > now && now < I64_MAX) || forall i :: 0 <= i < |run| ==> I64Secs(exp) > I64Secs(run[i].now)
  {
    var c := Timed(at, Record(p, expiry));
    var all := [c] + run;
    assert all[0] == c && all[1..] == run;
    KeptIff(ttl, TableStep(ttl, rows, c).0, JournalStep(ttl, journal, c).0, run, p);
    StoredLater(ExpiryOf(ttl, expiry, at), now);
  }

  // The same for whole runs

  /** The `i`th operation of the run is the last that records the pair. */
  ghost predicate LastRecording(run: seq<Timed>, p: Pair, i: nat) {
    i < |run| && Records(run[i], p) && NeverRecords(run[i + 1..], p)
  }

  /** The expiry that the `i`th operation records. */
  function RecordedExpiry(ttl: u64, run: seq<Timed>, i: nat): u64
    requires i < |run| && run[i].op.Record?
  {
    ExpiryOf(ttl, run[i].op.expiry, run[i].now)
  }

  /** The pair is still alive at `now`, and yet a reading since its last recording had
      reached its expiry. */
  ghost predicate Forgotten(ttl: u64, run: seq<Timed>, p: Pair, now: u64) {
    exists i: nat, j: nat :: i < j < |run| && LastRecording(run, p, i)
      && I64Secs(RecordedExpiry(ttl, run, i)) > I64Secs(now)
      && I64Secs(RecordedExpiry(ttl, run, i)) <= I64Secs(run[j].now)
  }

  lemma {:induction false} AfterAppends(ttl: u64, rows: Rows, journal: Journal, run: seq<Timed>, more: seq<Timed>)
    ensures TableAfter(ttl, rows, run + more) == TableAfter(ttl, TableAfter(ttl, rows, run), more)
    ensures JournalAfter(ttl, journal, run + more) == JournalAfter(ttl, JournalAfter(ttl, journal, run), more)
    decreases |run|
  {
    if run == [] {
      assert run + more == more;
    } else {
      assert (run + more)[0] == run[0] && (run + more)[1..] == run[1..] + more;
      AfterAppends(ttl, TableStep(ttl, rows, run[0]).0, JournalStep(ttl, journal, run[0]).0, run[1..], more);
    }
  }

  lemma {:induction false} SomeLastRecording(run: seq<Timed>, p: Pair) returns (i: nat)
    requires !NeverRecords(run, p)
    ensures LastRecording(run, p, i)
    decreases |run|
  {
    if NeverRecords(run[1..], p) {
      i := 0;
      assert forall j :: 1 <= j < |run| ==> run[j] == run[1..][j - 1];
    } else {
      i := SomeLastRecording(run[1..], p);
      assert run[i + 1 + 1..] == run[1..][i + 1..];
      i := i + 1;
    }
  }

  /** The state after a run that last records the pair at its `i`th operation. */
  lemma AfterLastRecording(ttl: u64, run: seq<Timed>, p: Pair, i: nat)
    requires LastRecording(run, p, i)
    ensures var rows, journal := TableAfter(ttl, map[], run), JournalAfter(ttl, map[], run);
      var exp := RecordedExpiry(ttl, run, i);
      && p in journal && journal[p] == exp
      && (p in rows <==> forall j :: i < j < |run| ==> I64Secs(exp) > I64Secs(run[j].now))
      && (p in rows ==> rows[p] == I64Secs(exp))
  {
    var before, rest := run[..i], run[i + 1..];
    assert run == before + ([run[i]] + rest);
    assert ([run[i]] + rest)[0] == run[i] && ([run[i]] + rest)[1..] == rest;
    AfterAppends(ttl, map[], map[], before, [run[i]] + rest);
    var rows, journal := TableAfter(ttl, map[], before), JournalAfter(ttl, map[], before);
    KeptIff(ttl, TableStep(ttl, rows, run[i]).0, JournalStep(ttl, journal, run[i]).0, rest, p);
    assert forall j :: 0 <= j < |rest| ==> rest[j] == run[j + i + 1];
    assert forall j :: i < j < |run| ==> run[j] == rest[j - i - 1];
  }

  /** What the table and the journal remember differs in exactly the forgotten
      pairs. */
  lemma RemembersUnlessForgotten(ttl: u64, run: seq<Timed>, p: Pair, now: u64)
    ensures var rows, journal := TableAfter(ttl, map[], run), JournalAfter(ttl, map[], run);
      p in Purged(rows, now) <==> Remembers(journal, p, now) && !Forgotten(ttl, run, p, now)
    ensures Forgotten(ttl, run, p, now) ==> Remembers(JournalAfter(ttl, map[], run), p, now)
  {
    if NeverRecords(run, p) {
      KeptIff(ttl, map[], map[], run, p);
    } else {
      var i := SomeLastRecording(run, p);
      AfterLastRecording(ttl, run, p, i);
      StoredLater(RecordedExpiry(ttl, run, i), now);
      forall i' | LastRecording(run, p, i') ensures i' == i {
        OneLastRecording(run, p, i, i');
      }
    }
  }

  lemma OneLastRecording(run: seq<Timed>, p: Pair, i: nat, i': nat)
    requires LastRecording(run, p, i) && LastRecording(run, p, i')
    ensures i' == i
  {
  }

  /** The reply to the `k`th operation gives the purging away. */
  ghost predicate Betrays(ttl: u64, run: seq<Timed>, k: nat)
    requires k < |run|
  {
    match run[k].op
    case HasSeen(p) => Forgotten(ttl, run[..k], p, run[k].now)
    case Size => exists p :: Forgotten(ttl, run[..k], p, run[k].now)
    case _ => false
  }

  lemma {:induction false} RepliesAt(ttl: u64, rows: Rows, journal: Journal, run: seq<Timed>, k: nat)
    requires k < |run|
    ensures TableRun(ttl, rows, run)[k] == TableStep(ttl, TableAfter(ttl, rows, run[..k]), run[k]).1
    ensures JournalRun(ttl, journal, run)[k] == JournalStep(ttl, JournalAfter(ttl, journal, run[..k]), run[k]).1
    decreases |run|
  {
    if k > 0 {
      RepliesAt(ttl, TableStep(ttl, rows, run[0]).0, JournalStep(ttl, journal, run[0]).0, run[1..], k - 1);
      assert run[..k][0] == run[0] && run[..k][1..] == run[1..][..k - 1];
    }
  }

  lemma ReplyAgreesIff(ttl: u64, run: seq<Timed>, k: nat)
    requires k < |run|
    ensures TableRun(ttl, map[], run)[k] == JournalRun(ttl, map[], run)[k] <==> !Betrays(ttl, run, k)
  {
    RepliesAt(ttl, map[], map[], run, k);
    var now := run[k].now;
    match run[k].op {
      case HasSeen(p) =>
        RemembersUnlessForgotten(ttl, run[..k], p, now);
      case Size =>
        SizeAgreesIff(ttl, run[..k], now);
      case _ =>
    }
  }

  lemma SizeAgreesIff(ttl: u64, run: seq<Timed>, now: u64)
    ensures var rows, journal := TableAfter(ttl, map[], run), JournalAfter(ttl, map[], run);
      |Purged(rows, now)| == |set p | p in journal && Remembers(journal, p, now)|
      <==> !exists p :: Forgotten(ttl, run, p, now)
  {
    var live := Purged(TableAfter(ttl, map[], run), now).Keys;
    var journal := JournalAfter(ttl, map[], run);
    var remembered := set p | p in journal && Remembers(journal, p, now);
    forall p ensures p in live <==> p in remembered && !Forgotten(ttl, run, p, now)
             ensures Forgotten(ttl, run, p, now) ==> p in remembered
    {
      RemembersUnlessForgotten(ttl, run, p, now);
    }
    assert |Purged(TableAfter(ttl, map[], run), now)| == |live|;
    if p :| Forgotten(ttl, run, p, now) {
      SubsetSize(live, remembered - {p});
    } else {
      assert live == remembered;
    }
  }

  /** Exactly when purging is unobservable, for every run from an empty table and
      every clock: no pair is asked about, or counted, that is still alive by the
      clock at that moment and had been outlived by an earlier reading since it was
      recorded. */
  lemma RunsAgreeIff(ttl: u64, run: seq<Timed>)
    ensures TableRun(ttl, map[], run) == JournalRun(ttl, map[], run)
       <==> forall k :: 0 <= k < |run| ==> !Betrays(ttl, run, k)
  {
    forall k | 0 <= k < |run|
      ensures TableRun(ttl, map[], run)[k] == JournalRun(ttl, map[], run)[k] <==> !Betrays(ttl, run, k)
    {
      ReplyAgreesIff(ttl, run, k);
    }
  }

  /** For instance, a pair recorded up to second
      20 and purged at second 30 is no longer there when the clock reads 10. */
  lemma ClockMustNotGoBack(p: Pair)
    ensures var run := [Timed(0, Record(p, Some(20))), Timed(30, CleanupExpired), Timed(10, HasSeen(p))];
            TableRun(0, map[], run) != JournalRun(0, map[], run)
  {
    var last := [Timed(10, HasSeen(p))];
    var mid := [Timed(30, CleanupExpired)] + last;
    var run := [Timed(0, Record(p, Some(20)))] + mid;
    assert run[1..] == mid && mid[1..] == last;
    assert last[1..] == [];
    var r1: Rows := map[p := 20];
    assert TableStep(0, map[], run[0]).0 == r1;
    assert TableStep(0, r1, mid[0]).0 == map[];
    assert TableRun(0, map[], last) == [Bool(false)];
    var j1: Journal := map[p := 20];
    assert JournalStep(0, map[], run[0]).0 == j1;
    assert JournalRun(0, j1, last) == [Bool(true)];
    assert TableRun(0, r1, mid) == [Done] + [Bool(false)];
    assert JournalRun(0, j1, mid) == [Done] + [Bool(true)];
    assert TableRun(0, map[], run)[2] == Bool(false);
    assert JournalRun(0, map[], run)[2] == Bool(true);
  }

  // Two calls of `CheckAndRecord` at once

  /** How far a call has come: nothing asked yet; told that the pair is fresh, with the
      recording still to do; returned. */
  datatype Phase = Unasked | Recording | Returned(wasFresh: bool)

  /** The caller takes the lock. */
  datatype LockStep = LockStep(caller: nat, now: u64)

  /** The table and the calls in progress, all about one pair. */
  datatype Race = Race(rows: Rows, calls: map<nat, Phase>)

  /** The caller's next critical section, if it has one left. */
  function RaceStep(ttl: u64, p: Pair, expiry: nat -> Option<u64>, r: Race, s: LockStep): Race {
    if s.caller !in r.calls then r
    else match r.calls[s.caller]
      case Unasked =>
        var (rows, seen) := TableStep(ttl, r.rows, Timed(s.now, HasSeen(p)));
        Race(rows, r.calls[s.caller := if seen == Bool(true) then Returned(false) else Recording])
      case Recording =>
        Race(TableStep(ttl, r.rows, Timed(s.now, Record(p, expiry(s.caller)))).0, r.calls[s.caller := Returned(true)])
      case Returned(_) => r
  }

  function RaceRun(ttl: u64, p: Pair, expiry: nat -> Option<u64>, r: Race, steps: seq<LockStep>): Race
    decreases |steps|
  {
    if steps == [] then r else RaceRun(ttl, p, expiry, RaceStep(ttl, p, expiry, r, steps[0]), steps[1..])
  }

  /** Caller `c` begins, and each of the two takes the lock twice: three orders, and
      three more for the other caller. */
  predicate TwiceEach(steps: seq<LockStep>, c: nat, d: nat) {
    && |steps| == 4 && steps[0].caller == c
    && var others := (steps[1].caller, steps[2].caller, steps[3].caller);
       others == (c, d, d) || others == (d, c, d) || others == (d, d, c)
  }

  lemma FourSteps(ttl: u64, p: Pair, expiry: nat -> Option<u64>, r: Race, steps: seq<LockStep>)
    requires |steps| == 4
    ensures var r2 := RaceStep(ttl, p, expiry, RaceStep(ttl, p, expiry, r, steps[0]), steps[1]);
      RaceRun(ttl, p, expiry, r, steps) == RaceStep(ttl, p, expiry, RaceStep(ttl, p, expiry, r2, steps[2]), steps[3])
  {
    assert steps[1..][1..] == steps[2..] && steps[2..][1..] == steps[3..];
    var r1 := RaceStep(ttl, p, expiry, r, steps[0]);
    var r2 := RaceStep(ttl, p, expiry, r1, steps[1]);
    var r3 := RaceStep(ttl, p, expiry, r2, steps[2]);
    assert RaceRun(ttl, p, expiry, r, steps) == RaceRun(ttl, p, expiry, r1, steps[1..]);
    assert RaceRun(ttl, p, expiry, r1, steps[1..]) == RaceRun(ttl, p, expiry, r2, steps[2..]);
    assert RaceRun(ttl, p, expiry, r2, steps[2..]) == RaceRun(ttl, p, expiry, r3, steps[3..]);
    assert RaceRun(ttl, p, expiry, r3, steps[3..]) == RaceStep(ttl, p, expiry, r3, steps[3]);
  }

  /** The caller has been told that the pair is fresh. */
  predicate Told(r: Race, caller: nat) {
    caller in r.calls && (r.calls[caller].Recording? || r.calls[caller] == Returned(true))
  }

  lemma Asks(ttl: u64, p: Pair, expiry: nat -> Option<u64>, r: Race, s: LockStep)
    requires s.caller in r.calls && r.calls[s.caller] == Unasked
    ensures var unseen := p !in Purged(r.rows, s.now);
      RaceStep(ttl, p, expiry, r, s)
      == Race(Purged(r.rows, s.now), r.calls[s.caller := if unseen then Recording else Returned(false)])
  {
  }

  /** What a caller was told it stays told, whoever goes on; having asked, it returns
      with its next step, if it goes on. */
  lemma GoesOn(ttl: u64, p: Pair, expiry: nat -> Option<u64>, r: Race, s: LockStep, caller: nat)
    requires caller in r.calls && !r.calls[caller].Unasked?
    ensures var r' := RaceStep(ttl, p, expiry, r, s);
      && caller in r'.calls && !r'.calls[caller].Unasked?
      && (Told(r', caller) <==> Told(r, caller))
      && (s.caller == caller || r.calls[caller].Returned? ==> r'.calls[caller].Returned?)
      && (s.caller != caller ==> r'.calls[caller] == r.calls[caller])
  {
  }

  /** When `CheckAndRecord` tells two callers that the same pair is fresh, in any of the
      orders in which they can take the lock, at any times, over any table: the
      first to ask found no live row, and the other asked before the first had
      recorded, or when the expiry that the first recorded had come. */
  lemma BothFreshIff(ttl: u64, rows: Rows, p: Pair, expiry: nat -> Option<u64>, c: nat, d: nat, steps: seq<LockStep>)
    requires c != d && TwiceEach(steps, c, d)
    ensures var end := RaceRun(ttl, p, expiry, Race(rows, map[c := Unasked, d := Unasked]), steps);
      && c in end.calls && d in end.calls && end.calls[c].Returned? && end.calls[d].Returned?
      && (end.calls[c].wasFresh && end.calls[d].wasFresh <==>
            && p !in Purged(rows, steps[0].now)
            && (steps[1].caller == c ==>
                  I64Secs(ExpiryOf(ttl, expiry(c), steps[1].now)) <= I64Secs(steps[2].now)))
  {
    var r1 := Race(Purged(rows, steps[0].now),
                   map[c := if p in Purged(rows, steps[0].now) then Returned(false) else Recording, d := Unasked]);
    FirstAsks(ttl, rows, p, expiry, c, d, r1, steps);
    if steps[1].caller == c {
      AskedAfterwards(ttl, p, expiry, c, d, r1, steps);
    } else {
      AskedBetween(ttl, p, expiry, c, d, r1, steps);
    }
  }

  lemma FirstAsks(ttl: u64, rows: Rows, p: Pair, expiry: nat -> Option<u64>, c: nat, d: nat, r1: Race,
                  steps: seq<LockStep>)
    requires c != d && |steps| == 4 && steps[0].caller == c && r1.rows == Purged(rows, steps[0].now)
    requires r1.calls == map[c := if p in r1.rows then Returned(false) else Recording, d := Unasked]
    ensures FirstAsked(r1, p, c, d)
    ensures var r2 := RaceStep(ttl, p, expiry, r1, steps[1]);
      RaceRun(ttl, p, expiry, Race(rows, map[c := Unasked, d := Unasked]), steps)
      == RaceStep(ttl, p, expiry, RaceStep(ttl, p, expiry, r2, steps[2]), steps[3])
  {
    var start := Race(rows, map[c := Unasked, d := Unasked]);
    FourSteps(ttl, p, expiry, start, steps);
    Asks(ttl, p, expiry, start, steps[0]);
    assert RaceStep(ttl, p, expiry, start, steps[0]).calls == r1.calls;
  }

  /** The state once the first caller has asked. */
  predicate FirstAsked(r: Race, p: Pair, c: nat, d: nat) {
    c != d && c in r.calls && d in r.calls && r.calls[d] == Unasked
    && r.calls[c] == if p !in r.rows then Recording else Returned(false)
  }

  /** The other caller asks before the first records. */
  lemma AskedBetween(ttl: u64, p: Pair, expiry: nat -> Option<u64>, c: nat, d: nat, r1: Race, steps: seq<LockStep>)
    requires FirstAsked(r1, p, c, d) && |steps| == 4 && steps[1].caller == d
    requires (steps[2].caller, steps[3].caller) == (c, d) || (steps[2].caller, steps[3].caller) == (d, c)
    ensures var r2 := RaceStep(ttl, p, expiry, r1, steps[1]);
      var end := RaceStep(ttl, p, expiry, RaceStep(ttl, p, expiry, r2, steps[2]), steps[3]);
      && c in end.calls && d in end.calls && end.calls[c].Returned? && end.calls[d].Returned?
      && (end.calls[c].wasFresh && end.calls[d].wasFresh <==> p !in r1.rows)
  {
    var r2 := RaceStep(ttl, p, expiry, r1, steps[1]);
    var r3 := RaceStep(ttl, p, expiry, r2, steps[2]);
    Asks(ttl, p, expiry, r1, steps[1]);
    GoesOn(ttl, p, expiry, r1, steps[1], c);
    GoesOn(ttl, p, expiry, r2, steps[2], c);
    GoesOn(ttl, p, expiry, r2, steps[2], d);
    GoesOn(ttl, p, expiry, r3, steps[3], c);
    GoesOn(ttl, p, expiry, r3, steps[3], d);
  }

  /** The other caller asks when the first has returned. */
  lemma AskedAfterwards(ttl: u64, p: Pair, expiry: nat -> Option<u64>, c: nat, d: nat, r1: Race, steps: seq<LockStep>)
    requires FirstAsked(r1, p, c, d) && |steps| == 4
    requires steps[1].caller == c && steps[2].caller == d && steps[3].caller == d
    ensures var r2 := RaceStep(ttl, p, expiry, r1, steps[1]);
      var end := RaceStep(ttl, p, expiry, RaceStep(ttl, p, expiry, r2, steps[2]), steps[3]);
      && c in end.calls && d in end.calls && end.calls[c].Returned? && end.calls[d].Returned?
      && (end.calls[c].wasFresh && end.calls[d].wasFresh <==>
            p !in r1.rows && I64Secs(ExpiryOf(ttl, expiry(c), steps[1].now)) <= I64Secs(steps[2].now))
  {
    var r2 := RaceStep(ttl, p, expiry, r1, steps[1]);
    var r3 := RaceStep(ttl, p, expiry, r2, steps[2]);
    GoesOn(ttl, p, expiry, r1, steps[1], c);
    assert r2.calls[d] == Unasked;
    Asks(ttl, p, expiry, r2, steps[2]);
    GoesOn(ttl, p, expiry, r2, steps[2], c);
    GoesOn(ttl, p, expiry, r3, steps[3], c);
    GoesOn(ttl, p, expiry, r3, steps[3], d);
  }

  /** For instance: over an empty table, whoever asks second before the first has
      recorded. */
  lemma CheckAndRecordRaces(ttl: u64, p: Pair, expiry: nat -> Option<u64>, now: u64)
    ensures var steps := [LockStep(0, now), LockStep(1, now), LockStep(0, now), LockStep(1, now)];
      RaceRun(ttl, p, expiry, Race(map[], map[0 := Unasked, 1 := Unasked]), steps).calls
      == map[0 := Returned(true), 1 := Returned(true)]
  {
    var steps := [LockStep(0, now), LockStep(1, now), LockStep(0, now), LockStep(1, now)];
    FourSteps(ttl, p, expiry, Race(map[], map[0 := Unasked, 1 := Unasked]), steps);
    assert Purged(map[], now) == map[];
  }
}
