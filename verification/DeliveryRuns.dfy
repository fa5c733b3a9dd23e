/**
 Whole runs of a receiving client: receive calls of both kinds in any order, with
 prekey refreshes, cleanups and intro review between them, under a clock that
 never goes back.

 A run is a list of atomic steps. A receive call is the list of its records, and
 `CallsAreSteps` turns a run of calls into the run of their steps, so what holds
 along every run of steps holds along every run of calls.
 */
module DeliveryRuns {
  import opened Prelude
  import opened SlotManifest
  import opened Addressing
  import opened Delivery
  import opened Admission
  import opened DeliverySteps
  import R = ReplayCache
  import P = Prekeys
  import Pool = PrekeyPool
  import Q = IntroQueue

  /** `nextBorn` counts the prekeys ever generated. */
  datatype Machine = Machine(stores: Stores, nextBorn: nat)

  datatype Op =
    | Handle(poll: Poll, item: Item)
    | Refresh(now: u64, pool: seq<P.Generated>, exp: u64, ttl: u32, clock: Pool.Clock, writes: nat -> Pool.Write)
    | Cleanup(now: u64)
    | RemoveIntro(id: nat)
    | BlockSender(spk: Key32, note: string, at: u64)
    | UnblockSender(spk: Key32)

  function TimeAfter(op: Op, since: u64): u64 {
    match op
    case Handle(poll, _) => poll.now
    case Refresh(now, _, _, _, _, _) => now
    case Cleanup(now) => now
    case _ => since
  }

  /** What the refresh of `PrekeyPool` leaves behind. */
  function Refreshed(a: Account, codec: Pool.Codec, st: Pool.State, op: Op): Pool.State
    requires op.Refresh?
  {
    Pool.PublishFrom(st.(rows := P.Inserted(st.rows, op.pool)), op.pool, 0, a.poolName, codec, op.ttl, op.clock,
                     op.writes).0
  }

  ghost function Next(a: Account, codec: Pool.Codec, mc: Machine, op: Op): (Machine, seq<Event>) {
    var st := mc.stores;
    match op
    case Handle(poll, item) =>
      var (st', outcome) := Step(a, poll, st, item);
      (mc.(stores := st'), if outcome.Surfaced? then [outcome.event] else [])
    case Refresh(_, pool, _, _, _, _) =>
      (Machine(st.(pool := Refreshed(a, codec, st.pool, op)), mc.nextBorn + |pool|), [])
    case Cleanup(now) =>
      (mc.(stores := Stores(R.Purged(st.seen, now), st.pool.(rows := P.Unexpired(st.pool.rows, now)),
                            Q.Cleaned(st.queue, now))), [])
    case RemoveIntro(id) => (mc.(stores := st.(queue := Q.Removed(st.queue, id))), [])
    case BlockSender(spk, note, at) => (mc.(stores := st.(queue := Q.Blocked(st.queue, spk, note, at))), [])
    case UnblockSender(spk) => (mc.(stores := st.(queue := Q.Unblocked(st.queue, spk))), [])
  }

  /** The clock has not gone back, and a new pool is new. */
  ghost predicate Legal(codec: Pool.Codec, mc: Machine, op: Op, since: u64) {
    && since <= TimeAfter(op, since)
    && (op.Refresh? ==> P.FreshPool(op.pool, mc.stores.pool.rows, op.exp, mc.nextBorn, codec.publicOf))
  }

  ghost predicate LegalRun(a: Account, codec: Pool.Codec, mc: Machine, ops: seq<Op>, since: u64)
    decreases |ops|
  {
    ops != [] ==>
      Legal(codec, mc, ops[0], since)
        && LegalRun(a, codec, Next(a, codec, mc, ops[0]).0, ops[1..], TimeAfter(ops[0], since))
  }

  ghost function Final(a: Account, codec: Pool.Codec, mc: Machine, ops: seq<Op>): Machine
    decreases |ops|
  {
    if ops == [] then mc else Final(a, codec, Next(a, codec, mc, ops[0]).0, ops[1..])
  }

  /** Everything surfaced along the run, in order. */
  ghost function Events(a: Account, codec: Pool.Codec, mc: Machine, ops: seq<Op>): seq<Event>
    decreases |ops|
  {
    if ops == [] then []
    else
      var (next, events) := Next(a, codec, mc, ops[0]);
      events + Events(a, codec, next, ops[1..])
  }

  // ---- at most once ----

  lemma NextRemembers(a: Account, codec: Pool.Codec, mc: Machine, op: Op, e: Event, since: u64)
    requires Legal(codec, mc, op, since) && Remembered(mc.stores.seen, e, since)
    ensures var (next, events) := Next(a, codec, mc, op);
      && Remembered(next.stores.seen, e, TimeAfter(op, since))
      && (events != [] ==>
            && events[0].at == TimeAfter(op, since)
            && Remembered(next.stores.seen, events[0], TimeAfter(op, since))
            && (events[0].pair == e.pair ==> !Later(e.exp, events[0].at)))
  {
    if op.Handle? {
      StepRemembers(a, op.poll, mc.stores, op.item, e, since);
      SurfacedAccounted(a, op.poll, mc.stores, op.item);
    }
  }

  lemma {:induction false} RunRemembers(a: Account, codec: Pool.Codec, mc: Machine, ops: seq<Op>, e: Event, since: u64)
    requires LegalRun(a, codec, mc, ops, since) && Remembered(mc.stores.seen, e, since)
    ensures forall i :: 0 <= i < |Events(a, codec, mc, ops)| && Events(a, codec, mc, ops)[i].pair == e.pair
              ==> !Later(e.exp, Events(a, codec, mc, ops)[i].at)
    decreases |ops|
  {
    if ops != [] {
      NextRemembers(a, codec, mc, ops[0], e, since);
      RunRemembers(a, codec, Next(a, codec, mc, ops[0]).0, ops[1..], e, TimeAfter(ops[0], since));
    }
  }

  lemma NextRemembersOwn(a: Account, codec: Pool.Codec, mc: Machine, op: Op, since: u64)
    requires Legal(codec, mc, op, since)
    ensures var (next, events) := Next(a, codec, mc, op);
      |events| <= 1 && (events != [] ==> Remembered(next.stores.seen, events[0], TimeAfter(op, since)))
  {
    if op.Handle? {
      SurfacedAccounted(a, op.poll, mc.stores, op.item);
    }
  }

  /** If both are about the same pair, the later is not before the expiry that the
      earlier recorded. (A clock past the last second that a table column can hold
      is not before anything.) */
  predicate Spaced(earlier: Event, later: Event) {
    earlier.pair == later.pair ==> later.at >= earlier.exp || later.at >= I64_MAX
  }

  lemma {:induction false} RunSpaces(a: Account, codec: Pool.Codec, mc: Machine, ops: seq<Op>, e: Event, since: u64)
    requires LegalRun(a, codec, mc, ops, since) && Remembered(mc.stores.seen, e, since)
    ensures forall i :: 0 <= i < |Events(a, codec, mc, ops)| ==> Spaced(e, Events(a, codec, mc, ops)[i])
  {
    var events := Events(a, codec, mc, ops);
    RunRemembers(a, codec, mc, ops, e, since);
    forall i | 0 <= i < |events| ensures Spaced(e, events[i]) {
      StoredLater(e.exp, events[i].at);
    }
  }

  predicate AllSpaced(events: seq<Event>) {
    forall i, j :: 0 <= i < j < |events| ==> Spaced(events[i], events[j])
  }

  lemma SpacedFirst(first: seq<Event>, rest: seq<Event>)
    requires |first| <= 1
    requires first != [] ==> forall i :: 0 <= i < |rest| ==> Spaced(first[0], rest[i])
    requires AllSpaced(rest)
    ensures AllSpaced(first + rest)
  {
  }

  /** At most once: along every run, a pair is not surfaced again before the expiry
      it was recorded with. */
  lemma {:induction false} AtMostOnce(a: Account, codec: Pool.Codec, mc: Machine, ops: seq<Op>, since: u64)
    requires LegalRun(a, codec, mc, ops, since)
    ensures AllSpaced(Events(a, codec, mc, ops))
    decreases |ops|
  {
    if ops != [] {
      var (next, first) := Next(a, codec, mc, ops[0]);
      var since' := TimeAfter(ops[0], since);
      AtMostOnce(a, codec, next, ops[1..], since');
      NextRemembersOwn(a, codec, mc, ops[0], since);
      var rest := Events(a, codec, next, ops[1..]);
      if first != [] {
        RunSpaces(a, codec, next, ops[1..], first[0], since');
      }
      SpacedFirst(first, rest);
    }
  }

  // ---- one-time prekeys ----

  ghost predicate BornsDistinct(mc: Machine) {
    var rows := mc.stores.pool.rows;
    && (forall x, y :: x in rows && y in rows && rows[x].born == rows[y].born ==> x == y)
    && (forall x :: x in rows ==> rows[x].born < mc.nextBorn)
  }

  /** The prekey was generated at some time and its secret is gone. */
  ghost predicate Retired(mc: Machine, born: nat) {
    born < mc.nextBorn && forall x :: x in mc.stores.pool.rows ==> mc.stores.pool.rows[x].born != born
  }

  /** Publishing touches the TXT strings in the rows and nothing else. */
  lemma {:induction false} PublishKeepsRows(st: Pool.State, pool: seq<P.Generated>, i: nat, name: string,
                                            codec: Pool.Codec, ttl: u32, clock: Pool.Clock, writes: nat -> Pool.Write)
    requires i <= |pool|
    ensures var rows := Pool.PublishFrom(st, pool, i, name, codec, ttl, clock, writes).0.rows;
      rows.Keys == st.rows.Keys && forall id :: id in rows ==> rows[id].(wire := "") == st.rows[id].(wire := "")
    decreases |pool| - i
  {
    if i < |pool| && !writes(i).Errored? {
      var st' := Pool.Attempted(st, pool[i], name, codec, ttl, clock(i), writes(i));
      PublishKeepsRows(st', pool, i + 1, name, codec, ttl, clock, writes);
    }
  }

  /** The row under `id` is the one inserted for the `i`th prekey of the pool. */
  ghost predicate FromPool(mc: Machine, op: Op, id: u32, row: P.Row)
    requires op.Refresh?
  {
    exists i :: 0 <= i < |op.pool| && op.pool[i].prekey.id == id && row.born == mc.nextBorn + i
                && row.secret == op.pool[i].secret
  }

  lemma InsertedBorns(codec: Pool.Codec, mc: Machine, op: Op, id: u32)
    requires op.Refresh? && Legal(codec, mc, op, op.now) && id in P.Inserted(mc.stores.pool.rows, op.pool)
    ensures var rows, inserted := mc.stores.pool.rows, P.Inserted(mc.stores.pool.rows, op.pool);
      if id in rows then inserted[id] == rows[id] else FromPool(mc, op, id, inserted[id])
  {
    P.InsertedRows(mc.stores.pool.rows, op.pool);
    if id !in mc.stores.pool.rows {
      var i :| 0 <= i < |op.pool| && op.pool[i].prekey.id == id;
      assert P.Inserted(mc.stores.pool.rows, op.pool)[id] == P.RowOf(op.pool[i]);
    }
  }

  /** The rows after a refresh: the old ones, and one for each new prekey. */
  lemma RefreshedRows(a: Account, codec: Pool.Codec, mc: Machine, op: Op)
    requires op.Refresh? && Legal(codec, mc, op, op.now)
    ensures var rows, rows' := mc.stores.pool.rows, Refreshed(a, codec, mc.stores.pool, op).rows;
      && (forall id :: id in rows ==> id in rows' && rows'[id].(wire := "") == rows[id].(wire := ""))
      && (forall id :: id in rows ==> rows'[id].born == rows[id].born && rows'[id].secret == rows[id].secret)
      && (forall id :: id in rows' && id !in rows ==> FromPool(mc, op, id, rows'[id]))
  {
    var rows := mc.stores.pool.rows;
    var st := mc.stores.pool.(rows := P.Inserted(rows, op.pool));
    P.InsertedRows(rows, op.pool);
    PublishKeepsRows(st, op.pool, 0, a.poolName, codec, op.ttl, op.clock, op.writes);
    var rows' := Refreshed(a, codec, mc.stores.pool, op).rows;
    forall id | id in rows'
      ensures id in st.rows && rows'[id].born == st.rows[id].born && rows'[id].secret == st.rows[id].secret
      ensures rows'[id].(wire := "") == st.rows[id].(wire := "")
      ensures if id in rows then st.rows[id] == rows[id] else FromPool(mc, op, id, st.rows[id])
    {
      assert rows'[id].(wire := "").born == st.rows[id].(wire := "").born;
      assert rows'[id].(wire := "").secret == st.rows[id].(wire := "").secret;
      InsertedBorns(codec, mc, op, id);
    }
  }

  lemma RefreshBorns(a: Account, codec: Pool.Codec, mc: Machine, op: Op)
    requires op.Refresh? && Legal(codec, mc, op, op.now) && BornsDistinct(mc)
    ensures var next := Next(a, codec, mc, op).0;
      BornsDistinct(next) && forall b :: Retired(mc, b) ==> Retired(next, b)
  {
    RefreshedRows(a, codec, mc, op);
    var rows, rows' := mc.stores.pool.rows, Refreshed(a, codec, mc.stores.pool, op).rows;
    forall x, y | x in rows' && y in rows' && rows'[x].born == rows'[y].born ensures x == y {
      if x in rows && rows'[x].born == rows[x].born {
        assert y in rows && rows'[y].born == rows[y].born;
      }
    }
  }

  lemma NextBorns(a: Account, codec: Pool.Codec, mc: Machine, op: Op, since: u64)
    requires Legal(codec, mc, op, since) && BornsDistinct(mc)
    ensures var (next, events) := Next(a, codec, mc, op);
      && BornsDistinct(next)
      && (forall b :: Retired(mc, b) ==> Retired(next, b))
      && |events| <= 1
      && (events != [] && events[0].born.Some? ==>
          !Retired(mc, events[0].born.value) && Retired(next, events[0].born.value))
  {
    match op {
      case Handle(poll, item) =>
        SurfacedAccounted(a, poll, mc.stores, item);
        UnsurfacedLeavesNoTrace(a, poll, mc.stores, item);
      case Refresh(_, _, _, _, _, _) =>
        RefreshBorns(a, codec, mc, op);
      case _ =>
    }
  }

  lemma {:induction false} RetiredStays(a: Account, codec: Pool.Codec, mc: Machine, ops: seq<Op>, since: u64, born: nat)
    requires LegalRun(a, codec, mc, ops, since) && BornsDistinct(mc) && Retired(mc, born)
    ensures forall i :: 0 <= i < |Events(a, codec, mc, ops)| ==> Events(a, codec, mc, ops)[i].born != Some(born)
    decreases |ops|
  {
    if ops != [] {
      NextBorns(a, codec, mc, ops[0], since);
      RetiredStays(a, codec, Next(a, codec, mc, ops[0]).0, ops[1..], TimeAfter(ops[0], since), born);
    }
  }

  predicate SamePrekey(e: Event, f: Event) {
    e.born.Some? && e.born == f.born
  }

  predicate AllDifferent(events: seq<Event>) {
    forall i, j :: 0 <= i < j < |events| ==> !SamePrekey(events[i], events[j])
  }

  lemma DifferentFirst(first: seq<Event>, rest: seq<Event>)
    requires |first| <= 1
    requires first != [] ==> forall i :: 0 <= i < |rest| ==> !SamePrekey(first[0], rest[i])
    requires AllDifferent(rest)
    ensures AllDifferent(first + rest)
  {
  }

  /** No two messages of a run are decrypted with the same generated prekey. */
  lemma {:induction false} OneTimePrekeys(a: Account, codec: Pool.Codec, mc: Machine, ops: seq<Op>, since: u64)
    requires LegalRun(a, codec, mc, ops, since) && BornsDistinct(mc)
    ensures AllDifferent(Events(a, codec, mc, ops))
    decreases |ops|
  {
    if ops != [] {
      var (next, first) := Next(a, codec, mc, ops[0]);
      NextBorns(a, codec, mc, ops[0], since);
      OneTimePrekeys(a, codec, next, ops[1..], TimeAfter(ops[0], since));
      var rest := Events(a, codec, next, ops[1..]);
      if first != [] && first[0].born.Some? {
        RetiredStays(a, codec, next, ops[1..], TimeAfter(ops[0], since), first[0].born.value);
      }
      DifferentFirst(first, rest);
    }
  }

  ghost predicate Generates(op: Op, id: u32) {
    op.Refresh? && exists i :: 0 <= i < |op.pool| && op.pool[i].prekey.id == id
  }

  lemma NextWithoutId(a: Account, codec: Pool.Codec, mc: Machine, op: Op, since: u64, id: u32)
    requires Legal(codec, mc, op, since) && id !in mc.stores.pool.rows && id != NO_PREKEY && !Generates(op, id)
    ensures var (next, events) := Next(a, codec, mc, op);
      id !in next.stores.pool.rows && (events != [] ==> events[0].prekeyId != id) && |events| <= 1
  {
    match op {
      case Handle(poll, item) =>
        SurfacedAccounted(a, poll, mc.stores, item);
        UnsurfacedLeavesNoTrace(a, poll, mc.stores, item);
      case Refresh(_, _, _, _, _, _) =>
        RefreshedRows(a, codec, mc, op);
      case _ =>
    }
  }

  /** Once a prekey id is gone it decrypts nothing until a new pool brings it back. */
  lemma {:induction false} GoneUntilGenerated(a: Account, codec: Pool.Codec, mc: Machine, ops: seq<Op>, since: u64,
                                              id: u32)
    requires LegalRun(a, codec, mc, ops, since) && id !in mc.stores.pool.rows && id != NO_PREKEY
    requires forall i :: 0 <= i < |ops| ==> !Generates(ops[i], id)
    ensures id !in Final(a, codec, mc, ops).stores.pool.rows
    ensures NoneUses(Events(a, codec, mc, ops), id)
    decreases |ops|
  {
    if ops != [] {
      var (next, first) := Next(a, codec, mc, ops[0]);
      NextWithoutId(a, codec, mc, ops[0], since, id);
      GoneUntilGenerated(a, codec, next, ops[1..], TimeAfter(ops[0], since), id);
      EventsStart(a, codec, mc, ops);
      NoneUsesAppends(first, Events(a, codec, next, ops[1..]), id);
    }
  }

  /** None of the messages was decrypted with a prekey of this id. */
  predicate NoneUses(events: seq<Event>, id: u32) {
    forall i :: 0 <= i < |events| ==> events[i].prekeyId != id
  }

  lemma NoneUsesAppends(first: seq<Event>, rest: seq<Event>, id: u32)
    requires |first| <= 1 && (first != [] ==> first[0].prekeyId != id) && NoneUses(rest, id)
    ensures NoneUses(first + rest, id)
  {
  }

  /** The row under `id` is as it was, but for the TXT string in it. */
  ghost predicate SameRow(mc: Machine, mc': Machine, id: u32) {
    var rows, rows' := mc.stores.pool.rows, mc'.stores.pool.rows;
    id in rows && id in rows' && rows'[id].(wire := "") == rows[id].(wire := "")
  }

  lemma NextKeepsRow(a: Account, codec: Pool.Codec, mc: Machine, op: Op, since: u64, id: u32)
    requires Legal(codec, mc, op, since) && id in mc.stores.pool.rows
    requires I64Secs(TimeAfter(op, since)) < mc.stores.pool.rows[id].exp
    requires forall i :: 0 <= i < |Next(a, codec, mc, op).1| ==> Next(a, codec, mc, op).1[i].prekeyId != id
    ensures SameRow(mc, Next(a, codec, mc, op).0, id)
  {
    match op {
      case Handle(poll, item) =>
        SurfacedAccounted(a, poll, mc.stores, item);
        UnsurfacedLeavesNoTrace(a, poll, mc.stores, item);
        var outcome := Step(a, poll, mc.stores, item).1;
        assert outcome.Surfaced? ==> Next(a, codec, mc, op).1[0] == outcome.event;
      case Refresh(_, _, _, _, _, _) =>
        RefreshedRows(a, codec, mc, op);
      case _ =>
    }
  }

  lemma {:induction false} EndNotBefore(a: Account, codec: Pool.Codec, mc: Machine, ops: seq<Op>, since: u64)
    requires LegalRun(a, codec, mc, ops, since)
    ensures since <= EndOf(ops, since)
    decreases |ops|
  {
    if ops != [] {
      EndNotBefore(a, codec, Next(a, codec, mc, ops[0]).0, ops[1..], TimeAfter(ops[0], since));
    }
  }

  lemma EventsStart(a: Account, codec: Pool.Codec, mc: Machine, ops: seq<Op>)
    requires ops != []
    ensures var (next, first) := Next(a, codec, mc, ops[0]);
      Events(a, codec, mc, ops) == first + Events(a, codec, next, ops[1..])
  {
  }

  /** A prekey that no message of the run uses keeps its secret and its expiry until
      that expiry, whatever else happens. */
  lemma {:induction false} UnusedPrekeyStays(a: Account, codec: Pool.Codec, mc: Machine, ops: seq<Op>, since: u64,
                                             id: u32)
    requires LegalRun(a, codec, mc, ops, since) && id in mc.stores.pool.rows
    requires I64Secs(EndOf(ops, since)) < mc.stores.pool.rows[id].exp
    requires forall i :: 0 <= i < |Events(a, codec, mc, ops)| ==> Events(a, codec, mc, ops)[i].prekeyId != id
    ensures SameRow(mc, Final(a, codec, mc, ops), id)
    decreases |ops|
  {
    if ops != [] {
      var (next, first) := Next(a, codec, mc, ops[0]);
      var since' := TimeAfter(ops[0], since);
      var rest := Events(a, codec, next, ops[1..]);
      EndNotBefore(a, codec, next, ops[1..], since');
      EventsStart(a, codec, mc, ops);
      assert forall i :: 0 <= i < |first| ==> first[i] == (first + rest)[i];
      assert forall i :: 0 <= i < |rest| ==> rest[i] == (first + rest)[i + |first|];
      NextKeepsRow(a, codec, mc, ops[0], since, id);
      SameRowExpiry(mc, next, id);
      UnusedPrekeyStays(a, codec, next, ops[1..], since', id);
    }
  }

  lemma SameRowExpiry(mc: Machine, mc': Machine, id: u32)
    requires SameRow(mc, mc', id)
    ensures mc'.stores.pool.rows[id].exp == mc.stores.pool.rows[id].exp
    ensures mc'.stores.pool.rows[id].secret == mc.stores.pool.rows[id].secret
  {
    var row, row' := mc.stores.pool.rows[id], mc'.stores.pool.rows[id];
    assert row.(wire := "").exp == row'.(wire := "").exp && row.(wire := "").secret == row'.(wire := "").secret;
  }

  /** A pair that no message of the run carries is not remembered at its end. */
  lemma {:induction false} UnseenStays(a: Account, codec: Pool.Codec, mc: Machine, ops: seq<Op>, pair: R.Pair)
    requires pair !in mc.stores.seen
    requires forall i :: 0 <= i < |Events(a, codec, mc, ops)| ==> Events(a, codec, mc, ops)[i].pair != pair
    ensures pair !in Final(a, codec, mc, ops).stores.seen
    decreases |ops|
  {
    if ops != [] {
      var (next, first) := Next(a, codec, mc, ops[0]);
      var rest := Events(a, codec, next, ops[1..]);
      EventsStart(a, codec, mc, ops);
      assert forall i :: 0 <= i < |first| ==> first[i] == (first + rest)[i];
      assert forall i :: 0 <= i < |rest| ==> rest[i] == (first + rest)[i + |first|];
      NextUnseen(a, codec, mc, ops[0], pair);
      UnseenStays(a, codec, next, ops[1..], pair);
    }
  }

  lemma NextUnseen(a: Account, codec: Pool.Codec, mc: Machine, op: Op, pair: R.Pair)
    requires pair !in mc.stores.seen
    requires forall i :: 0 <= i < |Next(a, codec, mc, op).1| ==> Next(a, codec, mc, op).1[i].pair != pair
    ensures pair !in Next(a, codec, mc, op).0.stores.seen
  {
    if op.Handle? {
      var (st', outcome) := Step(a, op.poll, mc.stores, op.item);
      SurfacedAccounted(a, op.poll, mc.stores, op.item);
      StepSeen(a, op.poll, mc.stores, op.item);
      assert outcome.Surfaced? ==> Next(a, codec, mc, op).1[0] == outcome.event;
    }
  }

  /** An unsurfaced record adds no row to the replay cache. */
  lemma StepSeen(a: Account, poll: Poll, st: Stores, item: Item)
    ensures var (st', outcome) := Step(a, poll, st, item);
      !outcome.Surfaced? ==> forall pair :: pair in st'.seen ==> pair in st.seen
  {
  }

  /** And surfacing a message makes its prekey id gone. */
  lemma SurfacedConsumes(a: Account, poll: Poll, st: Stores, item: Item)
    requires Step(a, poll, st, item).1.Surfaced?
    ensures var (st', outcome) := Step(a, poll, st, item);
      outcome.event.prekeyId != NO_PREKEY ==>
        && P.Usable(st.pool.rows, outcome.event.prekeyId, poll.now).Some?
        && st'.pool.rows == st.pool.rows - {outcome.event.prekeyId}
  {
    SurfacedAccounted(a, poll, st, item);
  }

  // ---- pool agreement ----

  ghost predicate DeletesWork(op: Op) {
    op.Handle? ==> forall id :: op.poll.deletes(id)
  }

  /** No write of a prekey takes effect while the client is told otherwise. */
  ghost predicate WriterIsPlain(op: Op) {
    op.Refresh? ==> !Pool.Misled(op.pool, 0, op.writes, op.now)
  }

  lemma NextAgrees(a: Account, codec: Pool.Codec, mc: Machine, op: Op, since: u64)
    requires Pool.Lawful(codec) && Legal(codec, mc, op, since) && DeletesWork(op)
    requires Pool.Inv(mc.stores.pool, a.poolName, codec, since)
    ensures Pool.Inv(Next(a, codec, mc, op).0.stores.pool, a.poolName, codec, TimeAfter(op, since)) <==>
      WriterIsPlain(op)
  {
    var st := mc.stores.pool;
    Pool.AgreementLasts(st, a.poolName, codec, since, TimeAfter(op, since));
    match op {
      case Handle(poll, item) =>
        SurfacedAccounted(a, poll, mc.stores, item);
        UnsurfacedLeavesNoTrace(a, poll, mc.stores, item);
        var outcome := Step(a, poll, mc.stores, item).1;
        if outcome.Surfaced? {
          Pool.ConsumeAgrees(st, outcome.event.prekeyId, a.poolName, codec, poll.now);
        }
      case Refresh(now, pool, exp, ttl, clock, writes) =>
        Pool.InsertAgrees(st, pool, exp, mc.nextBorn, a.poolName, codec, now);
        var st' := st.(rows := P.Inserted(st.rows, pool));
        Pool.PublishAgreesIff(st', pool, 0, a.poolName, codec, ttl, clock, now, writes);
      case Cleanup(now) =>
        Pool.CleanupAgrees(st, a.poolName, codec, now);
      case _ =>
    }
  }

  function EndOf(ops: seq<Op>, since: u64): u64
    decreases |ops|
  {
    if ops == [] then since else EndOf(ops[1..], TimeAfter(ops[0], since))
  }

  /** As long as the DNS deletes succeed and no publication is reported as failed that
      took effect, every one of our prekeys that DNS still offers has its private
      half in the store, whatever the client does. */
  lemma {:induction false} PoolAgreesAlongRuns(a: Account, codec: Pool.Codec, mc: Machine, ops: seq<Op>, since: u64)
    requires Pool.Lawful(codec) && LegalRun(a, codec, mc, ops, since)
    requires forall i :: 0 <= i < |ops| ==> DeletesWork(ops[i]) && WriterIsPlain(ops[i])
    requires Pool.Inv(mc.stores.pool, a.poolName, codec, since)
    ensures Pool.Inv(Final(a, codec, mc, ops).stores.pool, a.poolName, codec, EndOf(ops, since))
    decreases |ops|
  {
    if ops != [] {
      NextAgrees(a, codec, mc, ops[0], since);
      PoolAgreesAlongRuns(a, codec, Next(a, codec, mc, ops[0]).0, ops[1..], TimeAfter(ops[0], since));
    }
  }

  // ---- calls ----

  datatype Call = Receive(poll: Poll) | ReceiveViaClaim(poll: Poll, provider: string) | Other(op: Op)

  function ItemsOf(a: Account, call: Call): seq<Item>
    requires !call.Other?
  {
    match call
    case Receive(poll) => MailboxItems(a, poll.reader, Zones(a.domain, poll.contacts))
    case ReceiveViaClaim(poll, provider) => ProviderItems(a, poll.reader, provider, SLOT_COUNT)
  }

  ghost function CallNext(a: Account, codec: Pool.Codec, mc: Machine, call: Call): (Machine, seq<Event>) {
    if call.Other? then Next(a, codec, mc, call.op)
    else
      var pass := Process(a, call.poll, mc.stores, ItemsOf(a, call));
      (mc.(stores := pass.stores), pass.events)
  }

  ghost predicate LegalCalls(a: Account, codec: Pool.Codec, mc: Machine, calls: seq<Call>, since: u64)
    decreases |calls|
  {
    calls != [] ==>
      var time := if calls[0].Other? then TimeAfter(calls[0].op, since) else calls[0].poll.now;
      && since <= time
      && (calls[0].Other? ==> Legal(codec, mc, calls[0].op, since))
      && LegalCalls(a, codec, CallNext(a, codec, mc, calls[0]).0, calls[1..], time)
  }

  ghost function CallsFinal(a: Account, codec: Pool.Codec, mc: Machine, calls: seq<Call>): Machine
    decreases |calls|
  {
    if calls == [] then mc else CallsFinal(a, codec, CallNext(a, codec, mc, calls[0]).0, calls[1..])
  }

  ghost function CallsEvents(a: Account, codec: Pool.Codec, mc: Machine, calls: seq<Call>): seq<Event>
    decreases |calls|
  {
    if calls == [] then []
    else
      var (next, events) := CallNext(a, codec, mc, calls[0]);
      events + CallsEvents(a, codec, next, calls[1..])
  }

  /** The steps a receive call takes: all its records up to a failed read. */
  ghost function StepsOf(a: Account, poll: Poll, st: Stores, items: seq<Item>): seq<Op>
    decreases |items|
  {
    if items == [] then []
    else
      var (st', outcome) := Step(a, poll, st, items[0]);
      [Handle(poll, items[0])] + if outcome.Aborted? then [] else StepsOf(a, poll, st', items[1..])
  }

  lemma {:induction false} PassIsSteps(a: Account, codec: Pool.Codec, mc: Machine, poll: Poll, items: seq<Item>,
                                       since: u64)
    requires since <= poll.now
    ensures var pass := Process(a, poll, mc.stores, items);
            var ops := StepsOf(a, poll, mc.stores, items);
      && Final(a, codec, mc, ops) == mc.(stores := pass.stores)
      && Events(a, codec, mc, ops) == pass.events
      && LegalRun(a, codec, mc, ops, since)
      && EndOf(ops, since) <= poll.now
    decreases |items|
  {
    if items != [] {
      var (st', outcome) := Step(a, poll, mc.stores, items[0]);
      var ops := StepsOf(a, poll, mc.stores, items);
      if outcome.Aborted? {
        assert ops[1..] == [];
      } else {
        var rest := StepsOf(a, poll, st', items[1..]);
        assert ops[1..] == rest;
        PassIsSteps(a, codec, mc.(stores := st'), poll, items[1..], poll.now);
      }
    }
  }

  lemma {:induction false} FinalAppends(a: Account, codec: Pool.Codec, mc: Machine, ops: seq<Op>, more: seq<Op>)
    ensures Final(a, codec, mc, ops + more) == Final(a, codec, Final(a, codec, mc, ops), more)
    ensures Events(a, codec, mc, ops + more)
      == Events(a, codec, mc, ops) + Events(a, codec, Final(a, codec, mc, ops), more)
    decreases |ops|
  {
    if ops == [] {
      assert ops + more == more;
    } else {
      assert (ops + more)[0] == ops[0] && (ops + more)[1..] == ops[1..] + more;
      var (next, first) := Next(a, codec, mc, ops[0]);
      FinalAppends(a, codec, next, ops[1..], more);
      EventsStart(a, codec, mc, ops);
      EventsStart(a, codec, mc, ops + more);
      Associates(first, Events(a, codec, next, ops[1..]), Events(a, codec, Final(a, codec, mc, ops), more));
    }
  }

  lemma {:induction false} LegalAppends(a: Account, codec: Pool.Codec, mc: Machine, ops: seq<Op>, more: seq<Op>,
                                         since: u64)
    ensures LegalRun(a, codec, mc, ops + more, since)
       <==> LegalRun(a, codec, mc, ops, since) && LegalRun(a, codec, Final(a, codec, mc, ops), more, EndOf(ops, since))
    decreases |ops|
  {
    if ops == [] {
      assert ops + more == more;
    } else {
      assert (ops + more)[0] == ops[0] && (ops + more)[1..] == ops[1..] + more;
      LegalAppends(a, codec, Next(a, codec, mc, ops[0]).0, ops[1..], more, TimeAfter(ops[0], since));
    }
  }

  lemma RunAppends(a: Account, codec: Pool.Codec, mc: Machine, ops: seq<Op>, more: seq<Op>, since: u64)
    ensures Final(a, codec, mc, ops + more) == Final(a, codec, Final(a, codec, mc, ops), more)
    ensures Events(a, codec, mc, ops + more)
      == Events(a, codec, mc, ops) + Events(a, codec, Final(a, codec, mc, ops), more)
    ensures LegalRun(a, codec, mc, ops + more, since)
       <==> LegalRun(a, codec, mc, ops, since) && LegalRun(a, codec, Final(a, codec, mc, ops), more, EndOf(ops, since))
  {
    FinalAppends(a, codec, mc, ops, more);
    LegalAppends(a, codec, mc, ops, more, since);
  }

  lemma LegalEarlier(a: Account, codec: Pool.Codec, mc: Machine, ops: seq<Op>, since: u64, since': u64)
    requires LegalRun(a, codec, mc, ops, since') && since <= since'
    ensures LegalRun(a, codec, mc, ops, since)
    decreases |ops|
  {
    if ops != [] {
      LegalEarlier(a, codec, Next(a, codec, mc, ops[0]).0, ops[1..], TimeAfter(ops[0], since),
                   TimeAfter(ops[0], since'));
    }
  }

  ghost function CallSteps(a: Account, mc: Machine, call: Call): seq<Op> {
    if call.Other? then [call.op] else StepsOf(a, call.poll, mc.stores, ItemsOf(a, call))
  }

  ghost function AllSteps(a: Account, codec: Pool.Codec, mc: Machine, calls: seq<Call>): seq<Op>
    decreases |calls|
  {
    if calls == [] then []
    else CallSteps(a, mc, calls[0]) + AllSteps(a, codec, CallNext(a, codec, mc, calls[0]).0, calls[1..])
  }

  lemma CallIsSteps(a: Account, codec: Pool.Codec, mc: Machine, call: Call, since: u64)
    requires call.Other? ==> Legal(codec, mc, call.op, since)
    requires !call.Other? ==> since <= call.poll.now
    ensures var ops := CallSteps(a, mc, call);
      && (Final(a, codec, mc, ops), Events(a, codec, mc, ops)) == CallNext(a, codec, mc, call)
      && LegalRun(a, codec, mc, ops, since)
      && EndOf(ops, since) <= if call.Other? then TimeAfter(call.op, since) else call.poll.now
  {
    if call.Other? {
      assert [call.op][1..] == [];
      assert Events(a, codec, mc, [call.op]) == Next(a, codec, mc, call.op).1;
    } else {
      PassIsSteps(a, codec, mc, call.poll, ItemsOf(a, call), since);
    }
  }

  /** A run of calls is the run of their steps. */
  lemma {:induction false} CallsAreSteps(a: Account, codec: Pool.Codec, mc: Machine, calls: seq<Call>, since: u64)
    requires LegalCalls(a, codec, mc, calls, since)
    ensures var ops := AllSteps(a, codec, mc, calls);
      && LegalRun(a, codec, mc, ops, since)
      && Final(a, codec, mc, ops) == CallsFinal(a, codec, mc, calls)
      && Events(a, codec, mc, ops) == CallsEvents(a, codec, mc, calls)
    decreases |calls|
  {
    if calls != [] {
      var next := CallNext(a, codec, mc, calls[0]).0;
      var time := if calls[0].Other? then TimeAfter(calls[0].op, since) else calls[0].poll.now;
      var ops := CallSteps(a, mc, calls[0]);
      var rest := AllSteps(a, codec, next, calls[1..]);
      CallIsSteps(a, codec, mc, calls[0], since);
      CallsAreSteps(a, codec, next, calls[1..], time);
      LegalEarlier(a, codec, next, rest, EndOf(ops, since), time);
      RunAppends(a, codec, mc, ops, rest, since);
    }
  }

  /** At most once, one-time prekeys: the two together, over runs of whole calls of
      both receive paths in any interleaving. */
  lemma CallsDeliverAtMostOnce(a: Account, codec: Pool.Codec, mc: Machine, calls: seq<Call>, since: u64)
    requires LegalCalls(a, codec, mc, calls, since) && BornsDistinct(mc)
    ensures AllSpaced(CallsEvents(a, codec, mc, calls))
    ensures AllDifferent(CallsEvents(a, codec, mc, calls))
  {
    CallsAreSteps(a, codec, mc, calls, since);
    AtMostOnce(a, codec, mc, AllSteps(a, codec, mc, calls), since);
    OneTimePrekeys(a, codec, mc, AllSteps(a, codec, mc, calls), since);
  }

  // ---- the edges ----

  /** The record announces `pair` and leads to `m`, which decrypts. */
  ghost predicate Decrypts(a: Account, poll: Poll, st: Stores, item: Item, pair: R.Pair, m: Manifest) {
    && !item.Unreadable?
    && Announces(a, poll.now, item) == Some(pair)
    && Locate(a, poll, item, pair).Located? && Locate(a, poll, item, pair).manifest == m
    && Decoded(a, poll.reader, st.pool.rows, m, Locate(a, poll, item, pair).zone, poll.now).Some?
  }

  /** When a record whose message decrypts is surfaced. */
  lemma DecryptedStepIff(a: Account, poll: Poll, st: Stores, item: Item, pair: R.Pair, m: Manifest)
    requires Decrypts(a, poll, st, item, pair, m) && LetIn(a, poll, st, pair.spk)
    ensures var (st', outcome) := Step(a, poll, st, item);
      if pair in R.Purged(st.seen, poll.now) then outcome == Skipped
      else
        outcome.Surfaced?
        && (st', outcome.event) == Commit(a, poll, st.(seen := R.Purged(st.seen, poll.now)), m,
                                          Decoded(a, poll.reader, st.pool.rows, m, Locate(a, poll, item, pair).zone,
                                                  poll.now).value,
                                          !Known(a, poll, pair.spk))
  {
    OpenStep(a, poll, st, item, pair);
  }

  /** The guarantee ends with the expiry that was recorded, and at that very second: a
      manifest is still live then, and its replay row is already purged. A record of
      either path that leads to a message that still decrypts is surfaced a second
      time exactly from that second on; while the manifest is the same, that is at
      that second. */
  lemma RedeliveredIff(a: Account, poll: Poll, st: Stores, item: Item, later: Poll, item': Item, m: Manifest)
    requires Step(a, poll, st, item).1.Surfaced? && poll.now <= later.now
    requires var (st', first) := Step(a, poll, st, item);
      Decrypts(a, later, st', item', first.event.pair, m) && LetIn(a, later, st', first.event.pair.spk)
    ensures var (st', first) := Step(a, poll, st, item);
      && (Step(a, later, st', item').1.Surfaced? <==> later.now >= first.event.exp || later.now >= I64_MAX)
      && (m.exp == first.event.exp ==> later.now <= first.event.exp)
  {
    var (st', first) := Step(a, poll, st, item);
    NowRemembered(a, poll, st, item, later.now);
    DecryptedStepIff(a, later, st', item', first.event.pair, m);
    LocatedMatches(a, later, item');
    StoredLater(first.event.exp, later.now);
  }

  lemma NowRemembered(a: Account, poll: Poll, st: Stores, item: Item, later: u64)
    requires Step(a, poll, st, item).1.Surfaced? && poll.now <= later
    ensures var (st', outcome) := Step(a, poll, st, item);
      outcome.event.pair in R.Purged(st'.seen, later) <==> Later(outcome.event.exp, later)
  {
    SurfacedAccounted(a, poll, st, item);
  }

  /** For instance within a single call at the expiry second: a manifest that uses
      no prekey and is listed twice is returned twice. */
  lemma TwiceAtExpiry(a: Account, poll: Poll, st: Stores, record: string, zone: string, m: Manifest)
    requires MailboxManifest(a, record) == Some(m) && m.exp == poll.now && m.prekeyId == NO_PREKEY
    requires R.Pair(m.spk, m.msgId) !in R.Purged(st.seen, poll.now)
    requires ForInbox(a, poll, m.spk)
    requires Decoded(a, poll.reader, st.pool.rows, m, zone, poll.now).Some?
    ensures var item := SlotRecord(record, zone);
      var msg := Decoded(a, poll.reader, st.pool.rows, m, zone, poll.now).value;
      Inboxed(Process(a, poll, st, [item, item]).events) == [msg, msg]
  {
    var item := SlotRecord(record, zone);
    AgainAtExpiry(a, poll, st, record, zone, m);
    var (st1, first) := Step(a, poll, st, item);
    AgainAtExpiry(a, poll, st1, record, zone, m);
    TwoSteps(a, poll, st, item, item);
    TwoInboxed(first.event, Step(a, poll, st1, item).1.event);
  }

  /** At the expiry second a step leaves everything as it needs to be for the next. */
  lemma AgainAtExpiry(a: Account, poll: Poll, st: Stores, record: string, zone: string, m: Manifest)
    requires MailboxManifest(a, record) == Some(m) && m.exp == poll.now && m.prekeyId == NO_PREKEY
    requires R.Pair(m.spk, m.msgId) !in R.Purged(st.seen, poll.now)
    requires ForInbox(a, poll, m.spk)
    requires Decoded(a, poll.reader, st.pool.rows, m, zone, poll.now).Some?
    ensures var (st', outcome) := Step(a, poll, st, SlotRecord(record, zone));
      && outcome.Surfaced? && outcome.event.route.Inbox?
      && outcome.event.message == Decoded(a, poll.reader, st.pool.rows, m, zone, poll.now).value
      && st'.pool == st.pool && st'.queue == st.queue
      && R.Pair(m.spk, m.msgId) !in R.Purged(st'.seen, poll.now)
  {
    SlotDecrypts(a, poll, st, record, zone, m);
    DecryptedStepIff(a, poll, st, SlotRecord(record, zone), R.Pair(m.spk, m.msgId), m);
  }

  lemma SlotDecrypts(a: Account, poll: Poll, st: Stores, record: string, zone: string, m: Manifest)
    requires MailboxManifest(a, record) == Some(m) && !Expired(m, poll.now)
    requires Decoded(a, poll.reader, st.pool.rows, m, zone, poll.now).Some?
    ensures Decrypts(a, poll, st, SlotRecord(record, zone), R.Pair(m.spk, m.msgId), m)
    ensures Locate(a, poll, SlotRecord(record, zone), R.Pair(m.spk, m.msgId)).zone == zone
  {
  }

  lemma TwoInboxed(e: Event, f: Event)
    requires e.route.Inbox? && f.route.Inbox?
    ensures Inboxed([e, f]) == [e.message, f.message]
  {
    assert [e, f][1..] == [f] && [f][1..] == [];
    assert Inboxed([f]) == [f.message];
  }

  lemma TwoSteps(a: Account, poll: Poll, st: Stores, item: Item, item': Item)
    requires Step(a, poll, st, item).1.Surfaced?
    requires Step(a, poll, Step(a, poll, st, item).0, item').1.Surfaced?
    ensures Process(a, poll, st, [item, item']).events
         == [Step(a, poll, st, item).1.event, Step(a, poll, Step(a, poll, st, item).0, item').1.event]
  {
    var st1 := Step(a, poll, st, item).0;
    StepIsPass(a, poll, st, item);
    StepIsPass(a, poll, st1, item');
    ProcessAppends(a, poll, st, [item], [item']);
    assert [item] + [item'] == [item, item'];
  }

  /** Everything a run surfaces is the message it is recorded as. */
  lemma {:induction false} EventsAreTheirMessages(a: Account, poll: Poll, st: Stores, items: seq<Item>)
    ensures forall e :: e in Process(a, poll, st, items).events ==> e.at == poll.now && PairOf(e.message) == e.pair
    decreases |items|
  {
    if items != [] {
      SurfacedAccounted(a, poll, st, items[0]);
      var (st', outcome) := Step(a, poll, st, items[0]);
      if !outcome.Aborted? {
        EventsAreTheirMessages(a, poll, st', items[1..]);
      }
    }
  }

  function PairOf(msg: InboxMessage): R.Pair {
    R.Pair(msg.spk, msg.msgId)
  }

  lemma {:induction false} InboxedAre(events: seq<Event>)
    ensures forall msg :: msg in Inboxed(events) <==> exists e :: e in events && e.route.Inbox? && e.message == msg
    decreases |events|
  {
    if events != [] {
      InboxedAre(events[1..]);
      assert events == [events[0]] + events[1..];
    }
  }

  /** The message was taken in for the inbox by a call that then failed and so returned
      nothing. */
  ghost predicate Discarded(pass: Pass, e: Event) {
    pass.aborted && e in pass.events && e.route.Inbox?
  }

  /** A failed read discards what the call had gathered. Those messages are recorded as
      seen, and whatever the client does next, no call before their expiry returns
      them. */
  lemma DiscardedStaysDiscarded(a: Account, codec: Pool.Codec, mc: Machine, poll: Poll, items: seq<Item>, e: Event,
                                ops: seq<Op>, later: Poll, items': seq<Item>)
    requires var pass := Process(a, poll, mc.stores, items);
      Discarded(pass, e) && LegalRun(a, codec, mc.(stores := pass.stores), ops, poll.now)
    requires EndOf(ops, poll.now) <= later.now < e.exp && later.now < I64_MAX
    ensures var pass := Process(a, poll, mc.stores, items);
      var st := Final(a, codec, mc.(stores := pass.stores), ops).stores;
      && e.message in Inboxed(pass.events)
      && forall msg :: msg in Inboxed(Process(a, later, st, items').events) ==> PairOf(msg) != PairOf(e.message)
  {
    var pass := Process(a, poll, mc.stores, items);
    var mc' := Final(a, codec, mc.(stores := pass.stores), ops);
    var again := Process(a, later, mc'.stores, items').events;
    InboxedAre(pass.events);
    InboxedAre(again);
    EventsAreTheirMessages(a, poll, mc.stores, items);
    EventsAreTheirMessages(a, later, mc'.stores, items');
    var i :| 0 <= i < |pass.events| && pass.events[i] == e;
    ThenSpaced(a, codec, mc, poll, items, ops, later, items');
    forall f | f in again ensures f.pair != e.pair {
      assert Spaced(e, f);
    }
  }

  /** A call, a run and another call. */
  lemma ThenSpaced(a: Account, codec: Pool.Codec, mc: Machine, poll: Poll, items: seq<Item>, ops: seq<Op>, later: Poll,
                   items': seq<Item>)
    requires LegalRun(a, codec, mc.(stores := Process(a, poll, mc.stores, items).stores), ops, poll.now)
    requires EndOf(ops, poll.now) <= later.now
    ensures var pass := Process(a, poll, mc.stores, items);
      var st := Final(a, codec, mc.(stores := pass.stores), ops).stores;
      forall e, f :: e in pass.events && f in Process(a, later, st, items').events ==> Spaced(e, f)
  {
    var pass := Process(a, poll, mc.stores, items);
    var mid := mc.(stores := pass.stores);
    var mc' := Final(a, codec, mid, ops);
    var first, last := StepsOf(a, poll, mc.stores, items), StepsOf(a, later, mc'.stores, items');
    PassIsSteps(a, codec, mc, poll, items, poll.now);
    PassIsSteps(a, codec, mc', later, items', EndOf(ops, poll.now));
    RunAppends(a, codec, mid, ops, last, poll.now);
    LegalEarlier(a, codec, mid, ops + last, EndOf(first, poll.now), poll.now);
    RunAppends(a, codec, mc, first, ops + last, poll.now);
    AtMostOnce(a, codec, mc, first + (ops + last), poll.now);
    var again := Process(a, later, mc'.stores, items').events;
    EndsSpaced(pass.events, Events(a, codec, mid, ops), again, Events(a, codec, mc, first + (ops + last)));
  }

  lemma EndsSpaced(first: seq<Event>, between: seq<Event>, last: seq<Event>, all: seq<Event>)
    requires all == first + (between + last) && AllSpaced(all)
    ensures forall e, f :: e in first && f in last ==> Spaced(e, f)
  {
    forall e, f | e in first && f in last ensures Spaced(e, f) {
      var i :| 0 <= i < |first| && first[i] == e;
      var j :| 0 <= j < |last| && last[j] == f;
      assert all[i] == e && all[|first| + |between| + j] == f;
    }
  }

  /** For instance a single message, and then a name that cannot be read. */
  lemma FirstThenFail(a: Account, poll: Poll, st: Stores, item: Item)
    requires Step(a, poll, st, item).1.Surfaced?
    ensures var (st', outcome) := Step(a, poll, st, item);
      Process(a, poll, st, [item, Unreadable]) == Pass(st', [outcome.event], true)
  {
    var (st', outcome) := Step(a, poll, st, item);
    StepIsPass(a, poll, st, item);
    StepIsPass(a, poll, st', Unreadable);
    ProcessAppends(a, poll, st, [item], [Unreadable]);
    assert [item] + [Unreadable] == [item, Unreadable];
    assert [outcome.event] + [] == [outcome.event];
  }
}
