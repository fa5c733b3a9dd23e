/**
 What a single step, and a single call, of either receive path keeps: skipped
 records leave no trace, surfaced ones are accounted for exactly.
 */
module DeliverySteps {
  import opened Prelude
  import opened SlotManifest
  import opened Delivery
  import opened Admission
  import R = ReplayCache
  import P = Prekeys
  import Pool = PrekeyPool
  import Q = IntroQueue

  /** Still remembered at `now`: the stored comparison. */
  predicate Later(exp: u64, now: u64) {
    I64Secs(exp) > I64Secs(now)
  }

  lemma PurgedAgain(rows: R.Rows, now: u64, later: u64)
    requires now <= later
    ensures R.Purged(R.Purged(rows, now), later) == R.Purged(rows, later)
  {
  }

  /** The stores as they look to every later step. */
  ghost predicate SameFrom(st: Stores, st': Stores, now: u64) {
    && st'.pool == st.pool
    && st'.queue == st.queue
    && forall later: u64 :: now <= later ==> R.Purged(st'.seen, later) == R.Purged(st.seen, later)
  }

  lemma PurgeIsInvisible(st: Stores, now: u64)
    ensures SameFrom(st, st.(seen := R.Purged(st.seen, now)), now)
  {
    forall later: u64 | now <= later ensures R.Purged(R.Purged(st.seen, now), later) == R.Purged(st.seen, later) {
      PurgedAgain(st.seen, now, later);
    }
  }

  /** A record that is not surfaced, for whatever reason, leaves replay cache,
      prekeys and intro queue as they were, up to rows that had expired. */
  lemma UnsurfacedLeavesNoTrace(a: Account, poll: Poll, st: Stores, item: Item)
    ensures var (st', outcome) := Step(a, poll, st, item);
      !outcome.Surfaced? ==> SameFrom(st, st', poll.now)
  {
    PurgeIsInvisible(st, poll.now);
  }

  /** So a later pass treats every record just as it would have: what was skipped
      for want of a chunk is delivered once the chunk is there. */
  lemma LaterPassUnaffected(a: Account, st: Stores, st': Stores, now: u64, poll: Poll, item: Item)
    requires SameFrom(st, st', now) && now <= poll.now
    ensures Step(a, poll, st', item).1 == Step(a, poll, st, item).1
    ensures SameFrom(Step(a, poll, st, item).0, Step(a, poll, st', item).0, poll.now)
  {
    assert R.Purged(st'.seen, poll.now) == R.Purged(st.seen, poll.now);
    assert st'.(seen := R.Purged(st'.seen, poll.now)) == st.(seen := R.Purged(st.seen, poll.now));
    if Announces(a, poll.now, item).Some? {
      SameAdmission(a, poll, st, st', item, Announces(a, poll.now, item).value);
    }
  }

  lemma SameAdmission(a: Account, poll: Poll, st: Stores, st': Stores, item: Item, pair: R.Pair)
    requires st'.(seen := R.Purged(st'.seen, poll.now)) == st.(seen := R.Purged(st.seen, poll.now))
    ensures forall toQueue :: Admit(a, poll, st', item, pair, toQueue) == Admit(a, poll, st, item, pair, toQueue)
  {
  }

  /** A step on an item that is let in. */
  lemma OpenStep(a: Account, poll: Poll, st: Stores, item: Item, pair: R.Pair)
    requires !item.Unreadable? && Announces(a, poll.now, item) == Some(pair)
    requires LetIn(a, poll, st, pair.spk)
    ensures Step(a, poll, st, item) == Admit(a, poll, st, item, pair, !Known(a, poll, pair.spk))
  {
    VerdictIff(a, poll, st.queue.denied, pair.spk);
  }

  lemma ProcessFirst(a: Account, poll: Poll, st: Stores, items: seq<Item>, e: Event)
    requires items != [] && Step(a, poll, st, items[0]).1 == Surfaced(e)
    ensures Process(a, poll, st, items).events
      == [e] + Process(a, poll, Step(a, poll, st, items[0]).0, items[1..]).events
  {
  }

  /** What a surfaced record has done. */
  ghost predicate Accounted(a: Account, poll: Poll, st: Stores, st': Stores, e: Event) {
    && e.at == poll.now && e.at <= e.exp
    && e.message.spk == e.pair.spk && e.message.msgId == e.pair.msgId
    && e.pair !in R.Purged(st.seen, poll.now)
    && st'.seen == R.Purged(st.seen, poll.now)[e.pair := I64Secs(e.exp)]
    && (e.prekeyId == NO_PREKEY ==> e.born == None && e.opener == None && st'.pool == st.pool)
    && (e.prekeyId != NO_PREKEY ==>
          && P.Usable(st.pool.rows, e.prekeyId, poll.now).Some?
          && e.born == Some(st.pool.rows[e.prekeyId].born)
          && e.opener == Some(st.pool.rows[e.prekeyId].secret)
          && st'.pool == Pool.ConsumeOne(st.pool, e.prekeyId, a.poolName, poll.deletes(e.prekeyId)))
    && (e.route.Inbox? ==> ForInbox(a, poll, e.pair.spk) && st'.queue == st.queue)
    && (e.route.Queue? ==>
          && ForQueue(a, poll, st.queue.denied, e.pair.spk)
          && exists intro :: IntroFor(intro, e) && (st'.queue, e.route.id) == Q.Enqueued(st.queue, intro))
  }

  ghost predicate IntroFor(intro: Q.Intro, e: Event) {
    && Q.PairOf(intro) == e.pair
    && intro.payload == e.message.plaintext && intro.senderLabel == e.message.senderLabel
    && intro.receivedAt == I64Secs(e.at) && intro.expiresAt == I64Secs(e.exp)
  }

  lemma CommitAccounted(a: Account, poll: Poll, st: Stores, zone: string, m: Manifest, toQueue: bool)
    requires Decoded(a, poll.reader, st.pool.rows, m, zone, poll.now).Some? && !Expired(m, poll.now)
    requires R.Pair(m.spk, m.msgId) !in R.Purged(st.seen, poll.now)
    requires toQueue == !Known(a, poll, m.spk) && LetIn(a, poll, st, m.spk)
    ensures var (st', e) := Commit(a, poll, st, m, Decoded(a, poll.reader, st.pool.rows, m, zone, poll.now).value,
                                   toQueue);
      Accounted(a, poll, st, st', e)
  {
    DecodedIsTheManifests(a, poll.reader, st.pool.rows, m, zone, poll.now);
    var msg := Decoded(a, poll.reader, st.pool.rows, m, zone, poll.now).value;
    var (st', e) := Commit(a, poll, st, m, msg, toQueue);
    assert IntroFor(IntroOf(m, msg, poll.now), e);
  }

  lemma SurfacedWasLetIn(a: Account, poll: Poll, st: Stores, item: Item)
    requires Step(a, poll, st, item).1.Surfaced?
    ensures !item.Unreadable? && Announces(a, poll.now, item).Some?
    ensures LetIn(a, poll, st, Announces(a, poll.now, item).value.spk)
  {
    if !item.Unreadable? && Announces(a, poll.now, item).Some? {
      VerdictIff(a, poll, st.queue.denied, Announces(a, poll.now, item).value.spk);
    }
  }

  lemma AdmittedIsCommitted(a: Account, poll: Poll, st: Stores, item: Item, pair: R.Pair, toQueue: bool)
    requires Admit(a, poll, st, item, pair, toQueue).1.Surfaced?
    ensures var (st', outcome) := Admit(a, poll, st, item, pair, toQueue);
      var purged := st.(seen := R.Purged(st.seen, poll.now));
      var target := Locate(a, poll, item, pair);
      && pair !in purged.seen
      && target.Located?
      && var decoded := Decoded(a, poll.reader, purged.pool.rows, target.manifest, target.zone, poll.now);
         decoded.Some? && (st', outcome.event) == Commit(a, poll, purged, target.manifest, decoded.value, toQueue)
  {
  }

  /** The record leads to a message of a sender that is let in, which is new and decrypts. */
  ghost predicate Surfaceable(a: Account, poll: Poll, st: Stores, item: Item) {
    Announces(a, poll.now, item).Some?
    && var pair := Announces(a, poll.now, item).value;
       && LetIn(a, poll, st, pair.spk)
       && pair !in R.Purged(st.seen, poll.now)
       && Locate(a, poll, item, pair).Located?
       && Decoded(a, poll.reader, st.pool.rows, Locate(a, poll, item, pair).manifest,
                  Locate(a, poll, item, pair).zone, poll.now).Some?
  }

  /** Exactly such records are surfaced. */
  lemma SurfacesIff(a: Account, poll: Poll, st: Stores, item: Item)
    ensures Step(a, poll, st, item).1.Surfaced? <==> Surfaceable(a, poll, st, item)
  {
    if Step(a, poll, st, item).1.Surfaced? {
      SurfacedWasLetIn(a, poll, st, item);
      var pair := Announces(a, poll.now, item).value;
      OpenStep(a, poll, st, item, pair);
      AdmittedIsCommitted(a, poll, st, item, pair, !Known(a, poll, pair.spk));
    }
    if Surfaceable(a, poll, st, item) {
      var pair := Announces(a, poll.now, item).value;
      OpenStep(a, poll, st, item, pair);
      AdmitsDecoded(a, poll, st, item, pair, !Known(a, poll, pair.spk));
    }
  }

  lemma AdmitsDecoded(a: Account, poll: Poll, st: Stores, item: Item, pair: R.Pair, toQueue: bool)
    requires pair !in R.Purged(st.seen, poll.now) && Locate(a, poll, item, pair).Located?
    requires Decoded(a, poll.reader, st.pool.rows, Locate(a, poll, item, pair).manifest,
                     Locate(a, poll, item, pair).zone, poll.now).Some?
    ensures Admit(a, poll, st, item, pair, toQueue).1.Surfaced?
  {
  }

  lemma SurfacedAccounted(a: Account, poll: Poll, st: Stores, item: Item)
    ensures var (st', outcome) := Step(a, poll, st, item);
      outcome.Surfaced? ==> Accounted(a, poll, st, st', outcome.event)
  {
    if Step(a, poll, st, item).1.Surfaced? {
      SurfacedWasLetIn(a, poll, st, item);
      var pair := Announces(a, poll.now, item).value;
      var toQueue := !Known(a, poll, pair.spk);
      OpenStep(a, poll, st, item, pair);
      AdmittedIsCommitted(a, poll, st, item, pair, toQueue);
      var target := Locate(a, poll, item, pair);
      LocatedMatches(a, poll, item);
      PurgedAgain(st.seen, poll.now, poll.now);
      CommitAccounted(a, poll, st.(seen := R.Purged(st.seen, poll.now)), target.zone, target.manifest, toQueue);
    }
  }

  // ---- failed reads ----

  /** A read that this item needs fails: its name cannot be read, or the revocation
      check on its sender cannot be made, or, for a new pair of a sender that is let
      in, the slot behind a claim cannot be read. */
  ghost predicate ReadFails(a: Account, poll: Poll, st: Stores, item: Item) {
    || item.Unreadable?
    || match Announces(a, poll.now, item)
       case None => false
       case Some(pair) =>
         || (Checked(a, poll, pair.spk) && Stuck(poll, pair.spk))
         || (LetIn(a, poll, st, pair.spk) && pair !in R.Purged(st.seen, poll.now) && SlotUnreadable(a, poll, item))
  }

  lemma AbortsIff(a: Account, poll: Poll, st: Stores, item: Item)
    ensures Step(a, poll, st, item).1.Aborted? <==> ReadFails(a, poll, st, item)
  {
    if !item.Unreadable? && Announces(a, poll.now, item).Some? {
      var pair := Announces(a, poll.now, item).value;
      VerdictIff(a, poll, st.queue.denied, pair.spk);
      if LetIn(a, poll, st, pair.spk) {
        OpenStep(a, poll, st, item, pair);
        AdmittedAborts(a, poll, st, item, pair, !Known(a, poll, pair.spk));
        UnavailableIff(a, poll, item, pair);
      }
    }
  }

  lemma AdmittedAborts(a: Account, poll: Poll, st: Stores, item: Item, pair: R.Pair, toQueue: bool)
    ensures Admit(a, poll, st, item, pair, toQueue).1.Aborted?
       <==> pair !in R.Purged(st.seen, poll.now) && Locate(a, poll, item, pair).Unavailable?
  {
  }

  /** The call comes to its `i`th item, and a read that it needs fails. */
  ghost predicate FailsAt(a: Account, poll: Poll, st: Stores, items: seq<Item>, i: nat) {
    i < |items|
    && var before := Process(a, poll, st, items[..i]);
       !before.aborted && ReadFails(a, poll, before.stores, items[i])
  }

  /** One more item after a call that has not failed. */
  lemma OneMore(a: Account, poll: Poll, st: Stores, items: seq<Item>, i: nat, before: Pass)
    requires i < |items| && before == Process(a, poll, st, items[..i]) && !before.aborted
    ensures var pass := Process(a, poll, st, items[..i + 1]);
      && (pass.aborted <==> Step(a, poll, before.stores, items[i]).1.Aborted?)
      && (pass.aborted ==> pass.events == before.events)
  {
    var (st', outcome) := Step(a, poll, before.stores, items[i]);
    var one := Pass(st', EventsOf(outcome), outcome.Aborted?);
    StepIsPass(a, poll, before.stores, items[i]);
    PassGrows(a, poll, st, items, i, before.stores, before.events, one);
    assert before.events + [] == before.events;
  }

  /** Where a read fails, the call ends. */
  lemma EndsThere(a: Account, poll: Poll, st: Stores, items: seq<Item>, i: nat)
    requires FailsAt(a, poll, st, items, i)
    ensures Process(a, poll, st, items).aborted
    ensures Process(a, poll, st, items).events == Process(a, poll, st, items[..i]).events
  {
    var before := Process(a, poll, st, items[..i]);
    AbortsIff(a, poll, before.stores, items[i]);
    OneMore(a, poll, st, items, i, before);
    AbortStays(a, poll, st, items[..i + 1], items);
  }

  /** The call goes on up to the `i`th item and not beyond it. */
  lemma FailedHere(a: Account, poll: Poll, st: Stores, items: seq<Item>, i: nat)
    requires i < |items| && !Process(a, poll, st, items[..i]).aborted && Process(a, poll, st, items[..i + 1]).aborted
    ensures FailsAt(a, poll, st, items, i)
  {
    var before := Process(a, poll, st, items[..i]);
    OneMore(a, poll, st, items, i, before);
    AbortsIff(a, poll, before.stores, items[i]);
  }

  lemma {:induction false} FirstTrue(p: nat -> bool, n: nat) returns (i: nat)
    requires !p(0) && p(n)
    ensures i < n && !p(i) && p(i + 1)
  {
    if p(n - 1) {
      i := FirstTrue(p, n - 1);
    } else {
      i := n - 1;
    }
  }

  lemma FailedSomewhere(a: Account, poll: Poll, st: Stores, items: seq<Item>) returns (i: nat)
    requires Process(a, poll, st, items).aborted
    ensures FailsAt(a, poll, st, items, i)
  {
    var p := (k: nat) => k <= |items| && Process(a, poll, st, items[..k]).aborted;
    assert items[..|items|] == items && items[..0] == [];
    i := FirstTrue(p, |items|);
    FailedHere(a, poll, st, items, i);
  }

  /** A call fails exactly if it comes to an item for which a read fails. */
  lemma CallAbortsIff(a: Account, poll: Poll, st: Stores, items: seq<Item>)
    ensures Process(a, poll, st, items).aborted <==> exists i: nat :: FailsAt(a, poll, st, items, i)
  {
    if Process(a, poll, st, items).aborted {
      var i := FailedSomewhere(a, poll, st, items);
    }
    forall i: nat | FailsAt(a, poll, st, items, i) ensures Process(a, poll, st, items).aborted {
      EndsThere(a, poll, st, items, i);
    }
  }

  /** The call returns every inbox message that it recorded as seen. */
  predicate ReturnsAll(pass: Pass) {
    pass.aborted ==> Inboxed(pass.events) == []
  }

  /** What a call records for the inbox is returned, except exactly if a read fails
      at an item after messages for the inbox had been taken in. */
  lemma ReturnsAllIff(a: Account, poll: Poll, st: Stores, items: seq<Item>)
    ensures ReturnsAll(Process(a, poll, st, items))
       <==> !exists i: nat :: FailsAt(a, poll, st, items, i) && Inboxed(Process(a, poll, st, items[..i]).events) != []
  {
    CallAbortsIff(a, poll, st, items);
    forall i: nat | FailsAt(a, poll, st, items, i)
      ensures Process(a, poll, st, items).aborted
      ensures Process(a, poll, st, items).events == Process(a, poll, st, items[..i]).events
    {
      EndsThere(a, poll, st, items, i);
    }
  }

  // ---- remembering ----

  /** Unless its expiry has passed, the event's pair is in the cache. */
  ghost predicate Remembered(seen: R.Rows, e: Event, since: u64) {
    Later(e.exp, since) ==> e.pair in seen && seen[e.pair] == I64Secs(e.exp)
  }

  lemma StepRemembers(a: Account, poll: Poll, st: Stores, item: Item, e: Event, since: u64)
    requires Remembered(st.seen, e, since) && since <= poll.now
    ensures var (st', outcome) := Step(a, poll, st, item);
      && Remembered(st'.seen, e, poll.now)
      && (outcome.Surfaced? ==>
            && Remembered(st'.seen, outcome.event, poll.now)
            && (outcome.event.pair == e.pair ==> !Later(e.exp, poll.now)))
  {
    UnsurfacedLeavesNoTrace(a, poll, st, item);
    SurfacedAccounted(a, poll, st, item);
    assert Later(e.exp, poll.now) ==> e.pair in R.Purged(st.seen, poll.now);
  }

  /** A pair surfaced before is surfaced again by no call that is made before its
      expiry. */
  lemma {:induction false} ProcessRemembers(a: Account, poll: Poll, st: Stores, items: seq<Item>, e: Event, since: u64)
    requires Remembered(st.seen, e, since) && since <= poll.now
    ensures var pass := Process(a, poll, st, items);
      && Remembered(pass.stores.seen, e, if items == [] then since else poll.now)
      && (forall i :: 0 <= i < |pass.events| && pass.events[i].pair == e.pair ==> !Later(e.exp, poll.now))
    decreases |items|
  {
    if items != [] {
      StepRemembers(a, poll, st, items[0], e, since);
      var (st', outcome) := Step(a, poll, st, items[0]);
      if !outcome.Aborted? {
        ProcessRemembers(a, poll, st', items[1..], e, poll.now);
      }
    }
  }

  /** Everything a call surfaces, it surfaces at its own instant. */
  lemma {:induction false} ProcessTimes(a: Account, poll: Poll, st: Stores, items: seq<Item>)
    ensures forall i :: 0 <= i < |Process(a, poll, st, items).events| ==>
      Process(a, poll, st, items).events[i].at == poll.now
    decreases |items|
  {
    if items != [] {
      SurfacedAccounted(a, poll, st, items[0]);
      var (st', outcome) := Step(a, poll, st, items[0]);
      if !outcome.Aborted? {
        ProcessTimes(a, poll, st', items[1..]);
      }
    }
  }

  // ---- conservation over one call ----

  /** Pairs surfaced by the events that are still remembered at `now`. */
  ghost predicate LiveEvent(events: seq<Event>, pair: R.Pair, now: u64) {
    exists i :: 0 <= i < |events| && events[i].pair == pair && Later(events[i].exp, now)
  }

  ghost predicate QueuedBy(events: seq<Event>, pair: R.Pair) {
    exists i :: 0 <= i < |events| && events[i].pair == pair && events[i].route.Queue? && events[i].route.id.Some?
  }

  /** What the seen pairs, the queue and the events of a call have to do with each
      other. */
  ghost predicate Conserved(a: Account, poll: Poll, st: Stores, pass: Pass) {
    && (forall pair :: pair in R.Purged(pass.stores.seen, poll.now) <==>
          pair in R.Purged(st.seen, poll.now) || LiveEvent(pass.events, pair, poll.now))
    && (forall i :: 0 <= i < |pass.events| ==> pass.events[i].pair !in R.Purged(st.seen, poll.now))
    && (forall i, j :: 0 <= i < j < |pass.events| && pass.events[i].pair == pass.events[j].pair ==>
        !Later(pass.events[i].exp, poll.now))
    && (forall pair :: pair in Q.Pending(pass.stores.queue) <==>
        pair in Q.Pending(st.queue) || QueuedBy(pass.events, pair))
    && (forall id :: id in st.queue.rows ==>
        id in pass.stores.queue.rows && pass.stores.queue.rows[id] == st.queue.rows[id])
    && pass.stores.queue.denied == st.queue.denied
    && (forall i :: 0 <= i < |pass.events| ==> Routed(a, poll, st, pass, pass.events[i]))
  }

  /** Where one event went. */
  ghost predicate Routed(a: Account, poll: Poll, st: Stores, pass: Pass, e: Event) {
    && (e.route.Inbox? <==> Known(a, poll, e.pair.spk))
    && (e.route.Inbox? ==> ForInbox(a, poll, e.pair.spk))
    && (e.route.Queue? ==> e.pair.spk !in st.queue.denied && e.pair in Q.Pending(pass.stores.queue))
    && (e.route.Queue? && e.route.id.Some? ==>
          e.route.id.value in pass.stores.queue.rows && IntroFor(pass.stores.queue.rows[e.route.id.value], e))
  }

  lemma NothingConserved(a: Account, poll: Poll, st: Stores, st': Stores, aborted: bool)
    requires SameFrom(st, st', poll.now)
    ensures Conserved(a, poll, st, Pass(st', [], aborted))
  {
    assert R.Purged(st'.seen, poll.now) == R.Purged(st.seen, poll.now);
  }

  lemma EnqueuedRows(q: Q.Queue, intro: Q.Intro)
    requires Q.WellFormed(q)
    ensures var (q', id) := Q.Enqueued(q, intro);
      && Q.WellFormed(q') && q'.denied == q.denied
      && (forall k :: k in q.rows ==> k in q'.rows && q'.rows[k] == q.rows[k])
      && (id.Some? ==> id.value in q'.rows && q'.rows[id.value] == intro)
      && Q.Pending(q') == Q.Pending(q) + (if id.Some? then {Q.PairOf(intro)} else {})
      && (intro.spk !in q.denied ==> Q.PairOf(intro) in Q.Pending(q'))
  {
    Q.EnqueueKeepsPairsDistinct(q, intro);
  }

  lemma StepQueue(a: Account, poll: Poll, st: Stores, st': Stores, e: Event)
    requires Accounted(a, poll, st, st', e) && Q.WellFormed(st.queue)
    ensures Q.WellFormed(st'.queue) && st'.queue.denied == st.queue.denied
    ensures forall k :: k in st.queue.rows ==> k in st'.queue.rows && st'.queue.rows[k] == st.queue.rows[k]
    ensures e.route.Queue? ==> e.pair in Q.Pending(st'.queue)
    ensures e.route.Queue? && e.route.id.Some? ==>
      e.route.id.value in st'.queue.rows && IntroFor(st'.queue.rows[e.route.id.value], e)
    ensures Q.Pending(st'.queue) == Q.Pending(st.queue) + (if e.route.Queue? && e.route.id.Some? then {e.pair} else {})
  {
    if e.route.Queue? {
      var intro :| IntroFor(intro, e) && (st'.queue, e.route.id) == Q.Enqueued(st.queue, intro);
      EnqueuedRows(st.queue, intro);
    }
  }

  lemma StepKeepsQueueWellFormed(a: Account, poll: Poll, st: Stores, item: Item)
    requires Q.WellFormed(st.queue)
    ensures Q.WellFormed(Step(a, poll, st, item).0.queue)
  {
    UnsurfacedLeavesNoTrace(a, poll, st, item);
    SurfacedAccounted(a, poll, st, item);
    var (st', outcome) := Step(a, poll, st, item);
    if outcome.Surfaced? {
      StepQueue(a, poll, st, st', outcome.event);
    }
  }

  lemma ConservedSkip(a: Account, poll: Poll, st: Stores, st': Stores, pass: Pass)
    requires SameFrom(st, st', poll.now) && Conserved(a, poll, st', pass)
    ensures Conserved(a, poll, st, pass)
  {
    assert R.Purged(st'.seen, poll.now) == R.Purged(st.seen, poll.now);
    forall i | 0 <= i < |pass.events| ensures Routed(a, poll, st, pass, pass.events[i]) {
      assert Routed(a, poll, st', pass, pass.events[i]);
    }
  }

  lemma LiveEventFirst(e: Event, events: seq<Event>, pair: R.Pair, now: u64)
    ensures LiveEvent([e] + events, pair, now) <==>
      (e.pair == pair && Later(e.exp, now)) || LiveEvent(events, pair, now)
    ensures QueuedBy([e] + events, pair) <==>
      (e.pair == pair && e.route.Queue? && e.route.id.Some?) || QueuedBy(events, pair)
  {
    var all := [e] + events;
    assert all[0] == e;
    forall i | 0 <= i < |events| ensures all[i + 1] == events[i] {
    }
    if i :| 0 <= i < |events| && events[i].pair == pair && Later(events[i].exp, now) {
      assert all[i + 1].pair == pair && Later(all[i + 1].exp, now);
    }
    if i :| 0 <= i < |events| && events[i].pair == pair && events[i].route.Queue? && events[i].route.id.Some? {
      assert all[i + 1].pair == pair && all[i + 1].route.Queue? && all[i + 1].route.id.Some?;
    }
    if i :| 0 <= i < |all| && all[i].pair == pair && Later(all[i].exp, now) {
      assert i > 0 ==> events[i - 1] == all[i];
    }
    if i :| 0 <= i < |all| && all[i].pair == pair && all[i].route.Queue? && all[i].route.id.Some? {
      assert i > 0 ==> events[i - 1] == all[i];
    }
  }

  lemma ConservedSeen(a: Account, poll: Poll, st: Stores, st': Stores, e: Event, rest: Pass)
    requires Accounted(a, poll, st, st', e) && Conserved(a, poll, st', rest)
    ensures forall pair :: pair in R.Purged(rest.stores.seen, poll.now) <==>
      pair in R.Purged(st.seen, poll.now) || LiveEvent([e] + rest.events, pair, poll.now)
    ensures forall i :: 0 <= i < |rest.events| ==> rest.events[i].pair !in R.Purged(st.seen, poll.now)
    ensures forall i :: 0 <= i < |rest.events| && rest.events[i].pair == e.pair ==> !Later(e.exp, poll.now)
  {
    var before := R.Purged(st.seen, poll.now);
    var after := R.Purged(st'.seen, poll.now);
    assert forall pair :: pair in after <==> pair in before || (pair == e.pair && Later(e.exp, poll.now));
    forall pair ensures pair in R.Purged(rest.stores.seen, poll.now) <==>
      pair in before || LiveEvent([e] + rest.events, pair, poll.now) {
      LiveEventFirst(e, rest.events, pair, poll.now);
    }
  }

  lemma ConservedQueue(a: Account, poll: Poll, st: Stores, st': Stores, e: Event, rest: Pass)
    requires Accounted(a, poll, st, st', e) && Conserved(a, poll, st', rest) && Q.WellFormed(st.queue)
    ensures forall pair :: pair in Q.Pending(rest.stores.queue) <==>
      pair in Q.Pending(st.queue) || QueuedBy([e] + rest.events, pair)
    ensures forall id :: id in st.queue.rows ==>
      id in rest.stores.queue.rows && rest.stores.queue.rows[id] == st.queue.rows[id]
    ensures rest.stores.queue.denied == st.queue.denied
    ensures Routed(a, poll, st, rest, e)
    ensures forall i :: 0 <= i < |rest.events| ==> Routed(a, poll, st, rest, rest.events[i])
  {
    StepQueue(a, poll, st, st', e);
    forall pair ensures pair in Q.Pending(rest.stores.queue) <==>
      pair in Q.Pending(st.queue) || QueuedBy([e] + rest.events, pair) {
      LiveEventFirst(e, rest.events, pair, poll.now);
    }
    forall i | 0 <= i < |rest.events| ensures Routed(a, poll, st, rest, rest.events[i]) {
      assert Routed(a, poll, st', rest, rest.events[i]);
    }
  }

  /** Conservation. The pairs a call makes the cache remember are exactly the pairs
      of the messages it decrypted, none of which was remembered before; each of
      those went to the inbox, became a new intro row, or found its pair pending
      already. Only trusted senders reach the inbox. Nothing is dropped from the
      queue or the denylist. */
  lemma {:induction false} Conservation(a: Account, poll: Poll, st: Stores, items: seq<Item>)
    requires Q.WellFormed(st.queue)
    ensures Conserved(a, poll, st, Process(a, poll, st, items))
    decreases |items|
  {
    if items == [] {
      NothingConserved(a, poll, st, st, false);
    } else {
      var (st', outcome) := Step(a, poll, st, items[0]);
      UnsurfacedLeavesNoTrace(a, poll, st, items[0]);
      SurfacedAccounted(a, poll, st, items[0]);
      StepKeepsQueueWellFormed(a, poll, st, items[0]);
      match outcome {
        case Aborted =>
          NothingConserved(a, poll, st, st', true);
        case Skipped =>
          Conservation(a, poll, st', items[1..]);
          ConservedSkip(a, poll, st, st', Process(a, poll, st', items[1..]));
        case Surfaced(e) =>
          Conservation(a, poll, st', items[1..]);
          var rest := Process(a, poll, st', items[1..]);
          ConservedSeen(a, poll, st, st', e, rest);
          ConservedQueue(a, poll, st, st', e, rest);
          ConservedFirst(a, poll, st, e, rest);
      }
    }
  }

  lemma ConservedFirst(a: Account, poll: Poll, st: Stores, e: Event, rest: Pass)
    requires forall pair :: pair in R.Purged(rest.stores.seen, poll.now) <==>
      pair in R.Purged(st.seen, poll.now) || LiveEvent([e] + rest.events, pair, poll.now)
    requires e.pair !in R.Purged(st.seen, poll.now)
    requires forall i :: 0 <= i < |rest.events| ==> rest.events[i].pair !in R.Purged(st.seen, poll.now)
    requires forall i :: 0 <= i < |rest.events| && rest.events[i].pair == e.pair ==> !Later(e.exp, poll.now)
    requires forall i, j :: 0 <= i < j < |rest.events| && rest.events[i].pair == rest.events[j].pair ==>
      !Later(rest.events[i].exp, poll.now)
    requires forall pair :: pair in Q.Pending(rest.stores.queue) <==>
      pair in Q.Pending(st.queue) || QueuedBy([e] + rest.events, pair)
    requires forall id :: id in st.queue.rows ==>
      id in rest.stores.queue.rows && rest.stores.queue.rows[id] == st.queue.rows[id]
    requires rest.stores.queue.denied == st.queue.denied
    requires Routed(a, poll, st, rest, e)
    requires forall i :: 0 <= i < |rest.events| ==> Routed(a, poll, st, rest, rest.events[i])
    ensures Conserved(a, poll, st, rest.(events := [e] + rest.events))
  {
    var pass := rest.(events := [e] + rest.events);
    forall i | 0 <= i < |pass.events| ensures Routed(a, poll, st, pass, pass.events[i]) {
      if i > 0 {
        assert Routed(a, poll, st, rest, rest.events[i - 1]);
      }
    }
  }
}
