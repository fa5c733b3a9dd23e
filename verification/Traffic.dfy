/**
 A message among any other traffic, on either receive path: how often one call
 surfaces it, at any time, whatever else the call comes across.
 */
module Traffic {
  import opened Prelude
  import opened SlotManifest
  import opened Delivery
  import opened Admission
  import opened DeliverySteps
  import opened EndToEnd
  import R = ReplayCache
  import Q = IntroQueue

  /** Wherever the manifest is found, its message opens exactly if enough chunks are
      left and the key it was sealed for is held. */
  ghost predicate DecodesIff(a: Account, poll: Poll, m: Manifest, zone: string, enough: bool, sealedTo: Key32,
                             msg: InboxMessage)
  {
    forall rows :: Decoded(a, poll.reader, rows, m, zone, poll.now)
                == if enough && HoldsSecret(a, rows, m, sealedTo, poll.now) then Some(msg) else None
  }

  /** An item that leads to the message. */
  ghost predicate LeadsTo(a: Account, poll: Poll, item: Item, m: Manifest, enough: bool, sealedTo: Key32,
                          msg: InboxMessage)
  {
    var pair := R.Pair(m.spk, m.msgId);
    && Announces(a, poll.now, item) == Some(pair)
    && Locate(a, poll, item, pair).Located?
    && Locate(a, poll, item, pair).manifest == m
    && DecodesIff(a, poll, m, Locate(a, poll, item, pair).zone, enough, sealedTo, msg)
  }

  ghost predicate AllLeadOrHarmless(a: Account, poll: Poll, denied: map<Key32, Q.Denial>, items: seq<Item>, m: Manifest,
                                    enough: bool, sealedTo: Key32, msg: InboxMessage) {
    forall i :: 0 <= i < |items| ==>
      LeadsTo(a, poll, items[i], m, enough, sealedTo, msg) || Harmless(a, poll, denied, items[i], m)
  }

  /** How many of the items announce the pair. */
  function Announcements(a: Account, now: u64, items: seq<Item>, pair: R.Pair): nat
    decreases |items|
  {
    if items == [] then 0
    else (if Announces(a, now, items[0]) == Some(pair) then 1 else 0) + Announcements(a, now, items[1..], pair)
  }

  /** The message cannot be surfaced from these stores: its pair is remembered, or it
      does not open. */
  ghost predicate Closed(a: Account, poll: Poll, st: Stores, m: Manifest, enough: bool, sealedTo: Key32) {
    || R.Pair(m.spk, m.msgId) in R.Purged(st.seen, poll.now)
    || !enough
    || !HoldsSecret(a, st.pool.rows, m, sealedTo, poll.now)
  }

  /** Surfacing the message does not close it: there is no prekey to use up, and at its
      expiry second the replay cache keeps no row. */
  predicate StaysOpen(m: Manifest, now: u64) {
    m.prekeyId == NO_PREKEY && !Later(m.exp, now)
  }

  /** How often a message is surfaced that is announced `k` times. */
  function Deliveries(closed: bool, staysOpen: bool, k: nat): nat {
    if closed then 0 else if staysOpen || k == 0 then k else 1
  }

  /** The events about the pair are `n` copies of the message. */
  ghost predicate Copied(events: seq<Event>, pair: R.Pair, n: nat, msg: InboxMessage) {
    var mine := Mine(events, pair);
    |mine| == n && forall i :: 0 <= i < n ==> mine[i].message == msg
  }

  lemma AdmitLeading(a: Account, poll: Poll, st: Stores, item: Item, m: Manifest, enough: bool, sealedTo: Key32,
                     msg: InboxMessage, toQueue: bool)
    requires LeadsTo(a, poll, item, m, enough, sealedTo, msg)
    ensures var pair := R.Pair(m.spk, m.msgId);
      var outcome := Admit(a, poll, st, item, pair, toQueue).1;
      if Closed(a, poll, st, m, enough, sealedTo) then outcome.Skipped?
      else
        && outcome.Surfaced? && outcome.event.pair == pair && outcome.event.message == msg
        && outcome.event.exp == m.exp && outcome.event.prekeyId == m.prekeyId
  {
  }

  lemma LeadingStep(a: Account, poll: Poll, st: Stores, item: Item, m: Manifest, enough: bool, sealedTo: Key32,
                    msg: InboxMessage)
    requires LeadsTo(a, poll, item, m, enough, sealedTo, msg) && LetIn(a, poll, st, m.spk)
    ensures var outcome := Step(a, poll, st, item).1;
      if Closed(a, poll, st, m, enough, sealedTo) then outcome.Skipped?
      else
        && outcome.Surfaced? && outcome.event.pair == R.Pair(m.spk, m.msgId) && outcome.event.message == msg
        && outcome.event.exp == m.exp && outcome.event.prekeyId == m.prekeyId
  {
    OpenStep(a, poll, st, item, R.Pair(m.spk, m.msgId));
    AdmitLeading(a, poll, st, item, m, enough, sealedTo, msg, !Known(a, poll, m.spk));
  }

  lemma SkippedStaysClosed(a: Account, poll: Poll, st: Stores, st': Stores, m: Manifest, enough: bool, sealedTo: Key32)
    requires SameFrom(st, st', poll.now)
    ensures Closed(a, poll, st', m, enough, sealedTo) <==> Closed(a, poll, st, m, enough, sealedTo)
  {
    assert R.Purged(st'.seen, poll.now) == R.Purged(st.seen, poll.now);
  }

  /** Surfacing the message closes it, with the one exception. */
  lemma SurfacedCloses(a: Account, poll: Poll, st: Stores, st': Stores, e: Event, m: Manifest, enough: bool,
                       sealedTo: Key32)
    requires Accounted(a, poll, st, st', e) && !Closed(a, poll, st, m, enough, sealedTo)
    requires e.pair == R.Pair(m.spk, m.msgId) && e.exp == m.exp && e.prekeyId == m.prekeyId
    ensures Closed(a, poll, st', m, enough, sealedTo) <==> !StaysOpen(m, poll.now)
  {
  }

  /** Other traffic neither closes a message nor opens it. */
  lemma HarmlessKeepsClosed(a: Account, poll: Poll, st: Stores, item: Item, m: Manifest, enough: bool, sealedTo: Key32)
    requires Harmless(a, poll, st.queue.denied, item, m)
    ensures Closed(a, poll, Step(a, poll, st, item).0, m, enough, sealedTo) <==>
      Closed(a, poll, st, m, enough, sealedTo)
  {
    var (st', outcome) := Step(a, poll, st, item);
    HarmlessStep(a, poll, st, item, m);
    if outcome.Surfaced? {
      SurfacedAccounted(a, poll, st, item);
      StepShape(a, poll, st, item);
      SurfacedAnnounced(a, poll, st, item);
      OtherKeepsClosed(a, poll, st, st', outcome.event, m, enough, sealedTo);
    } else {
      UnsurfacedLeavesNoTrace(a, poll, st, item);
      SkippedStaysClosed(a, poll, st, st', m, enough, sealedTo);
    }
  }

  lemma OtherKeepsClosed(a: Account, poll: Poll, st: Stores, st': Stores, e: Event, m: Manifest, enough: bool,
                         sealedTo: Key32)
    requires Accounted(a, poll, st, st', e) && e.pair != R.Pair(m.spk, m.msgId)
    requires m.prekeyId == NO_PREKEY || e.prekeyId != m.prekeyId
    ensures Closed(a, poll, st', m, enough, sealedTo) <==> Closed(a, poll, st, m, enough, sealedTo)
  {
    var pair := R.Pair(m.spk, m.msgId);
    assert pair in R.Purged(st'.seen, poll.now) <==> pair in R.Purged(st.seen, poll.now);
    assert SecretFor(a.seed, st'.pool.rows, m.prekeyId, poll.now)
      == SecretFor(a.seed, st.pool.rows, m.prekeyId, poll.now);
  }

  /** What one item does to the message's prospects. */
  lemma FirstItem(a: Account, poll: Poll, st: Stores, items: seq<Item>, m: Manifest, enough: bool, sealedTo: Key32,
                  msg: InboxMessage)
    requires items != [] && AllLeadOrHarmless(a, poll, st.queue.denied, items, m, enough, sealedTo, msg)
    requires LetIn(a, poll, st, m.spk)
    ensures var pair := R.Pair(m.spk, m.msgId);
      var (st', outcome) := Step(a, poll, st, items[0]);
      var (closed, closed') := (Closed(a, poll, st, m, enough, sealedTo), Closed(a, poll, st', m, enough, sealedTo));
      && !outcome.Aborted?
      && (if Announces(a, poll.now, items[0]) != Some(pair)
          then (outcome.Surfaced? ==> outcome.event.pair != pair) && closed' == closed
          else if closed then outcome.Skipped? && closed'
          else outcome.Surfaced? && outcome.event.pair == pair && outcome.event.message == msg
               && closed' == !StaysOpen(m, poll.now))
  {
    var st' := Step(a, poll, st, items[0]).0;
    if LeadsTo(a, poll, items[0], m, enough, sealedTo, msg) {
      LeadingStep(a, poll, st, items[0], m, enough, sealedTo, msg);
      if Closed(a, poll, st, m, enough, sealedTo) {
        UnsurfacedLeavesNoTrace(a, poll, st, items[0]);
        SkippedStaysClosed(a, poll, st, st', m, enough, sealedTo);
      } else {
        SurfacedAccounted(a, poll, st, items[0]);
        SurfacedCloses(a, poll, st, st', Step(a, poll, st, items[0]).1.event, m, enough, sealedTo);
      }
    } else {
      HarmlessStep(a, poll, st, items[0], m);
      HarmlessKeepsClosed(a, poll, st, items[0], m, enough, sealedTo);
    }
  }

  lemma CopiedFirst(first: seq<Event>, rest: seq<Event>, pair: R.Pair, n: nat, msg: InboxMessage)
    requires Copied(rest, pair, n, msg) && |first| <= 1
    requires first != [] && first[0].pair == pair ==> first[0].message == msg
    ensures Copied(first + rest, pair, if first != [] && first[0].pair == pair then n + 1 else n, msg)
  {
    if first != [] {
      assert first == [first[0]];
      MineFirst(first[0], rest, pair);
    } else {
      assert first + rest == rest;
    }
  }

  /** How often a call surfaces a message among any other traffic, at any time: never,
      if it cannot be opened or is remembered; otherwise once if it is announced at
      all, and as often as it is announced if it stays open. */
  lemma {:induction false} SurfacedAsOften(a: Account, poll: Poll, st: Stores, items: seq<Item>, m: Manifest,
                                           enough: bool,
                                           sealedTo: Key32, msg: InboxMessage)
    requires AllLeadOrHarmless(a, poll, st.queue.denied, items, m, enough, sealedTo, msg)
    requires LetIn(a, poll, st, m.spk)
    ensures var pair := R.Pair(m.spk, m.msgId);
      var pass := Process(a, poll, st, items);
      var n := Deliveries(Closed(a, poll, st, m, enough, sealedTo), StaysOpen(m, poll.now),
                          Announcements(a, poll.now, items, pair));
      !pass.aborted && Copied(pass.events, pair, n, msg)
    decreases |items|
  {
    if items != [] {
      var pair := R.Pair(m.spk, m.msgId);
      var (st', outcome) := Step(a, poll, st, items[0]);
      FirstItem(a, poll, st, items, m, enough, sealedTo, msg);
      StepKeepsDenied(a, poll, st, items[0]);
      SurfacedAsOften(a, poll, st', items[1..], m, enough, sealedTo, msg);
      ProcessStarts(a, poll, st, items);
      var n := Deliveries(Closed(a, poll, st', m, enough, sealedTo), StaysOpen(m, poll.now),
                          Announcements(a, poll.now, items[1..], pair));
      CopiedFirst(EventsOf(outcome), Process(a, poll, st', items[1..]).events, pair, n, msg);
    }
  }

  lemma {:induction false} SomeAnnouncement(a: Account, now: u64, items: seq<Item>, pair: R.Pair, item: Item)
    requires item in items && Announces(a, now, item) == Some(pair)
    ensures Announcements(a, now, items, pair) > 0
    decreases |items|
  {
    if Announces(a, now, items[0]) != Some(pair) {
      assert items == [items[0]] + items[1..];
      SomeAnnouncement(a, now, items[1..], pair, item);
    }
  }

  /** Every event of a call was announced by one of its items. */
  lemma {:induction false} EventsAnnounced(a: Account, poll: Poll, st: Stores, items: seq<Item>, pair: R.Pair,
                                           live: bool)
    requires SameAnnouncements(a, poll.now, items, pair, live)
    ensures Mine(Process(a, poll, st, items).events, pair) == Process(a, poll, st, items).events
    decreases |items|
  {
    if items != [] {
      var (st', outcome) := Step(a, poll, st, items[0]);
      if outcome.Surfaced? {
        SurfacedAnnounced(a, poll, st, items[0]);
      }
      if !outcome.Aborted? {
        EventsAnnounced(a, poll, st', items[1..], pair, live);
        if outcome.Surfaced? {
          MineFirst(outcome.event, Process(a, poll, st', items[1..]).events, pair);
        }
      }
    }
  }

  lemma {:induction false} MineAreMine(events: seq<Event>, pair: R.Pair)
    ensures forall i :: 0 <= i < |Mine(events, pair)| ==> Mine(events, pair)[i].pair == pair
    decreases |events|
  {
    if events != [] {
      MineAreMine(events[1..], pair);
    }
  }

  // ---- nothing but one message ----

  /** `n` events, all of them the message. */
  ghost predicate Yields(events: seq<Event>, n: nat, pair: R.Pair, msg: InboxMessage) {
    |events| == n && forall i :: 0 <= i < n ==> events[i].pair == pair && events[i].message == msg
  }

  /** The item leads to the message, or, if the message has expired, announces nothing. */
  ghost predicate AboutItOrSilent(a: Account, poll: Poll, denied: map<Key32, Q.Denial>, item: Item, m: Manifest,
                                  enough: bool, sealedTo: Key32, msg: InboxMessage, live: bool)
  {
    if live then LeadsTo(a, poll, item, m, enough, sealedTo, msg)
    else Announces(a, poll.now, item) == None && Harmless(a, poll, denied, item, m)
  }

  ghost predicate AboutNothingElse(a: Account, poll: Poll, denied: map<Key32, Q.Denial>, items: seq<Item>, m: Manifest,
                                   enough: bool, sealedTo: Key32, msg: InboxMessage, live: bool)
  {
    forall i :: 0 <= i < |items| ==> AboutItOrSilent(a, poll, denied, items[i], m, enough, sealedTo, msg, live)
  }

  /** All items announce the pair, or none announces anything. */
  predicate SameAnnouncements(a: Account, now: u64, items: seq<Item>, pair: R.Pair, live: bool) {
    forall i :: 0 <= i < |items| ==> Announces(a, now, items[i]) == if live then Some(pair) else None
  }

  lemma AnnouncementsOfOne(a: Account, poll: Poll, denied: map<Key32, Q.Denial>, items: seq<Item>, m: Manifest,
                           enough: bool, sealedTo: Key32, msg: InboxMessage, live: bool)
    requires AboutNothingElse(a, poll, denied, items, m, enough, sealedTo, msg, live)
    ensures SameAnnouncements(a, poll.now, items, R.Pair(m.spk, m.msgId), live)
    ensures AllLeadOrHarmless(a, poll, denied, items, m, enough, sealedTo, msg)
  {
    forall i | 0 <= i < |items|
      ensures Announces(a, poll.now, items[i]) == if live then Some(R.Pair(m.spk, m.msgId)) else None
      ensures LeadsTo(a, poll, items[i], m, enough, sealedTo, msg) || Harmless(a, poll, denied, items[i], m)
    {
      assert AboutItOrSilent(a, poll, denied, items[i], m, enough, sealedTo, msg, live);
    }
  }

  lemma {:induction false} CountAnnouncements(a: Account, now: u64, items: seq<Item>, pair: R.Pair, live: bool)
    requires SameAnnouncements(a, now, items, pair, live)
    ensures Announcements(a, now, items, pair) == if live then |items| else 0
    decreases |items|
  {
    if items != [] {
      CountAnnouncements(a, now, items[1..], pair, live);
    }
  }

  /** A call that comes across nothing but one message surfaces nothing else. */
  lemma NothingElse(a: Account, poll: Poll, st: Stores, items: seq<Item>, m: Manifest, enough: bool, sealedTo: Key32,
                    msg: InboxMessage, live: bool)
    requires AboutNothingElse(a, poll, st.queue.denied, items, m, enough, sealedTo, msg, live)
    requires LetIn(a, poll, st, m.spk)
    ensures var pass := Process(a, poll, st, items);
      var k := if live then |items| else 0;
      var n := Deliveries(Closed(a, poll, st, m, enough, sealedTo), StaysOpen(m, poll.now), k);
      !pass.aborted && Yields(pass.events, n, R.Pair(m.spk, m.msgId), msg)
  {
    var pair := R.Pair(m.spk, m.msgId);
    AnnouncementsOfOne(a, poll, st.queue.denied, items, m, enough, sealedTo, msg, live);
    CountAnnouncements(a, poll.now, items, pair, live);
    SurfacedAsOften(a, poll, st, items, m, enough, sealedTo, msg);
    EventsAnnounced(a, poll, st, items, pair, live);
    MineAreMine(Process(a, poll, st, items).events, pair);
  }
}
