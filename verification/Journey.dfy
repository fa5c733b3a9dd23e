/**
 One message from the plaintext the sender is given to the plaintext the receiver
 surfaces, with a run of the receiving client in between.
 */
module Journey {
  import opened Prelude
  import opened DnsReader
  import opened SlotManifest
  import opened Addressing
  import opened MemoryDns
  import opened Delivery
  import opened Admission
  import opened DeliverySteps
  import opened DeliveryRuns
  import opened Send
  import opened Labels
  import opened EndToEnd
  import opened SendCut
  import opened Traffic
  import opened SendAmongOthers
  import Envelope
  import RC = RotationChain
  import R = ReplayCache
  import P = Prekeys
  import Pool = PrekeyPool

  /** The dispatch is of the letter composed for this plaintext. */
  ghost predicate Carries(d: Dispatch, stored: RC.Contact, plaintext: Bytes, draw: Draw) {
    Compose(d.sender, stored, plaintext, draw) == Ok(d.letter) && d.sealing == draw.sealing
  }

  /** The plaintext is not mistaken for an envelope: it goes out in one, or it does not
      read as one. */
  ghost predicate Unambiguous(s: Sender, stored: RC.Contact, plaintext: Bytes, draw: Draw) {
    Wraps(s, stored, draw) || !Envelope.IsEnvelope(s.lib.json, plaintext)
  }

  /** The message as the sender's user would recognise it, under the sender's address if
      that was claimed and the receiver finds it vouched for. */
  ghost predicate IsTheMessage(msg: InboxMessage, s: Sender, stored: RC.Contact, plaintext: Bytes, draw: Draw,
                               reader: Reader) {
    && msg.plaintext == plaintext && msg.msgId == draw.msgId && msg.spk == s.Spk() && msg.timestamp == draw.now
    && LabelFits(msg.senderLabel, s, stored, draw, reader)
  }

  /** Every event is the message; there are `n` of them. */
  ghost predicate Arrives(events: seq<Event>, n: nat, s: Sender, stored: RC.Contact, plaintext: Bytes, draw: Draw,
                          reader: Reader) {
    |events| == n && forall i :: 0 <= i < n ==> IsTheMessage(events[i].message, s, stored, plaintext, draw, reader)
  }

  lemma SurfacesTheMessage(d: Dispatch, stored: RC.Contact, plaintext: Bytes, draw: Draw, a: Account, reader: Reader)
    requires Carries(d, stored, plaintext, draw) && a.lib == d.sender.lib && a.lib.Laws()
    ensures IsTheMessage(Surfaces(a, reader, d.letter), d.sender, stored, plaintext, draw, reader) <==>
      Unambiguous(d.sender, stored, plaintext, draw)
  {
    ComposedIsWellMade(d.sender, stored, plaintext, draw);
    PlaintextSurvivesIff(d.sender, stored, plaintext, draw);
    if Unambiguous(d.sender, stored, plaintext, draw) {
      LabelShown(d.sender, stored, plaintext, draw, reader);
    }
  }

  // ---- what the call returns ----

  /** The messages among these under one pair. */
  function Under(msgs: seq<InboxMessage>, pair: R.Pair): seq<InboxMessage> {
    if msgs == [] then []
    else (if PairOf(msgs[0]) == pair then [msgs[0]] else []) + Under(msgs[1..], pair)
  }

  /** What the call returns under the message id the sender drew is the message, `n`
      times. */
  ghost predicate Returns(events: seq<Event>, n: nat, s: Sender, stored: RC.Contact, plaintext: Bytes, draw: Draw,
                          reader: Reader) {
    var mine := Under(Inboxed(events), R.Pair(s.Spk(), draw.msgId));
    |mine| == n && forall i :: 0 <= i < n ==> IsTheMessage(mine[i], s, stored, plaintext, draw, reader)
  }

  /** Messages of known senders are for the inbox, all others for the queue. */
  ghost predicate RoutedAs(a: Account, poll: Poll, e: Event) {
    PairOf(e.message) == e.pair && (e.route.Inbox? <==> Known(a, poll, e.pair.spk))
  }

  ghost predicate AllRoutedAs(a: Account, poll: Poll, events: seq<Event>) {
    forall i :: 0 <= i < |events| ==> RoutedAs(a, poll, events[i])
  }

  lemma AccountedIsRouted(a: Account, poll: Poll, st: Stores, st': Stores, e: Event)
    requires Accounted(a, poll, st, st', e)
    ensures RoutedAs(a, poll, e)
  {
  }

  lemma RoutedFirst(a: Account, poll: Poll, first: seq<Event>, rest: seq<Event>)
    requires |first| <= 1 && (first != [] ==> RoutedAs(a, poll, first[0])) && AllRoutedAs(a, poll, rest)
    ensures AllRoutedAs(a, poll, first + rest)
  {
  }

  lemma {:induction false} AllRouted(a: Account, poll: Poll, st: Stores, items: seq<Item>)
    ensures AllRoutedAs(a, poll, Process(a, poll, st, items).events)
    decreases |items|
  {
    if items != [] {
      var (st', outcome) := Step(a, poll, st, items[0]);
      ProcessStarts(a, poll, st, items);
      AllRouted(a, poll, st', items[1..]);
      SurfacedAccounted(a, poll, st, items[0]);
      if outcome.Surfaced? {
        AccountedIsRouted(a, poll, st, st', outcome.event);
      }
      RoutedFirst(a, poll, EventsOf(outcome), Process(a, poll, st', items[1..]).events);
    }
  }

  lemma UnderAppends(first: seq<InboxMessage>, rest: seq<InboxMessage>, pair: R.Pair)
    requires |first| <= 1
    ensures Under(first + rest, pair)
         == (if first != [] && PairOf(first[0]) == pair then first else []) + Under(rest, pair)
  {
    if first != [] {
      assert (first + rest)[1..] == rest && first == [first[0]];
    } else {
      assert first + rest == rest;
    }
  }

  /** Of a known sender's messages all are returned, of others none. */
  lemma {:induction false} InboxedMine(a: Account, poll: Poll, events: seq<Event>, pair: R.Pair)
    requires AllRoutedAs(a, poll, events)
    ensures var mine, under := Mine(events, pair), Under(Inboxed(events), pair);
      && |under| == (if Known(a, poll, pair.spk) then |mine| else 0)
      && forall i :: 0 <= i < |under| ==> under[i] == mine[i].message
    decreases |events|
  {
    if events != [] {
      assert RoutedAs(a, poll, events[0]);
      InboxedMine(a, poll, events[1..], pair);
      UnderAppends(if events[0].route.Inbox? then [events[0].message] else [], Inboxed(events[1..]), pair);
    }
  }

  /** So what is surfaced for a known sender is returned, unless the call fails. */
  lemma ReturnedIfKnown(a: Account, poll: Poll, st: Stores, items: seq<Item>, n: nat, s: Sender, stored: RC.Contact,
                        plaintext: Bytes, draw: Draw)
    requires Arrives(Mine(Process(a, poll, st, items).events, R.Pair(s.Spk(), draw.msgId)), n, s, stored, plaintext,
                     draw, poll.reader)
    ensures Returns(Process(a, poll, st, items).events, if Known(a, poll, s.Spk()) then n else 0, s, stored, plaintext,
                    draw, poll.reader)
  {
    AllRouted(a, poll, st, items);
    InboxedMine(a, poll, Process(a, poll, st, items).events, R.Pair(s.Spk(), draw.msgId));
  }

  /** From plaintext to plaintext. Cut a send after any number of writes, lose any
      chunks, look at any time: one receive call surfaces exactly the plaintext under
      exactly the message id the sender drew, or it surfaces nothing and leaves
      every store as it was. */
  lemma PlaintextOrNothing(d: Dispatch, stored: RC.Contact, plaintext: Bytes, draw: Draw, a: Account, poll: Poll,
                           st: Stores)
    requires Carries(d, stored, plaintext, draw) && Unambiguous(d.sender, stored, plaintext, draw)
    requires Circumstances(d, a, poll, st)
    ensures var pass := Process(a, poll, st, MailboxItems(a, poll.reader, Zones(a.domain, poll.contacts)));
      && !pass.aborted
      && if Deliverable(d, a, poll, st)
         then Arrives(pass.events, Copies(d, a, poll), d.sender, stored, plaintext, draw, poll.reader)
         else pass.events == [] && SameFrom(st, pass.stores, poll.now)
  {
    SendCutAnywhere(d, a, poll, st);
    SurfacesTheMessage(d, stored, plaintext, draw, a, poll.reader);
  }

  // ---- with a run in between ----

  /** No message of the run is this one or uses its prekey. */
  ghost predicate Untouched(events: seq<Event>, m: Manifest) {
    forall i :: 0 <= i < |events| ==>
      && events[i].pair != R.Pair(m.spk, m.msgId)
      && (m.prekeyId != NO_PREKEY ==> events[i].prekeyId != m.prekeyId)
  }

  /** If a prekey was picked: its id does not mean "no prekey", and it has not expired
      at `now`. */
  predicate PrekeyLasts(pick: Option<P.Prekey>, now: u64) {
    pick.Some? ==> pick.value.id != NO_PREKEY && now < pick.value.exp
  }

  /** The key a letter was sealed for is still held at the end of any run that did
      not use it, until the prekey expires. */
  lemma KeyHeldAfterRun(a: Account, codec: Pool.Codec, mc: Machine, ops: seq<Op>, d: Dispatch, stored: RC.Contact,
                        plaintext: Bytes, draw: Draw, now: u64)
    requires Carries(d, stored, plaintext, draw) && LookedUp(a, d.sender, stored, draw, mc.stores.pool, codec)
    requires LegalRun(a, codec, mc, ops, draw.now) && EndOf(ops, draw.now) <= now < I64_MAX
    requires PrekeyLasts(Picked(d.sender, stored, draw), now)
    requires Untouched(Events(a, codec, mc, ops), d.letter.manifest)
    ensures HoldsSecret(a, Final(a, codec, mc, ops).stores.pool.rows, d.letter.manifest, d.letter.sealedTo, now)
  {
    var pick := Picked(d.sender, stored, draw);
    SealedForPick(d, stored, plaintext, draw);
    if pick.Some? {
      EndNotBefore(a, codec, mc, ops, draw.now);
      PickedIsBacked(a, codec, mc.stores.pool, d.sender, stored, draw);
      RowHeldAfterRun(a, codec, mc, ops, draw.now, d.letter.manifest, pick.value, now);
    }
  }

  lemma SealedForPick(d: Dispatch, stored: RC.Contact, plaintext: Bytes, draw: Draw)
    requires Carries(d, stored, plaintext, draw)
    ensures var pick := Picked(d.sender, stored, draw);
      && d.letter.sealedTo == (if pick.Some? then pick.value.publicKey else stored.x25519)
      && d.letter.manifest.prekeyId == (if pick.Some? then pick.value.id else NO_PREKEY)
  {
    ComposedIsWellMade(d.sender, stored, plaintext, draw);
  }

  lemma RowHeldAfterRun(a: Account, codec: Pool.Codec, mc: Machine, ops: seq<Op>, since: u64, m: Manifest, p: P.Prekey,
                        now: u64)
    requires LegalRun(a, codec, mc, ops, since) && EndOf(ops, since) <= now < I64_MAX && now < p.exp
    requires m.prekeyId == p.id && p.id != NO_PREKEY && Untouched(Events(a, codec, mc, ops), m)
    requires p.id in mc.stores.pool.rows && mc.stores.pool.rows[p.id].exp == I64Secs(p.exp)
    requires a.lib.publicOf(mc.stores.pool.rows[p.id].secret) == p.publicKey
    ensures HoldsSecret(a, Final(a, codec, mc, ops).stores.pool.rows, m, p.publicKey, now)
  {
    StoredLater(p.exp, now);
    UnusedPrekeyStays(a, codec, mc, ops, since, p.id);
    SameRowExpiry(mc, Final(a, codec, mc, ops), p.id);
  }

  /** Before its expiry the picked prekey's own row is in the store. */
  lemma PickedIsBacked(a: Account, codec: Pool.Codec, pool: Pool.State, s: Sender, stored: RC.Contact, draw: Draw)
    requires LookedUp(a, s, stored, draw, pool, codec) && Picked(s, stored, draw).Some?
    requires draw.now < Picked(s, stored, draw).value.exp && draw.now < I64_MAX
    ensures var p := Picked(s, stored, draw).value;
      && p.id in pool.rows
      && pool.rows[p.id].exp == I64Secs(p.exp)
      && a.lib.publicOf(pool.rows[p.id].secret) == p.publicKey
  {
    var p := Picked(s, stored, draw).value;
    PickedIsServed(s.lib, Addressee(s, stored), draw);
    var txt :| txt in TxtsAt(draw.reader, a.poolName) && s.lib.prekey(txt, stored.spk) == Some(p);
    assert codec.parse(txt) == Some(p);
    LookupMeaning(pool.dns, a.poolName, draw.now);
    StoredLater(p.exp, draw.now);
    assert Pool.Offered(pool.dns, a.poolName, codec, txt, p, draw.now);
    assert Pool.Held(pool.rows, p);
  }

  /** The sender looked at the receiver's published prekeys and composed; the receiver's
      client ran on, in any way that neither surfaced this message nor used its
      prekey; all writes went through and at least k chunks are left; manifest and
      prekey have not expired, and the sender is let in. */
  ghost predicate OnItsWay(d: Dispatch, stored: RC.Contact, plaintext: Bytes, draw: Draw,
                           a: Account, codec: Pool.Codec, mc: Machine, ops: seq<Op>, poll: Poll) {
    && Carries(d, stored, plaintext, draw) && Unambiguous(d.sender, stored, plaintext, draw)
    && d.sender.lib.Laws() && (forall i :: draw.now <= d.clock(i))
    && LookedUp(a, d.sender, stored, draw, mc.stores.pool, codec)
    && LegalRun(a, codec, mc, ops, draw.now) && EndOf(ops, draw.now) <= poll.now
    && R.Pair(d.sender.Spk(), draw.msgId) !in mc.stores.seen
    && Untouched(Events(a, codec, mc, ops), d.letter.manifest)
    && d.cut == |d.letter.blocks| + 1 && |d.Kept(poll.now)| >= d.letter.manifest.dataChunks
    && poll.now < d.letter.manifest.exp && poll.now < I64_MAX
    && PrekeyLasts(Picked(d.sender, stored, draw), poll.now)
    && LetIn(a, poll, Final(a, codec, mc, ops).stores, d.sender.Spk())
  }

  /** The whole journey, through a mailbox that is otherwise empty: a receive call that
      walks the sender's zone surfaces exactly the plaintext, once, and returns it
      if the sender is known. */
  lemma SentIsReceived(d: Dispatch, stored: RC.Contact, plaintext: Bytes, draw: Draw,
                       a: Account, codec: Pool.Codec, mc: Machine, ops: seq<Op>, poll: Poll)
    requires OnItsWay(d, stored, plaintext, draw, a, codec, mc, ops, poll)
    requires Reaches(d, a, poll.reader, poll.now)
    requires exists zone :: zone in Zones(a.domain, poll.contacts) && SameZone(zone, d.sender)
    ensures var pass := Process(a, poll, Final(a, codec, mc, ops).stores,
                                MailboxItems(a, poll.reader, Zones(a.domain, poll.contacts)));
      && !pass.aborted && Arrives(pass.events, 1, d.sender, stored, plaintext, draw, poll.reader)
      && Inboxed(pass.events)
         == if Known(a, poll, d.sender.Spk()) then [pass.events[0].message] else []
  {
    KeyHeldAfterRun(a, codec, mc, ops, d, stored, plaintext, draw, poll.now);
    PairNewAfterRun(a, codec, mc, ops, d, stored, plaintext, draw);
    var st := Final(a, codec, mc, ops).stores;
    ReadyIsReceived(d, stored, plaintext, draw, a, poll, st);
    OneReturned(a, poll, st, MailboxItems(a, poll.reader, Zones(a.domain, poll.contacts)));
  }

  lemma OneReturned(a: Account, poll: Poll, st: Stores, items: seq<Item>)
    requires |Process(a, poll, st, items).events| == 1
    ensures var events := Process(a, poll, st, items).events;
      Inboxed(events) == if Known(a, poll, events[0].message.spk) then [events[0].message] else []
  {
    var events := Process(a, poll, st, items).events;
    AllRouted(a, poll, st, items);
    assert events[1..] == [];
  }

  lemma PairNewAfterRun(a: Account, codec: Pool.Codec, mc: Machine, ops: seq<Op>, d: Dispatch, stored: RC.Contact,
                        plaintext: Bytes, draw: Draw)
    requires Carries(d, stored, plaintext, draw) && Untouched(Events(a, codec, mc, ops), d.letter.manifest)
    requires R.Pair(d.sender.Spk(), draw.msgId) !in mc.stores.seen
    ensures R.Pair(d.sender.Spk(), draw.msgId) !in Final(a, codec, mc, ops).stores.seen
  {
    ComposedIsWellMade(d.sender, stored, plaintext, draw);
    UnseenStays(a, codec, mc, ops, R.Pair(d.sender.Spk(), draw.msgId));
  }

  /** The end of the journey, from stores that hold the key and not yet the pair. */
  lemma ReadyIsReceived(d: Dispatch, stored: RC.Contact, plaintext: Bytes, draw: Draw, a: Account, poll: Poll,
                        st: Stores)
    requires Carries(d, stored, plaintext, draw) && Unambiguous(d.sender, stored, plaintext, draw)
    requires d.sender.lib.Laws() && (forall i :: draw.now <= d.clock(i))
    requires HoldsSecret(a, st.pool.rows, d.letter.manifest, d.letter.sealedTo, poll.now)
    requires R.Pair(d.sender.Spk(), draw.msgId) !in st.seen
    requires d.cut == |d.letter.blocks| + 1 && |d.Kept(poll.now)| >= d.letter.manifest.dataChunks
    requires poll.now < d.letter.manifest.exp && poll.now < I64_MAX
    requires Reaches(d, a, poll.reader, poll.now)
    requires exists zone :: zone in Zones(a.domain, poll.contacts) && SameZone(zone, d.sender)
    requires LetIn(a, poll, st, d.sender.Spk())
    ensures var pass := Process(a, poll, st, MailboxItems(a, poll.reader, Zones(a.domain, poll.contacts)));
      !pass.aborted && Arrives(pass.events, 1, d.sender, stored, plaintext, draw, poll.reader)
  {
    ComposedIsProper(d, stored, plaintext, draw);
    ReadyMeetsCircumstances(d, a, poll, st);
    ReadyIsDeliverable(d, a, poll, st);
    OnceBeforeExpiry(d, stored, plaintext, draw, a, poll, st);
  }

  lemma ReadyMeetsCircumstances(d: Dispatch, a: Account, poll: Poll, st: Stores)
    requires d.Proper() && Reaches(d, a, poll.reader, poll.now)
    requires R.Pair(d.sender.Spk(), d.letter.manifest.msgId) !in st.seen
    requires exists zone :: zone in Zones(a.domain, poll.contacts) && SameZone(zone, d.sender)
    requires LetIn(a, poll, st, d.sender.Spk())
    ensures Circumstances(d, a, poll, st)
  {
  }

  lemma ReadyIsDeliverable(d: Dispatch, a: Account, poll: Poll, st: Stores)
    requires d.Proper() && d.letter.manifest.exp == SatAdd64(d.letter.manifest.ts, DEFAULT_TTL_SECONDS)
    requires HoldsSecret(a, st.pool.rows, d.letter.manifest, d.letter.sealedTo, poll.now)
    requires d.cut == |d.letter.blocks| + 1 && |d.Kept(poll.now)| >= d.letter.manifest.dataChunks
    requires poll.now < d.letter.manifest.exp
    ensures Deliverable(d, a, poll, st)
  {
    ServedAsLongAsLive(d, poll.now);
  }

  lemma ComposedIsProper(d: Dispatch, stored: RC.Contact, plaintext: Bytes, draw: Draw)
    requires Carries(d, stored, plaintext, draw) && d.sender.lib.Laws() && forall i :: draw.now <= d.clock(i)
    ensures d.Proper() && d.letter.manifest.msgId == draw.msgId && d.letter.manifest.spk == d.sender.Spk()
    ensures d.letter.manifest.exp == SatAdd64(d.letter.manifest.ts, DEFAULT_TTL_SECONDS)
  {
    ComposedIsWellMade(d.sender, stored, plaintext, draw);
  }

  lemma OnceBeforeExpiry(d: Dispatch, stored: RC.Contact, plaintext: Bytes, draw: Draw, a: Account, poll: Poll,
                         st: Stores)
    requires Carries(d, stored, plaintext, draw) && Unambiguous(d.sender, stored, plaintext, draw)
    requires Circumstances(d, a, poll, st) && Deliverable(d, a, poll, st)
    requires poll.now < d.letter.manifest.exp && poll.now < I64_MAX
    ensures var pass := Process(a, poll, st, MailboxItems(a, poll.reader, Zones(a.domain, poll.contacts)));
      !pass.aborted && Arrives(pass.events, 1, d.sender, stored, plaintext, draw, poll.reader)
  {
    StoredLater(d.letter.manifest.exp, poll.now);
    PlaintextOrNothing(d, stored, plaintext, draw, a, poll, st);
  }

  /** A manifest that has not expired is still served, since it was written after the
      instant its lifetime is counted from. */
  lemma ServedAsLongAsLive(d: Dispatch, now: u64)
    requires d.letter.manifest.exp == SatAdd64(d.letter.manifest.ts, DEFAULT_TTL_SECONDS)
    requires forall i :: d.letter.manifest.ts <= d.clock(i)
    ensures now < d.letter.manifest.exp ==> forall i :: now < ServedUntil(d.clock, i)
  {
  }

  // ---- among other traffic, on either path ----

  /** Of the events, those under the message's id are the message, `n` times. */
  ghost predicate ArrivesAmong(events: seq<Event>, n: nat, s: Sender, stored: RC.Contact, plaintext: Bytes, draw: Draw,
                               reader: Reader) {
    Arrives(Mine(events, R.Pair(s.Spk(), draw.msgId)), n, s, stored, plaintext, draw, reader)
  }

  /** From plaintext to plaintext among any other traffic. Cut a send after any number of
      writes, lose any chunks, look at any time and on either path, whatever else
      the call comes across: under the message id the sender drew it surfaces
      exactly the plaintext, as often as `Deliveries` says, and nothing else. */
  lemma PlaintextAmongOthers(d: Dispatch, stored: RC.Contact, plaintext: Bytes, draw: Draw, a: Account, poll: Poll,
                             st: Stores, items: seq<Item>)
    requires Carries(d, stored, plaintext, draw) && Unambiguous(d.sender, stored, plaintext, draw)
    requires d.sender.lib.Laws() && (forall i :: draw.now <= d.clock(i))
    requires ChunksReach(d, a, poll.reader, poll.now)
    requires AmongOthers(d, a, poll, st.queue.denied, items) && LetIn(a, poll, st, d.sender.Spk())
    ensures var pass := Process(a, poll, st, items);
      var n := Deliveries(LetterClosed(d, a, poll, st), StaysOpen(d.letter.manifest, poll.now),
                          Announcements(a, poll.now, items, R.Pair(d.sender.Spk(), draw.msgId)));
      && !pass.aborted && ArrivesAmong(pass.events, n, d.sender, stored, plaintext, draw, poll.reader)
      && Returns(pass.events, if Known(a, poll, d.sender.Spk()) then n else 0, d.sender, stored, plaintext, draw,
                 poll.reader)
  {
    ComposedIsProper(d, stored, plaintext, draw);
    DispatchAmongOthers(d, a, poll, st, items);
    SurfacesTheMessage(d, stored, plaintext, draw, a, poll.reader);
    ReturnedIfKnown(a, poll, st, items,
                    Deliveries(LetterClosed(d, a, poll, st), StaysOpen(d.letter.manifest, poll.now),
                               Announcements(a, poll.now, items, R.Pair(d.sender.Spk(), draw.msgId))),
                    d.sender, stored, plaintext, draw);
  }

  /** The whole journey among any other traffic: a receive call of either path that comes
      across the message surfaces its plaintext, once. */
  lemma ReceivedAmongOthers(d: Dispatch, stored: RC.Contact, plaintext: Bytes, draw: Draw,
                            a: Account, codec: Pool.Codec, mc: Machine, ops: seq<Op>, poll: Poll,
                            items: seq<Item>, item: Item)
    requires OnItsWay(d, stored, plaintext, draw, a, codec, mc, ops, poll)
    requires ChunksReach(d, a, poll.reader, poll.now)
    requires AmongOthers(d, a, poll, Final(a, codec, mc, ops).stores.queue.denied, items)
    requires item in items && About(d, a, poll, item)
    ensures var pass := Process(a, poll, Final(a, codec, mc, ops).stores, items);
      && !pass.aborted && ArrivesAmong(pass.events, 1, d.sender, stored, plaintext, draw, poll.reader)
      && Returns(pass.events, if Known(a, poll, d.sender.Spk()) then 1 else 0, d.sender, stored, plaintext, draw,
                 poll.reader)
  {
    var st := Final(a, codec, mc, ops).stores;
    OpenAfterRun(d, stored, plaintext, draw, a, codec, mc, ops, poll);
    PlaintextAmongOthers(d, stored, plaintext, draw, a, poll, st, items);
    ComposedIsProper(d, stored, plaintext, draw);
    SomeAnnouncement(a, poll.now, items, R.Pair(d.sender.Spk(), draw.msgId), item);
  }

  lemma OpenAfterRun(d: Dispatch, stored: RC.Contact, plaintext: Bytes, draw: Draw,
                     a: Account, codec: Pool.Codec, mc: Machine, ops: seq<Op>, poll: Poll)
    requires OnItsWay(d, stored, plaintext, draw, a, codec, mc, ops, poll)
    ensures !LetterClosed(d, a, poll, Final(a, codec, mc, ops).stores) && !StaysOpen(d.letter.manifest, poll.now)
  {
    KeyHeldAfterRun(a, codec, mc, ops, d, stored, plaintext, draw, poll.now);
    PairNewAfterRun(a, codec, mc, ops, d, stored, plaintext, draw);
    ComposedIsProper(d, stored, plaintext, draw);
    NotClosed(d, a, poll, Final(a, codec, mc, ops).stores);
  }

  lemma NotClosed(d: Dispatch, a: Account, poll: Poll, st: Stores)
    requires HoldsSecret(a, st.pool.rows, d.letter.manifest, d.letter.sealedTo, poll.now)
    requires R.Pair(d.letter.manifest.spk, d.letter.manifest.msgId) !in st.seen
    requires |d.Kept(poll.now)| >= d.letter.manifest.dataChunks
    requires poll.now < d.letter.manifest.exp && poll.now < I64_MAX
    ensures !LetterClosed(d, a, poll, st) && !StaysOpen(d.letter.manifest, poll.now)
  {
    StoredLater(d.letter.manifest.exp, poll.now);
  }

  /** By a walk over the mailbox, whatever else is in it. */
  lemma ReceivedFromMailbox(d: Dispatch, stored: RC.Contact, plaintext: Bytes, draw: Draw,
                            a: Account, codec: Pool.Codec, mc: Machine, ops: seq<Op>, poll: Poll, zone: string)
    requires OnItsWay(d, stored, plaintext, draw, a, codec, mc, ops, poll)
    requires ChunksReach(d, a, poll.reader, poll.now) && WellFormed(d.before)
    requires zone in Zones(a.domain, poll.contacts) && SameZone(zone, d.sender)
    requires SeesSlot(poll.reader, d, a, poll.now, zone)
    requires AmongOthers(d, a, poll, Final(a, codec, mc, ops).stores.queue.denied,
                         MailboxItems(a, poll.reader, Zones(a.domain, poll.contacts)))
    ensures var pass := Process(a, poll, Final(a, codec, mc, ops).stores,
                                MailboxItems(a, poll.reader, Zones(a.domain, poll.contacts)));
      && !pass.aborted && ArrivesAmong(pass.events, 1, d.sender, stored, plaintext, draw, poll.reader)
      && Returns(pass.events, if Known(a, poll, d.sender.Spk()) then 1 else 0, d.sender, stored, plaintext, draw,
                 poll.reader)
  {
    StillAnnounced(d, stored, plaintext, draw, a, codec, mc, ops, poll);
    var zones := Zones(a.domain, poll.contacts);
    var item := MailboxAnnounces(d, a, poll, zones, zone);
    ReceivedAmongOthers(d, stored, plaintext, draw, a, codec, mc, ops, poll, MailboxItems(a, poll.reader, zones), item);
  }

  /** By a walk over a provider that lists a claim for it, whatever else is listed. */
  lemma ReceivedByClaim(d: Dispatch, stored: RC.Contact, plaintext: Bytes, draw: Draw,
                        a: Account, codec: Pool.Codec, mc: Machine, ops: seq<Op>, poll: Poll, provider: string,
                        claim: string)
    requires OnItsWay(d, stored, plaintext, draw, a, codec, mc, ops, poll)
    requires ChunksReach(d, a, poll.reader, poll.now) && WellFormed(d.before)
    requires ClaimListed(d, a, poll, provider, claim)
    requires AmongOthers(d, a, poll, Final(a, codec, mc, ops).stores.queue.denied,
                         ProviderItems(a, poll.reader, provider, SLOT_COUNT))
    ensures var pass := Process(a, poll, Final(a, codec, mc, ops).stores,
                                ProviderItems(a, poll.reader, provider, SLOT_COUNT));
      && !pass.aborted && ArrivesAmong(pass.events, 1, d.sender, stored, plaintext, draw, poll.reader)
      && Returns(pass.events, if Known(a, poll, d.sender.Spk()) then 1 else 0, d.sender, stored, plaintext, draw,
                 poll.reader)
  {
    StillAnnounced(d, stored, plaintext, draw, a, codec, mc, ops, poll);
    var item := ProviderAnnounces(d, a, poll, provider, claim);
    ReceivedAmongOthers(d, stored, plaintext, draw, a, codec, mc, ops, poll,
                        ProviderItems(a, poll.reader, provider, SLOT_COUNT), item);
  }

  lemma StillAnnounced(d: Dispatch, stored: RC.Contact, plaintext: Bytes, draw: Draw,
                       a: Account, codec: Pool.Codec, mc: Machine, ops: seq<Op>, poll: Poll)
    requires OnItsWay(d, stored, plaintext, draw, a, codec, mc, ops, poll)
    ensures d.Proper() && d.Announced(poll.now)
  {
    ComposedIsProper(d, stored, plaintext, draw);
    ServedAsLongAsLive(d, poll.now);
  }
}
