/**
 A send among any other traffic: where its message is announced, on either receive
 path, and how often it is surfaced.
 */
module SendAmongOthers {
  import opened Prelude
  import opened DnsReader
  import opened Library
  import opened SlotManifest
  import opened Addressing
  import opened MemoryDns
  import opened Delivery
  import opened Admission
  import opened DeliverySteps
  import opened Send
  import opened EndToEnd
  import opened Traffic
  import opened SendCut
  import R = ReplayCache
  import Pool = PrekeyPool
  import Q = IntroQueue

  /** An item that leads to the letter's manifest, in the zone its chunks were sent to. */
  ghost predicate About(d: Dispatch, a: Account, poll: Poll, item: Item) {
    var m := d.letter.manifest;
    var pair := R.Pair(m.spk, m.msgId);
    && Announces(a, poll.now, item) == Some(pair)
    && Locate(a, poll, item, pair).Located?
    && Locate(a, poll, item, pair).manifest == m
    && SameZone(Locate(a, poll, item, pair).zone, d.sender)
  }

  /** Whatever else is among the items can neither end the call nor use up our prekey,
      and does not pass itself off as our message. */
  ghost predicate AmongOthers(d: Dispatch, a: Account, poll: Poll, denied: map<Key32, Q.Denial>, items: seq<Item>) {
    forall i :: 0 <= i < |items| ==> AboutOrHarmless(d, a, poll, denied, items[i])
  }

  ghost predicate AboutOrHarmless(d: Dispatch, a: Account, poll: Poll, denied: map<Key32, Q.Denial>, item: Item) {
    About(d, a, poll, item) || Harmless(a, poll, denied, item, d.letter.manifest)
  }

  /** The letter is closed to a call: remembered, without enough chunks, or without the
      key it was sealed for. */
  ghost predicate LetterClosed(d: Dispatch, a: Account, poll: Poll, st: Stores) {
    Closed(a, poll, st, d.letter.manifest, |d.Kept(poll.now)| >= d.letter.manifest.dataChunks, d.letter.sealedTo)
  }

  lemma AboutLeads(d: Dispatch, a: Account, poll: Poll, item: Item)
    requires d.Proper() && ChunksReach(d, a, poll.reader, poll.now) && About(d, a, poll, item)
    ensures LeadsTo(a, poll, item, d.letter.manifest, |d.Kept(poll.now)| >= d.letter.manifest.dataChunks,
                    d.letter.sealedTo, Surfaces(a, poll.reader, d.letter))
  {
    var m := d.letter.manifest;
    var zone := Locate(a, poll, item, R.Pair(m.spk, m.msgId)).zone;
    LocatedMatches(a, poll, item);
    LetterDecodesThere(d, a, poll, zone);
  }

  /** A send cut after any number of writes, among any other traffic, on either receive
      path, at any time: how often a call surfaces it. */
  lemma DispatchAmongOthers(d: Dispatch, a: Account, poll: Poll, st: Stores, items: seq<Item>)
    requires d.Proper() && ChunksReach(d, a, poll.reader, poll.now)
    requires AmongOthers(d, a, poll, st.queue.denied, items) && LetIn(a, poll, st, d.sender.Spk())
    ensures var m := d.letter.manifest;
      var pair := R.Pair(m.spk, m.msgId);
      var pass := Process(a, poll, st, items);
      var n := Deliveries(LetterClosed(d, a, poll, st), StaysOpen(m, poll.now),
                          Announcements(a, poll.now, items, pair));
      !pass.aborted && Copied(pass.events, pair, n, Surfaces(a, poll.reader, d.letter))
  {
    var m, msg := d.letter.manifest, Surfaces(a, poll.reader, d.letter);
    var enough := |d.Kept(poll.now)| >= m.dataChunks;
    forall i | 0 <= i < |items|
      ensures LeadsTo(a, poll, items[i], m, enough, d.letter.sealedTo, msg)
        || Harmless(a, poll, st.queue.denied, items[i], m)
    {
      assert AboutOrHarmless(d, a, poll, st.queue.denied, items[i]);
      if About(d, a, poll, items[i]) {
        AboutLeads(d, a, poll, items[i]);
      }
    }
    SurfacedAsOften(a, poll, st, items, m, enough, d.letter.sealedTo, msg);
  }

  // ---- where the message is announced ----

  lemma {:induction false} ListedInZone(a: Account, reader: Reader, zone: string, n: nat, slot: nat, txt: string)
    requires slot < n && txt in TxtsAt(reader, SlotDomain(a.lib, a.UserId(), slot, zone))
    ensures SlotRecord(txt, zone) in ZoneItems(a, reader, zone, n)
  {
    if slot < n - 1 {
      ListedInZone(a, reader, zone, n - 1, slot, txt);
    } else {
      var txts := TxtsAt(reader, SlotDomain(a.lib, a.UserId(), slot, zone));
      var i :| 0 <= i < |txts| && txts[i] == txt;
      assert SlotItems(a, reader, zone, slot)[i] == SlotRecord(txt, zone);
    }
  }

  lemma {:induction false} ListedInMailbox(a: Account, reader: Reader, zones: seq<string>, zone: string, slot: nat,
                                           txt: string)
    requires zone in zones && slot < SLOT_COUNT && txt in TxtsAt(reader, SlotDomain(a.lib, a.UserId(), slot, zone))
    ensures SlotRecord(txt, zone) in MailboxItems(a, reader, zones)
    decreases |zones|
  {
    if zone == Last(zones) {
      ListedInZone(a, reader, zone, SLOT_COUNT, slot, txt);
    } else {
      assert zones == zones[..|zones| - 1] + [Last(zones)];
      ListedInMailbox(a, reader, zones[..|zones| - 1], zone, slot, txt);
    }
  }

  lemma {:induction false} ListedByProvider(a: Account, reader: Reader, provider: string, n: nat, slot: nat,
                                            txt: string)
    requires slot < n && txt in TxtsAt(reader, ClaimName(a.lib, a.UserId(), slot, provider))
    ensures ClaimRecord(txt, slot) in ProviderItems(a, reader, provider, n)
  {
    if slot < n - 1 {
      ListedByProvider(a, reader, provider, n - 1, slot, txt);
    } else {
      var txts := TxtsAt(reader, ClaimName(a.lib, a.UserId(), slot, provider));
      var i :| 0 <= i < |txts| && txts[i] == txt;
      assert ClaimItems(a, reader, provider, slot)[i] == ClaimRecord(txt, slot);
    }
  }

  lemma {:induction false} WrittenWellFormed(t: Table, writes: seq<TxtWrite>, n: nat, clock: Pool.Clock)
    requires WellFormed(t) && n <= |writes|
    ensures WellFormed(Written(t, writes, n, clock))
  {
    if n > 0 {
      WrittenWellFormed(t, writes, n - 1, clock);
      var before, w := Written(t, writes, n - 1, clock), writes[n - 1];
      PublishMeaning(before, w.name, w.txt, DEFAULT_TTL_SECONDS, clock(n - 1));
    }
  }

  /** When the send has run to its end its manifest is served, whatever else is listed
      at that name. */
  lemma ManifestServed(d: Dispatch, now: u64)
    requires WellFormed(d.before) && Valid(d.letter.manifest) && d.Announced(now)
    ensures d.cut == |d.Writes()|
    ensures Sign(d.sender.lib, d.sender.seed, d.letter.manifest).value
            in TxtsOf(Lookup(d.Table(), SlotName(d.sender, d.letter), now))
  {
    var n, writes := |d.letter.blocks|, d.Writes();
    var name, record := SlotName(d.sender, d.letter), Sign(d.sender.lib, d.sender.seed, d.letter.manifest).value;
    assert writes[n] == TxtWrite(name, record);
    var before := Written(d.before, writes, n, d.clock);
    WrittenWellFormed(d.before, writes, n, d.clock);
    PublishMeaning(before, name, record, DEFAULT_TTL_SECONDS, d.clock(n));
    WrittenNext(d.before, writes, n, d.clock);
    assert Holds(d.Table(), name, record, ServedUntil(d.clock, n));
    LookupMeaning(d.Table(), name, now);
  }

  /** The reader serves the letter's slot in the given zone as the table has it. */
  ghost predicate SeesSlot(reader: Reader, d: Dispatch, a: Account, now: u64, zone: string)
    requires d.cut <= |d.Writes()|
  {
    var name := SlotDomain(a.lib, a.UserId(), SlotForMsgId(d.letter.manifest.msgId), zone);
    reader(name) == Lookup(d.Table(), name, now)
  }

  lemma ManifestSeen(d: Dispatch, a: Account, reader: Reader, now: u64, zone: string)
    requires WellFormed(d.before) && d.Announced(now) && ChunksReach(d, a, reader, now)
    requires SameZone(zone, d.sender) && SeesSlot(reader, d, a, now, zone)
    ensures Sign(a.lib, d.sender.seed, d.letter.manifest).value
            in TxtsAt(reader, SlotDomain(a.lib, a.UserId(), SlotForMsgId(d.letter.manifest.msgId), zone))
  {
    ManifestServed(d, now);
    var slot := SlotForMsgId(d.letter.manifest.msgId);
    SlotNamesDiffer(a.lib, a.UserId(), slot, zone, slot, d.sender.domain);
  }

  /** A mailbox walk over the sender's zone comes across the message. */
  lemma MailboxAnnounces(d: Dispatch, a: Account, poll: Poll, zones: seq<string>, zone: string) returns (item: Item)
    requires d.Proper() && WellFormed(d.before) && d.Announced(poll.now) && ChunksReach(d, a, poll.reader, poll.now)
    requires zone in zones && SameZone(zone, d.sender) && SeesSlot(poll.reader, d, a, poll.now, zone)
    requires poll.now <= d.letter.manifest.exp
    ensures item in MailboxItems(a, poll.reader, zones) && About(d, a, poll, item)
  {
    var record := Sign(a.lib, d.sender.seed, d.letter.manifest).value;
    ManifestSeen(d, a, poll.reader, poll.now, zone);
    ListedInMailbox(a, poll.reader, zones, zone, SlotForMsgId(d.letter.manifest.msgId), record);
    SightingLocates(d.sender, d.letter, a, poll, zone);
    item := SlotRecord(record, zone);
  }

  /** No other record there carries the letter's pair. */
  ghost predicate OnlyOurs(a: Account, records: seq<string>, m: Manifest) {
    forall record :: record in records && MailboxManifest(a, record).Some? ==>
      var other := MailboxManifest(a, record).value;
      R.Pair(other.spk, other.msgId) == R.Pair(m.spk, m.msgId) ==> other == m
  }

  lemma {:induction false} FirstIsOurs(a: Account, records: seq<string>, m: Manifest, record: string)
    requires OnlyOurs(a, records, m) && record in records && MailboxManifest(a, record) == Some(m)
    ensures FirstManifest(a, records, R.Pair(m.spk, m.msgId)) == Some(m)
    decreases |records|
  {
    assert records == [records[0]] + records[1..];
    assert records[0] in records;
    var first := MailboxManifest(a, records[0]);
    if first.None? || R.Pair(first.value.spk, first.value.msgId) != R.Pair(m.spk, m.msgId) {
      FirstIsOurs(a, records[1..], m, record);
    }
  }

  /** A claim for the letter: fresh, for its slot, and pointing to the sender's zone. */
  ghost predicate ClaimFor(d: Dispatch, a: Account, now: u64, claim: string) {
    var m := d.letter.manifest;
    a.lib.claim(claim).Some?
    && var c := a.lib.claim(claim).value;
       && FreshClaim(c, now) && R.Pair(c.spk, c.msgId) == R.Pair(m.spk, m.msgId)
       && c.slot == SlotForMsgId(m.msgId) && SameZone(c.mailboxDomain, d.sender)
  }

  /** The provider lists such a claim, and the slot it points to is served as the table
      has it and lists no rival manifest. */
  ghost predicate ClaimListed(d: Dispatch, a: Account, poll: Poll, provider: string, claim: string) {
    && ClaimFor(d, a, poll.now, claim) && d.cut <= |d.Writes()|
    && var c := a.lib.claim(claim).value;
       && claim in TxtsAt(poll.reader, ClaimName(a.lib, a.UserId(), c.slot, provider))
       && SeesSlot(poll.reader, d, a, poll.now, c.mailboxDomain)
       && OnlyOurs(a, TxtsAt(poll.reader, SlotDomain(a.lib, a.UserId(), c.slot, c.mailboxDomain)), d.letter.manifest)
  }

  lemma ClaimLocates(a: Account, poll: Poll, claim: string, c: Claim, m: Manifest, txts: seq<string>)
    requires a.lib.claim(claim) == Some(c) && FreshClaim(c, poll.now)
    requires R.Pair(c.spk, c.msgId) == R.Pair(m.spk, m.msgId)
    requires poll.reader(SlotDomain(a.lib, a.UserId(), c.slot, c.mailboxDomain)) == Records(txts)
    requires FirstManifest(a, txts, R.Pair(m.spk, m.msgId)) == Some(m) && !Expired(m, poll.now)
    ensures var item := ClaimRecord(claim, c.slot);
      && Announces(a, poll.now, item) == Some(R.Pair(m.spk, m.msgId))
      && Locate(a, poll, item, R.Pair(m.spk, m.msgId)) == Located(m, c.mailboxDomain)
  {
  }

  /** The letter's slot in the claimed zone leads to its manifest. */
  lemma SlotLeads(d: Dispatch, a: Account, poll: Poll, zone: string)
    requires d.Proper() && WellFormed(d.before) && d.Announced(poll.now) && ChunksReach(d, a, poll.reader, poll.now)
    requires SameZone(zone, d.sender) && SeesSlot(poll.reader, d, a, poll.now, zone)
    requires poll.now <= d.letter.manifest.exp
    requires OnlyOurs(a, TxtsAt(poll.reader,
                                SlotDomain(a.lib, a.UserId(), SlotForMsgId(d.letter.manifest.msgId), zone)),
                      d.letter.manifest)
    ensures var m := d.letter.manifest;
      var txts := TxtsAt(poll.reader, SlotDomain(a.lib, a.UserId(), SlotForMsgId(m.msgId), zone));
      txts != [] && FirstManifest(a, txts, R.Pair(m.spk, m.msgId)) == Some(m)
  {
    var m := d.letter.manifest;
    var record := Sign(a.lib, d.sender.seed, m).value;
    ManifestSeen(d, a, poll.reader, poll.now, zone);
    SightingLocates(d.sender, d.letter, a, poll, zone);
    FirstIsOurs(a, TxtsAt(poll.reader, SlotDomain(a.lib, a.UserId(), SlotForMsgId(m.msgId), zone)), m, record);
  }

  /** A walk over a provider that lists a claim for the letter comes across the
      message. */
  lemma ProviderAnnounces(d: Dispatch, a: Account, poll: Poll, provider: string, claim: string) returns (item: Item)
    requires d.Proper() && WellFormed(d.before) && d.Announced(poll.now) && ChunksReach(d, a, poll.reader, poll.now)
    requires ClaimListed(d, a, poll, provider, claim) && poll.now <= d.letter.manifest.exp
    ensures item in ProviderItems(a, poll.reader, provider, SLOT_COUNT) && About(d, a, poll, item)
  {
    var c := a.lib.claim(claim).value;
    var txts := TxtsAt(poll.reader, SlotDomain(a.lib, a.UserId(), c.slot, c.mailboxDomain));
    SlotLeads(d, a, poll, c.mailboxDomain);
    ClaimLocates(a, poll, claim, c, d.letter.manifest, txts);
    ListedByProvider(a, poll.reader, provider, SLOT_COUNT, c.slot, claim);
    item := ClaimRecord(claim, c.slot);
  }
}
