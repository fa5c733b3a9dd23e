/**
 A send that stops after any number of writes, seen by a receiver whose mailbox is
 otherwise empty.
 */
module SendCut {
  import opened Prelude
  import opened Text
  import opened TextCodec
  import opened DnsReader
  import opened Library
  import opened SlotManifest
  import opened Addressing
  import opened MemoryDns
  import opened Delivery
  import opened Admission
  import opened DeliverySteps
  import opened Send
  import opened EndToEnd
  import opened Traffic
  import R = ReplayCache
  import Pool = PrekeyPool
  import Q = IntroQueue

  // ---- the table after some of the writes ----

  ghost predicate DistinctWrites(writes: seq<TxtWrite>) {
    forall i, j :: 0 <= i < j < |writes| ==> writes[i].name != writes[j].name
  }

  /** A name that nothing was written to is as before; one that was written to, and
      was empty, holds just that. */
  lemma {:induction false} WrittenEntries(t: Table, writes: seq<TxtWrite>, n: nat, clock: Pool.Clock, name: string)
    requires n <= |writes| && DistinctWrites(writes)
    ensures (forall j :: 0 <= j < n ==> writes[j].name != name) ==>
      EntriesAt(Written(t, writes, n, clock), name) == EntriesAt(t, name)
    ensures EntriesAt(t, name) == [] ==>
      forall j :: 0 <= j < n && writes[j].name == name ==>
        EntriesAt(Written(t, writes, n, clock), name) == [Entry(writes[j].txt, ServedUntil(clock, j))]
  {
    if n > 0 {
      WrittenEntries(t, writes, n - 1, clock, name);
    }
  }

  /** The `i`th write is served until this second, exclusive. */
  function ServedUntil(clock: Pool.Clock, i: nat): u64 {
    SatAdd64(clock(i), DEFAULT_TTL_SECONDS)
  }

  lemma ServedWhileLive(entries: seq<Entry>, e: Entry, now: u64)
    requires entries == [e]
    ensures LiveValues(entries, now) == if e.expiresAt > now then [e.value] else []
  {
    assert entries[1..] == [];
  }

  /** What is served at a name that was empty before. */
  lemma ServedAt(t: Table, writes: seq<TxtWrite>, n: nat, clock: Pool.Clock, name: string, now: u64)
    requires n <= |writes| && DistinctWrites(writes) && EntriesAt(t, name) == []
    ensures var answer := Lookup(Written(t, writes, n, clock), name, now);
      && (forall j :: 0 <= j < n && writes[j].name == name ==>
            answer == if now < ServedUntil(clock, j) then Records([writes[j].txt]) else NoRecord)
      && ((forall j :: 0 <= j < n ==> writes[j].name != name) ==> answer == NoRecord)
  {
    WrittenEntries(t, writes, n, clock, name);
    forall j | 0 <= j < n && writes[j].name == name
      ensures Lookup(Written(t, writes, n, clock), name, now)
           == if now < ServedUntil(clock, j) then Records([writes[j].txt]) else NoRecord
    {
      ServedWhileLive(EntriesAt(Written(t, writes, n, clock), name), Entry(writes[j].txt, ServedUntil(clock, j)), now);
    }
  }

  // ---- names ----

  /** Two slot names of one mailbox are equal only for the same slot, in zones that
      differ at most in final dots. */
  lemma SlotNamesDiffer(lib: Library, recipientId: Key32, slot: nat, zone: string, slot': nat, zone': string)
    requires slot < SLOT_COUNT && slot' < SLOT_COUNT
    ensures SlotDomain(lib, recipientId, slot, zone) == SlotDomain(lib, recipientId, slot', zone')
       <==> slot == slot' && TrimEndDots(zone) == TrimEndDots(zone')
  {
    var a, b := SlotDomain(lib, recipientId, slot, zone), SlotDomain(lib, recipientId, slot', zone');
    assert a[5] == DigitOf(slot) && b[5] == DigitOf(slot');
    var n := 10 + |lib.hash12(recipientId)| + 1;
    assert a[n..] == TrimEndDots(zone) && b[n..] == TrimEndDots(zone');
  }

  lemma WritesAreDistinct(s: Sender, letter: Letter)
    ensures DistinctWrites(Writes(s, letter))
  {
    var writes := Writes(s, letter);
    forall i, j | 0 <= i < j < |writes| ensures writes[i].name != writes[j].name {
      if j < |letter.blocks| {
        if writes[i].name == writes[j].name {
          ChunkNamesDiffer(letter.key, s.domain, i, j);
        }
      } else {
        ChunkNamesAreNoSlots(s.lib, letter.key, i, s.domain, letter.manifest.recipientId,
                             SlotForMsgId(letter.manifest.msgId), s.domain);
      }
    }
  }

  // ---- one dispatch ----

  /** A send as it happened: the DNS table before it, the writer's clock, the number
      of writes that went through, and the chunks that were lost since. */
  datatype Dispatch = Dispatch(
    sender: Sender, letter: Letter, sealing: Bytes, before: Table, clock: Pool.Clock, cut: nat, lost: set<nat>)
  {
    function Writes(): seq<TxtWrite> {
      Send.Writes(sender, letter)
    }

    /** The letter is what its sender composes, and no write comes before the send
        began. */
    ghost predicate Proper() {
      && sender.lib.Laws() && WellMade(sender, letter, sealing)
      && forall i :: letter.manifest.ts <= clock(i)
    }

    /** The table the cut left behind. */
    function Table(): MemoryDns.Table
      requires cut <= |Writes()|
    {
      Written(before, Writes(), cut, clock)
    }

    /** The chunks that were written and are neither lost nor past their lifetime. */
    function Kept(now: u64): set<nat> {
      set i: nat | 0 <= i < |letter.blocks| && i < cut && i !in lost && now < ServedUntil(clock, i)
    }

    /** Every write went through and the manifest is still served. */
    predicate Announced(now: u64) {
      cut == |letter.blocks| + 1 && now < ServedUntil(clock, |letter.blocks|)
    }
  }

  /** Nothing has been published yet at the names the letter's chunks will use. */
  ghost predicate ChunkNamesFree(d: Dispatch) {
    forall i :: 0 <= i < |d.letter.blocks| ==> EntriesAt(d.before, ChunkDomain(d.letter.key, i, d.sender.domain)) == []
  }

  /** Nothing has been published yet at any slot of the receiver's mailbox. */
  ghost predicate MailboxFree(d: Dispatch, a: Account) {
    forall slot, zone :: 0 <= slot < SLOT_COUNT ==> EntriesAt(d.before, SlotDomain(a.lib, a.UserId(), slot, zone)) == []
  }

  /** The reader serves the letter's chunks as the table has them, except the lost ones. */
  ghost predicate SeesChunks(reader: Reader, d: Dispatch, now: u64)
    requires d.cut <= |d.Writes()|
  {
    forall i :: 0 <= i < |d.letter.blocks| ==>
      TxtsAt(reader, ChunkDomain(d.letter.key, i, d.sender.domain))
      == if i in d.lost then [] else TxtsOf(Lookup(d.Table(), ChunkDomain(d.letter.key, i, d.sender.domain), now))
  }

  /** The reader serves the receiver's mailbox as the table has it. */
  ghost predicate SeesMailbox(reader: Reader, d: Dispatch, a: Account, now: u64)
    requires d.cut <= |d.Writes()|
  {
    forall slot, zone :: 0 <= slot < SLOT_COUNT ==>
      reader(SlotDomain(a.lib, a.UserId(), slot, zone))
        == Lookup(d.Table(), SlotDomain(a.lib, a.UserId(), slot, zone), now)
  }

  /** The dispatch is addressed to this account, whose reader sees what is left of the
      chunks. */
  ghost predicate ChunksReach(d: Dispatch, a: Account, reader: Reader, now: u64) {
    && d.sender.lib == a.lib && Valid(d.letter.manifest) && d.letter.manifest.recipientId == a.UserId()
    && ChunkNamesFree(d) && d.cut <= |d.Writes()| && SeesChunks(reader, d, now)
  }

  /** And the mailbox, which was empty before. */
  ghost predicate Reaches(d: Dispatch, a: Account, reader: Reader, now: u64) {
    ChunksReach(d, a, reader, now) && MailboxFree(d, a) && SeesMailbox(reader, d, a, now)
  }

  lemma ChunkReadsBack(lib: Library, block: Bytes)
    requires lib.Laws() && |block| == BLOCK_LEN
    ensures FirstBlock(lib, [ChunkTxtRecord(lib, lib.wrap(block))]) == Some(block)
    ensures FirstBlock(lib, []) == None
  {
    var txt := ChunkTxtRecord(lib, lib.wrap(block));
    assert txt[|CHUNK_TXT_PREFIX|..] == lib.b64(lib.wrap(block));
  }

  /** The chunks in the receiver's view: those written, still served and not lost. */
  lemma ChunksSeen(d: Dispatch, a: Account, reader: Reader, now: u64, zone: string, i: nat)
    requires ChunksReach(d, a, reader, now) && i < |d.letter.blocks| && SameZone(zone, d.sender)
    requires a.lib.Laws() && |d.letter.blocks[i]| == BLOCK_LEN
    ensures ChunksAt(a.lib, reader, d.letter.key, zone)(i)
         == if i < d.cut && i !in d.lost && now < ServedUntil(d.clock, i) then Some(d.letter.blocks[i]) else None
  {
    var writes := d.Writes();
    var name := ChunkDomain(d.letter.key, i, d.sender.domain);
    assert ChunkDomain(d.letter.key, i, zone) == name;
    assert writes[i] == ChunkWrite(d.sender, d.letter, i);
    WritesAreDistinct(d.sender, d.letter);
    ServedAt(d.before, writes, d.cut, d.clock, name, now);
    ChunkReadsBack(a.lib, d.letter.blocks[i]);
    if i >= d.cut {
      forall j | 0 <= j < d.cut ensures writes[j].name != name {
        assert writes[j].name != writes[i].name;
      }
    }
  }

  lemma KeptSurvive(chunks: Chunks, d: Dispatch, now: u64)
    requires forall i :: 0 <= i < |d.letter.blocks| ==>
      chunks(i) == if i < d.cut && i !in d.lost && now < ServedUntil(d.clock, i) then Some(d.letter.blocks[i]) else None
    ensures Unaltered(chunks, d.letter.blocks) && Survivors(chunks, |d.letter.blocks|) == d.Kept(now)
  {
  }

  lemma ViewUnaltered(d: Dispatch, a: Account, reader: Reader, now: u64, zone: string)
    requires ChunksReach(d, a, reader, now) && SameZone(zone, d.sender)
    requires a.lib.Laws() && forall i :: 0 <= i < |d.letter.blocks| ==> |d.letter.blocks[i]| == BLOCK_LEN
    ensures Unaltered(ChunksAt(a.lib, reader, d.letter.key, zone), d.letter.blocks)
    ensures Survivors(ChunksAt(a.lib, reader, d.letter.key, zone), |d.letter.blocks|) == d.Kept(now)
  {
    var chunks := ChunksAt(a.lib, reader, d.letter.key, zone);
    forall i | 0 <= i < |d.letter.blocks|
      ensures chunks(i) == if i < d.cut && i !in d.lost
        && now < ServedUntil(d.clock, i) then Some(d.letter.blocks[i]) else None
    {
      ChunksSeen(d, a, reader, now, zone, i);
    }
    KeptSurvive(chunks, d, now);
  }

  lemma ProperBlocks(d: Dispatch)
    requires d.Proper()
    ensures forall i :: 0 <= i < |d.letter.blocks| ==> |d.letter.blocks[i]| == BLOCK_LEN
  {
    assert d.sender.lib.SplitsInto(d.letter.frame, d.letter.blocks, d.letter.manifest.dataChunks);
  }

  predicate SameZone(zone: string, s: Sender) {
    TrimEndDots(zone) == TrimEndDots(s.domain)
  }

  // ---- what a receive call comes across ----

  /** What one zone shows of a letter whose manifest is out. */
  function Sighting(s: Sender, letter: Letter, zone: string): seq<Item> {
    match Sign(s.lib, s.seed, letter.manifest)
    case None => []
    case Some(record) => if SameZone(zone, s) then [SlotRecord(record, zone)] else []
  }

  /** What the table lists at one name of the mailbox. */
  lemma SlotListed(d: Dispatch, a: Account, now: u64, zone: string, slot: nat)
    requires d.sender.lib == a.lib && Valid(d.letter.manifest) && d.letter.manifest.recipientId == a.UserId()
    requires MailboxFree(d, a) && d.cut <= |d.Writes()| && slot < SLOT_COUNT
    ensures var name := SlotDomain(a.lib, a.UserId(), slot, zone);
      Lookup(d.Table(), name, now)
      == if d.Announced(now) && name == SlotName(d.sender, d.letter)
         then Records([Sign(a.lib, d.sender.seed, d.letter.manifest).value]) else NoRecord
  {
    var writes := d.Writes();
    var n := |d.letter.blocks|;
    var name := SlotDomain(a.lib, a.UserId(), slot, zone);
    assert writes[n] == TxtWrite(SlotName(d.sender, d.letter), Sign(a.lib, d.sender.seed, d.letter.manifest).value);
    WritesAreDistinct(d.sender, d.letter);
    ServedAt(d.before, writes, d.cut, d.clock, name, now);
    forall j | 0 <= j < n ensures writes[j].name != name {
      ChunkNamesAreNoSlots(a.lib, d.letter.key, j, d.sender.domain, a.UserId(), slot, zone);
    }
    assert d.cut == n + 1 && name == SlotName(d.sender, d.letter) ==> writes[d.cut - 1].name == name;
  }

  /** What one slot of one zone lists. */
  lemma SlotSeen(d: Dispatch, a: Account, reader: Reader, now: u64, zone: string, slot: nat)
    requires Reaches(d, a, reader, now) && slot < SLOT_COUNT
    ensures SlotItems(a, reader, zone, slot)
         == if d.Announced(now) && slot == SlotForMsgId(d.letter.manifest.msgId)
            then Sighting(d.sender, d.letter, zone) else []
  {
    var name := SlotDomain(a.lib, a.UserId(), slot, zone);
    assert reader(name) == Lookup(d.Table(), name, now);
    SlotListed(d, a, now, zone, slot);
    SlotNamesDiffer(a.lib, a.UserId(), slot, zone, SlotForMsgId(d.letter.manifest.msgId), d.sender.domain);
  }

  /** A zone of which only one slot can list anything. */
  lemma {:induction false} OneSlotOnly(a: Account, reader: Reader, zone: string, n: nat, slot: nat, found: seq<Item>)
    requires forall k: nat :: k < n ==> SlotItems(a, reader, zone, k) == if k == slot then found else []
    ensures ZoneItems(a, reader, zone, n) == if slot < n then found else []
  {
    if n > 0 {
      OneSlotOnly(a, reader, zone, n - 1, slot, found);
      assert SlotItems(a, reader, zone, n - 1) == if n - 1 == slot then found else [];
    }
  }

  /** The slots of one zone hold the manifest once or nothing. */
  lemma ZoneSeen(d: Dispatch, a: Account, reader: Reader, now: u64, zone: string)
    requires Reaches(d, a, reader, now)
    ensures ZoneItems(a, reader, zone, SLOT_COUNT)
         == if d.Announced(now) then Sighting(d.sender, d.letter, zone) else []
  {
    var slot := SlotForMsgId(d.letter.manifest.msgId);
    var found := if d.Announced(now) then Sighting(d.sender, d.letter, zone) else [];
    forall k: nat | k < SLOT_COUNT ensures SlotItems(a, reader, zone, k) == if k == slot then found else [] {
      SlotSeen(d, a, reader, now, zone, k);
    }
    OneSlotOnly(a, reader, zone, SLOT_COUNT, slot, found);
  }

  /** One item for each zone that is walked and is the sender's. */
  function Sightings(s: Sender, letter: Letter, zones: seq<string>): seq<Item> {
    if zones == [] then []
    else Sightings(s, letter, zones[..|zones| - 1]) + Sighting(s, letter, Last(zones))
  }

  lemma {:induction false} MailboxSeen(d: Dispatch, a: Account, reader: Reader, now: u64, zones: seq<string>)
    requires Reaches(d, a, reader, now)
    ensures MailboxItems(a, reader, zones) == if d.Announced(now) then Sightings(d.sender, d.letter, zones) else []
    decreases |zones|
  {
    if zones != [] {
      MailboxSeen(d, a, reader, now, zones[..|zones| - 1]);
      ZoneSeen(d, a, reader, now, Last(zones));
    }
  }

  lemma {:induction false} SightingsAre(s: Sender, letter: Letter, zones: seq<string>)
    requires Valid(letter.manifest)
    ensures var record := Sign(s.lib, s.seed, letter.manifest).value;
      forall item :: item in Sightings(s, letter, zones) <==>
        item.SlotRecord? && item.record == record && item.zone in zones && SameZone(item.zone, s)
    decreases |zones|
  {
    if zones != [] {
      SightingsAre(s, letter, zones[..|zones| - 1]);
      assert zones == zones[..|zones| - 1] + [Last(zones)];
    }
  }

  // ---- the main theorem ----

  /** The circumstances of one receive call after a send that was cut: the sender's
      zone is walked, the sender is let in, and the pair is new. */
  ghost predicate Circumstances(d: Dispatch, a: Account, poll: Poll, st: Stores) {
    && d.Proper() && Reaches(d, a, poll.reader, poll.now)
    && (exists zone :: zone in Zones(a.domain, poll.contacts) && SameZone(zone, d.sender))
    && LetIn(a, poll, st, d.sender.Spk())
    && R.Pair(d.sender.Spk(), d.letter.manifest.msgId) !in R.Purged(st.seen, poll.now)
  }

  /** The send ran to its end, the message is served and alive, enough chunks are
      left, and the receiver has the key. */
  ghost predicate Deliverable(d: Dispatch, a: Account, poll: Poll, st: Stores) {
    && d.Announced(poll.now)
    && poll.now <= d.letter.manifest.exp
    && |d.Kept(poll.now)| >= d.letter.manifest.dataChunks
    && HoldsSecret(a, st.pool.rows, d.letter.manifest, d.letter.sealedTo, poll.now)
  }

  /** How many times the message is surfaced: once, except that the replay cache does
      not hold a pair at its expiry second and a message without a prekey then comes
      up for every zone the manifest is found in. */
  function Copies(d: Dispatch, a: Account, poll: Poll): nat {
    if Later(d.letter.manifest.exp, poll.now) || d.letter.manifest.prekeyId != NO_PREKEY then 1
    else |Sightings(d.sender, d.letter, Zones(a.domain, poll.contacts))|
  }

  lemma SightingLocates(s: Sender, letter: Letter, a: Account, poll: Poll, zone: string)
    requires s.lib == a.lib && s.lib.SignLaws() && Valid(letter.manifest) && letter.manifest.spk == s.Spk()
    requires letter.manifest.recipientId == a.UserId() && poll.now <= letter.manifest.exp
    ensures var item := SlotRecord(Sign(s.lib, s.seed, letter.manifest).value, zone);
      var pair := R.Pair(s.Spk(), letter.manifest.msgId);
      && MailboxManifest(a, item.record) == Some(letter.manifest)
      && Announces(a, poll.now, item) == Some(pair)
      && Locate(a, poll, item, pair) == Located(letter.manifest, zone)
  {
    SignedManifestVerifies(s.lib, s.seed, letter.manifest);
  }

  lemma LetterDecodesThere(d: Dispatch, a: Account, poll: Poll, zone: string)
    requires d.Proper() && ChunksReach(d, a, poll.reader, poll.now) && SameZone(zone, d.sender)
    requires poll.now <= d.letter.manifest.exp
    ensures DecodesIff(a, poll, d.letter.manifest, zone, |d.Kept(poll.now)| >= d.letter.manifest.dataChunks,
                       d.letter.sealedTo, Surfaces(a, poll.reader, d.letter))
  {
    var enough := |d.Kept(poll.now)| >= d.letter.manifest.dataChunks;
    ProperBlocks(d);
    ViewUnaltered(d, a, poll.reader, poll.now, zone);
    forall rows
      ensures Decoded(a, poll.reader, rows, d.letter.manifest, zone, poll.now)
           == if enough && HoldsSecret(a, rows, d.letter.manifest, d.letter.sealedTo, poll.now)
              then Some(Surfaces(a, poll.reader, d.letter)) else None
    {
      LetterDecodesIff(a, d.sender, poll.reader, rows, d.letter, d.sealing, zone, poll.now);
    }
  }

  /** Every sighting leads to the message, until it expires. */
  lemma SightingLeads(d: Dispatch, a: Account, poll: Poll, denied: map<Key32, Q.Denial>, item: Item)
    requires d.Proper() && ChunksReach(d, a, poll.reader, poll.now)
    requires item in Sightings(d.sender, d.letter, Zones(a.domain, poll.contacts))
    ensures AboutItOrSilent(a, poll, denied, item, d.letter.manifest,
                            |d.Kept(poll.now)| >= d.letter.manifest.dataChunks, d.letter.sealedTo,
                            Surfaces(a, poll.reader, d.letter), poll.now <= d.letter.manifest.exp)
  {
    SightingsAre(d.sender, d.letter, Zones(a.domain, poll.contacts));
    SignedManifestVerifies(a.lib, d.sender.seed, d.letter.manifest);
    if poll.now <= d.letter.manifest.exp {
      SightingLocates(d.sender, d.letter, a, poll, item.zone);
      LetterDecodesThere(d, a, poll, item.zone);
    } else {
      SilentIsHarmless(a, poll, denied, item, d.letter.manifest);
    }
  }

  lemma SilentIsHarmless(a: Account, poll: Poll, denied: map<Key32, Q.Denial>, item: Item, m: Manifest)
    requires item.SlotRecord? && MailboxManifest(a, item.record) == Some(m) && poll.now > m.exp
    ensures Announces(a, poll.now, item) == None && Harmless(a, poll, denied, item, m)
  {
  }

  /** Cut a send after any number of writes, lose any chunks, look at any time: one
      receive call then surfaces exactly the one message with exactly the sealed
      content, if the send had ended, the message is served and has not expired,
      enough chunks are left and the receiver holds the key; in every other case it
      surfaces nothing and leaves every store as it was. */
  lemma SendCutAnywhere(d: Dispatch, a: Account, poll: Poll, st: Stores)
    requires Circumstances(d, a, poll, st)
    ensures var pass := Process(a, poll, st, MailboxItems(a, poll.reader, Zones(a.domain, poll.contacts)));
      && !pass.aborted
      && if Deliverable(d, a, poll, st)
         then Yields(pass.events, Copies(d, a, poll), R.Pair(d.sender.Spk(), d.letter.manifest.msgId),
                     Surfaces(a, poll.reader, d.letter))
         else pass.events == [] && SameFrom(st, pass.stores, poll.now)
  {
    var zones := Zones(a.domain, poll.contacts);
    MailboxSeen(d, a, poll.reader, poll.now, zones);
    if d.Announced(poll.now) {
      SightingsYield(d, a, poll, st);
    }
    NothingIfNone(a, poll, st, MailboxItems(a, poll.reader, zones));
  }

  lemma NothingIfNone(a: Account, poll: Poll, st: Stores, items: seq<Item>)
    ensures var pass := Process(a, poll, st, items); pass.events == [] ==> SameFrom(st, pass.stores, poll.now)
  {
    if Process(a, poll, st, items).events == [] {
      NothingSurfacedNothingChanged(a, poll, st, items);
    }
  }

  lemma SomeSighting(s: Sender, letter: Letter, zones: seq<string>)
    requires Valid(letter.manifest) && exists zone :: zone in zones && SameZone(zone, s)
    ensures Sightings(s, letter, zones) != []
  {
    SightingsAre(s, letter, zones);
    var zone :| zone in zones && SameZone(zone, s);
    assert SlotRecord(Sign(s.lib, s.seed, letter.manifest).value, zone) in Sightings(s, letter, zones);
  }

  /** What a call surfaces that comes across nothing but sightings. */
  lemma SightingsYield(d: Dispatch, a: Account, poll: Poll, st: Stores)
    requires Circumstances(d, a, poll, st) && d.Announced(poll.now)
    ensures var pass := Process(a, poll, st, Sightings(d.sender, d.letter, Zones(a.domain, poll.contacts)));
      var n := if Deliverable(d, a, poll, st) then Copies(d, a, poll) else 0;
      !pass.aborted && Yields(pass.events, n, R.Pair(d.sender.Spk(), d.letter.manifest.msgId),
                              Surfaces(a, poll.reader, d.letter))
  {
    var m, msg := d.letter.manifest, Surfaces(a, poll.reader, d.letter);
    var items := Sightings(d.sender, d.letter, Zones(a.domain, poll.contacts));
    SomeSighting(d.sender, d.letter, Zones(a.domain, poll.contacts));
    SightingsLead(d, a, poll, st.queue.denied);
    NothingElse(a, poll, st, items, m, |d.Kept(poll.now)| >= m.dataChunks, d.letter.sealedTo, msg, poll.now <= m.exp);
  }

  lemma SightingsLead(d: Dispatch, a: Account, poll: Poll, denied: map<Key32, Q.Denial>)
    requires d.Proper() && ChunksReach(d, a, poll.reader, poll.now)
    ensures AboutNothingElse(a, poll, denied, Sightings(d.sender, d.letter, Zones(a.domain, poll.contacts)),
                             d.letter.manifest, |d.Kept(poll.now)| >= d.letter.manifest.dataChunks, d.letter.sealedTo,
                             Surfaces(a, poll.reader, d.letter), poll.now <= d.letter.manifest.exp)
  {
    var items := Sightings(d.sender, d.letter, Zones(a.domain, poll.contacts));
    forall i | 0 <= i < |items|
      ensures AboutItOrSilent(a, poll, denied, items[i], d.letter.manifest,
                              |d.Kept(poll.now)| >= d.letter.manifest.dataChunks, d.letter.sealedTo,
                              Surfaces(a, poll.reader, d.letter), poll.now <= d.letter.manifest.exp)
    {
      SightingLeads(d, a, poll, denied, items[i]);
    }
  }
}
