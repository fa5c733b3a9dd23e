/**
 The hypotheses of the delivery theorems can be met: for the library of
 `ToyLibrary`, an empty network and any short plaintext there is a message that is
 sent, seen and delivered, with a prekey or without; one that is returned twice
 at its expiry second; and one that a failed read discards.
 */
module Witness {
  import opened Prelude
  import opened DnsReader
  import opened SlotManifest
  import opened Addressing
  import opened MemoryDns
  import opened Delivery
  import opened Admission
  import opened DeliverySteps
  import opened DeliveryRuns
  import opened Send
  import opened EndToEnd
  import opened SendCut
  import opened Traffic
  import opened SendAmongOthers
  import Journey
  import Library
  import Toy = ToyLibrary
  import TextCodec
  import Message
  import Envelope
  import Json
  import P = Prekeys
  import RC = RotationChain
  import R = ReplayCache
  import Pool = PrekeyPool
  import Q = IntroQueue

  const KEY: Key32 := ZEROS16 + ZEROS16
  const CONTACT := RC.Contact("s", KEY, KEY, "a")
  const MAX_PLAINTEXT := 100

  /** A send that finds nothing in DNS, and one that finds a prekey. */
  const DRAW := Draw(0, ZEROS16, [], 0, (name: string) => NoRecord)
  const PREKEY_DRAW := Draw(0, ZEROS16, [], 0, (name: string) => Records([Toy.PREKEY_TXT]))

  const NO_PREKEYS := Pool.State(map[], map[])
  const NEW_STORES := Stores(map[], NO_PREKEYS, Q.EMPTY)

  /** The receiver's half of that prekey, and its publication. */
  const PREKEY_ROW := P.Row(Toy.PREKEY.publicKey, Toy.PREKEY.publicKey, 1000, Toy.PREKEY_TXT, 0)
  const ONE_PREKEY := Pool.State(map[7 := PREKEY_ROW], map["" := [Entry(Toy.PREKEY_TXT, 1000)]])

  // ---- a letter ----

  /** The key a message is sealed for, and the prekey id it names. */
  function SealedFor(pick: Option<P.Prekey>): Key32 {
    if pick.Some? then pick.value.publicKey else KEY
  }

  function IdOf(pick: Option<P.Prekey>): u32 {
    if pick.Some? then pick.value.id else NO_PREKEY
  }

  /** The send picks this prekey, or none, and wraps nothing. */
  ghost predicate Draws(s: Sender, draw: Draw, pick: Option<P.Prekey>) {
    && draw.now == 0 && draw.msgId == ZEROS16 && draw.sealing == []
    && PickRecipientPrekey(s.lib, CONTACT, draw) == pick
    && forall plaintext :: MaybeWrapEnvelope(s, CONTACT, draw.reader, plaintext) == plaintext
  }

  lemma DrawsNothing(s: Sender)
    ensures Draws(s, DRAW, None)
  {
    assert TxtsAt(DRAW.reader, s.lib.prekeyName("s", "a")) == [];
    assert TxtsAt(DRAW.reader, s.lib.identityDomain("s", "a")) == [];
  }

  lemma DrawsPrekey(s: Sender)
    requires s.lib == Toy.Toy()
    ensures Draws(s, PREKEY_DRAW, Some(Toy.PREKEY))
  {
    ReadsRecords(s.lib);
    PicksOnly(s.lib);
    NoVersions(s.lib);
  }

  /** One TXT string at every name. */
  lemma ReadsRecords(lib: Library.Library)
    ensures TxtsAt(PREKEY_DRAW.reader, lib.prekeyName("s", "a")) == [Toy.PREKEY_TXT]
    ensures TxtsAt(PREKEY_DRAW.reader, lib.identityDomain("s", "a")) == [Toy.PREKEY_TXT]
  {
  }

  lemma PicksOnly(lib: Library.Library)
    requires lib == Toy.Toy()
    ensures LivePrekeys(lib, [Toy.PREKEY_TXT], KEY, 0) == [Toy.PREKEY]
  {
    var txts := [Toy.PREKEY_TXT];
    assert lib.prekey(txts[0], KEY) == Some(Toy.PREKEY);
    assert txts[1..] == [] && LivePrekeys(lib, txts[1..], KEY, 0) == [];
  }

  lemma NoVersions(lib: Library.Library)
    requires lib == Toy.Toy()
    ensures VersionsIn(lib, [Toy.PREKEY_TXT], KEY) == [1]
  {
    var txts := [Toy.PREKEY_TXT];
    assert lib.identity(txts[0]) == None && txts[1..] == [];
  }

  lemma AadLength(prekeyId: u32)
    ensures |BuildAad(ZEROS16, KEY, KEY, 0, DEFAULT_TTL_SECONDS, prekeyId)| <= Message.MAX_HEADER_LEN + 4
  {
    Message.HeaderLength(Message.Header(1, Message.Data, ZEROS16, KEY, KEY, 0, 0, 0, DEFAULT_TTL_SECONDS));
  }

  lemma FrameLength(m: Message.Message)
    ensures |Message.ToBytes(m)| <= 2 + Message.MAX_HEADER_LEN + |m.payload| + Message.SIGNATURE_LEN
  {
    Message.HeaderLength(m.header);
  }

  lemma SplitIsSmall(frame: Bytes)
    requires |frame| <= 1000
    ensures Toy.Split(frame).Some?
    ensures var (blocks, k) := Toy.Split(frame).value; 1 <= k < |blocks| <= 9
  {
  }

  function FrameFor(s: Sender, payload: Bytes): Bytes {
    Message.ToBytes(Message.Message(OuterHeader(s, ZEROS16, KEY, 0), payload, ZEROS16 + ZEROS16))
  }

  function LetterFor(s: Sender, pick: Option<P.Prekey>, plaintext: Bytes, payload: Bytes, blocks: seq<Bytes>,
                     k: nat): Letter
    requires |blocks| < U32_LIMIT && k < U32_LIMIT
  {
    Letter(Manifest(ZEROS16, s.Spk(), KEY, |blocks|, k, IdOf(pick), 0, 300), MsgKey(s.lib, ZEROS16, KEY, s.Spk()),
           FrameFor(s, payload), blocks, plaintext, SealedFor(pick))
  }

  /** What composing comes to. */
  lemma ComposeIs(s: Sender, draw: Draw, pick: Option<P.Prekey>, plaintext: Bytes, payload: Bytes, blocks: seq<Bytes>,
                  k: nat)
    requires Draws(s, draw, pick) && s.lib.userId(KEY) == KEY && s.UserId() == KEY
    requires s.lib.seal(SealedFor(pick), plaintext, BuildAad(ZEROS16, KEY, KEY, 0, DEFAULT_TTL_SECONDS, IdOf(pick)), [])
          == Some(payload)
    requires s.lib.split(FrameFor(s, payload)) == Some((blocks, k)) && |blocks| < U32_LIMIT && k < U32_LIMIT
    ensures Compose(s, CONTACT, plaintext, draw) == Ok(LetterFor(s, pick, plaintext, payload, blocks, k))
  {
    assert Addressee(s, CONTACT) == CONTACT;
    assert MaybeWrapEnvelope(s, CONTACT, draw.reader, plaintext) == plaintext;
    EncloseIs(s, draw, pick, plaintext, payload, blocks, k);
  }

  lemma EncloseIs(s: Sender, draw: Draw, pick: Option<P.Prekey>, plaintext: Bytes, payload: Bytes, blocks: seq<Bytes>,
                  k: nat)
    requires draw.now == 0 && draw.msgId == ZEROS16
    requires s.lib.split(FrameFor(s, payload)) == Some((blocks, k)) && |blocks| < U32_LIMIT && k < U32_LIMIT
    ensures Enclose(s, draw, KEY, IdOf(pick), plaintext, SealedFor(pick), payload)
         == Ok(LetterFor(s, pick, plaintext, payload, blocks, k))
  {
    Enclosed(s, draw, KEY, IdOf(pick), plaintext, SealedFor(pick), payload, FrameFor(s, payload), blocks, k);
  }

  lemma Enclosed(s: Sender, draw: Draw, recipientId: Key32, prekeyId: u32, raw: Bytes, sealedTo: Key32, payload: Bytes,
                 frame: Bytes, blocks: seq<Bytes>, k: nat)
    requires frame == Message.ToBytes(Message.Message(OuterHeader(s, draw.msgId, recipientId, draw.now), payload,
                                                      ZEROS16 + ZEROS16))
    requires s.lib.split(frame) == Some((blocks, k)) && |blocks| < U32_LIMIT && k < U32_LIMIT
    ensures Enclose(s, draw, recipientId, prekeyId, raw, sealedTo, payload)
         == Ok(Letter(Manifest(draw.msgId, s.Spk(), recipientId, |blocks|, k, prekeyId, draw.now,
                               SatAdd64(draw.now, DEFAULT_TTL_SECONDS)),
                      MsgKey(s.lib, draw.msgId, recipientId, s.Spk()), frame, blocks, raw, sealedTo))
  {
  }

  /** The toy library seals the plaintext and splits the frame. */
  lemma ToyAccepts(s: Sender, pick: Option<P.Prekey>, plaintext: Bytes)
    returns (payload: Bytes, blocks: seq<Bytes>, k: nat)
    requires s.lib == Toy.Toy() && |plaintext| <= MAX_PLAINTEXT
    ensures s.lib.seal(SealedFor(pick), plaintext, BuildAad(ZEROS16, KEY, KEY, 0, DEFAULT_TTL_SECONDS, IdOf(pick)), [])
         == Some(payload)
    ensures s.lib.split(FrameFor(s, payload)) == Some((blocks, k)) && 1 <= k < |blocks| <= 9
  {
    var aad := BuildAad(ZEROS16, KEY, KEY, 0, DEFAULT_TTL_SECONDS, IdOf(pick));
    AadLength(IdOf(pick));
    payload := ToySealed(SealedFor(pick), plaintext, aad);
    blocks, k := ToySplit(s, payload);
  }

  lemma ToySealed(public: Key32, plaintext: Bytes, aad: Bytes) returns (payload: Bytes)
    requires |aad| < U64_LIMIT
    ensures Toy.Toy().seal(public, plaintext, aad, []) == Some(payload) && |payload| == 52 + |aad| + |plaintext|
  {
    payload := Toy.Header(public, aad) + plaintext;
  }

  lemma ToySplit(s: Sender, payload: Bytes) returns (blocks: seq<Bytes>, k: nat)
    requires |payload| <= 500
    ensures Toy.Toy().split(FrameFor(s, payload)) == Some((blocks, k)) && 1 <= k < |blocks| <= 9
  {
    FrameLength(Message.Message(OuterHeader(s, ZEROS16, KEY, 0), payload, ZEROS16 + ZEROS16));
    SplitIsSmall(FrameFor(s, payload));
    blocks, k := Toy.Split(FrameFor(s, payload)).value.0, Toy.Split(FrameFor(s, payload)).value.1;
  }

  /** Keys are their own public keys and ids. */
  ghost predicate OwnKeys(s: Sender) {
    && s.seed == KEY && s.lib.userId(KEY) == KEY && s.lib.signingKeyOf(KEY) == KEY
    && forall key :: s.lib.publicOf(key) == key
  }

  /** Sender and receiver are one identity in the zone "a". */
  lemma TheSender() returns (s: Sender)
    ensures s.lib == Toy.Toy() && s.lib.Laws() && OwnKeys(s) && s.domain == "a"
  {
    s := Sender(Toy.Toy(), "s", "a", KEY);
    ToyOwnKeys(s);
    ToyLaws(s.lib);
  }

  lemma ToyOwnKeys(s: Sender)
    requires s.lib == Toy.Toy() && s.seed == KEY
    ensures OwnKeys(s)
  {
  }

  lemma ToyLaws(lib: Library.Library)
    requires lib == Toy.Toy()
    ensures lib.Laws()
  {
    Toy.ToyIsLawful();
  }

  /** What the rest needs to know of the letter. */
  ghost predicate IsLetter(letter: Letter, pick: Option<P.Prekey>) {
    var m := letter.manifest;
    && Valid(m) && m.msgId == ZEROS16 && m.spk == KEY && m.recipientId == KEY && m.prekeyId == IdOf(pick)
       && m.exp == 300
    && letter.sealedTo == SealedFor(pick)
  }

  lemma Composes(s: Sender, draw: Draw, pick: Option<P.Prekey>, plaintext: Bytes) returns (letter: Letter)
    requires s.lib == Toy.Toy() && OwnKeys(s) && Draws(s, draw, pick) && |plaintext| <= MAX_PLAINTEXT
    ensures Compose(s, CONTACT, plaintext, draw) == Ok(letter) && IsLetter(letter, pick)
  {
    var payload, blocks, k := ToyAccepts(s, pick, plaintext);
    ComposeIs(s, draw, pick, plaintext, payload, blocks, k);
    letter := LetterFor(s, pick, plaintext, payload, blocks, k);
  }

  // ---- its dispatch ----

  /** Every write goes through, in the same second, over the table given. */
  ghost predicate Undisturbed(d: Dispatch, before: Table, tick: u64) {
    && d.before == before && d.lost == {} && d.cut == |d.letter.blocks| + 1
    && forall i :: d.clock(i) == tick
  }

  /** A dispatch of the plaintext, and the account it is for. */
  ghost predicate Sent(d: Dispatch, a: Account, draw: Draw, pick: Option<P.Prekey>, plaintext: Bytes, before: Table,
                       tick: u64)
  {
    && Journey.Carries(d, CONTACT, plaintext, draw) && d.Proper() && Undisturbed(d, before, tick)
    && IsLetter(d.letter, pick) && d.sender.lib == a.lib && a.UserId() == KEY && d.sender.domain == a.domain == "a"
    && a.seed == KEY && (forall key :: a.lib.publicOf(key) == key) && a.poolName == a.lib.prekeyName("s", "a")
    && Draws(d.sender, draw, pick)
  }

  lemma Dispatched(s: Sender, draw: Draw, pick: Option<P.Prekey>, plaintext: Bytes, before: Table, tick: u64)
    returns (d: Dispatch, a: Account)
    requires s.lib == Toy.Toy() && s.lib.Laws() && OwnKeys(s) && s.domain == "a" && Draws(s, draw, pick)
    requires |plaintext| <= MAX_PLAINTEXT
    ensures Sent(d, a, draw, pick, plaintext, before, tick) && a.lib == s.lib
  {
    var letter := Composes(s, draw, pick, plaintext);
    d := DispatchOf(s, letter, draw, plaintext, before, tick);
    a := Account(s.lib, s.domain, KEY, false, s.lib.prekeyName("s", "a"));
    IsSent(d, a, draw, pick, plaintext, before, tick);
  }

  lemma DispatchOf(s: Sender, letter: Letter, draw: Draw, plaintext: Bytes, before: Table, tick: u64)
    returns (d: Dispatch)
    requires Compose(s, CONTACT, plaintext, draw) == Ok(letter) && s.lib.Laws() && draw.now == 0
    ensures d.sender == s && d.letter == letter && Journey.Carries(d, CONTACT, plaintext, draw)
    ensures d.Proper() && Undisturbed(d, before, tick)
  {
    d := Dispatch(s, letter, draw.sealing, before, (i: nat) => tick, |letter.blocks| + 1, {});
    Journey.ComposedIsProper(d, CONTACT, plaintext, draw);
  }

  lemma IsSent(d: Dispatch, a: Account, draw: Draw, pick: Option<P.Prekey>, plaintext: Bytes, before: Table, tick: u64)
    requires Journey.Carries(d, CONTACT, plaintext, draw) && d.Proper() && Undisturbed(d, before, tick)
    requires IsLetter(d.letter, pick) && Draws(d.sender, draw, pick) && OwnKeys(d.sender) && d.sender.domain == "a"
    requires a == Account(d.sender.lib, d.sender.domain, KEY, false, d.sender.lib.prekeyName("s", "a"))
    ensures Sent(d, a, draw, pick, plaintext, before, tick)
  {
  }

  lemma SentPlainly(plaintext: Bytes, before: Table, tick: u64) returns (d: Dispatch, a: Account)
    requires |plaintext| <= MAX_PLAINTEXT
    ensures Sent(d, a, DRAW, None, plaintext, before, tick)
  {
    var s := TheSender();
    DrawsNothing(s);
    d, a := Dispatched(s, DRAW, None, plaintext, before, tick);
  }

  // ---- a call that sees it ----

  /** A call that trusts everybody, with this view of DNS. */
  function CallWith(reader: Reader, now: u64): Poll {
    Poll(now, reader,
         RC.Verifier((txt: string, subject: string) => None, (txt: string, subject: string) => None,
                     (user: string) => ""),
         [], (id: u32) => true)
  }

  /** The table as it is. */
  function TableReader(table: Table, now: u64): Reader {
    (name: string) => Lookup(table, name, now)
  }

  function CallAt(table: Table, now: u64): Poll {
    CallWith(TableReader(table, now), now)
  }

  lemma TrustsEverybody(a: Account, reader: Reader, now: u64, st: Stores, spk: Key32)
    ensures ForInbox(a, CallWith(reader, now), spk) && LetIn(a, CallWith(reader, now), st, spk)
  {
  }

  lemma AllWritten(d: Dispatch)
    requires Valid(d.letter.manifest) && d.cut == |d.letter.blocks| + 1
    ensures d.cut == |d.Writes()|
  {
  }

  /** A reader that serves every chunk as the table has it. */
  lemma ReachesWith(d: Dispatch, tick: u64, before: Table, a: Account, reader: Reader, now: u64)
    requires Undisturbed(d, before, tick) && ChunkNamesFree(d)
    requires Valid(d.letter.manifest) && d.sender.lib == a.lib && d.letter.manifest.recipientId == a.UserId()
    requires d.cut == |d.Writes()|
    requires forall i :: 0 <= i < |d.letter.blocks| ==>
      var name := ChunkDomain(d.letter.key, i, d.sender.domain); reader(name) == Lookup(d.Table(), name, now)
    ensures ChunksReach(d, a, reader, now)
  {
  }

  lemma SeesAll(d: Dispatch, a: Account, now: u64)
    requires d.cut <= |d.Writes()|
    ensures SeesMailbox(TableReader(d.Table(), now), d, a, now)
    ensures forall zone :: SeesSlot(TableReader(d.Table(), now), d, a, now, zone)
  {
  }

  lemma NothingLost(d: Dispatch, before: Table, tick: u64, now: u64)
    requires Undisturbed(d, before, tick) && now < SatAdd64(tick, DEFAULT_TTL_SECONDS)
    ensures |d.Kept(now)| == |d.letter.blocks|
  {
    Toy.BelowSize(|d.letter.blocks|);
    assert forall i: nat :: ServedUntil(d.clock, i) == SatAdd64(tick, DEFAULT_TTL_SECONDS);
    assert d.Kept(now) == Toy.Below(|d.letter.blocks|);
  }

  lemma EnoughBlocks(d: Dispatch)
    requires d.Proper()
    ensures d.letter.manifest.dataChunks <= |d.letter.blocks|
  {
    assert d.sender.lib.SplitsInto(d.letter.frame, d.letter.blocks, d.letter.manifest.dataChunks);
  }

  /** All of it is left while DNS serves it. */
  lemma AllThere(d: Dispatch, before: Table, tick: u64, now: u64)
    requires d.Proper() && Undisturbed(d, before, tick) && now < SatAdd64(tick, DEFAULT_TTL_SECONDS)
    ensures d.Announced(now) && |d.Kept(now)| >= d.letter.manifest.dataChunks
  {
    NothingLost(d, before, tick, now);
    EnoughBlocks(d);
  }

  lemma OwnZoneWalked(a: Account, s: Sender)
    requires a.domain == s.domain
    ensures Zones(a.domain, []) == [a.domain] && SameZone(a.domain, s)
    ensures exists zone :: zone in Zones(a.domain, []) && SameZone(zone, s)
  {
    assert a.domain in Zones(a.domain, []) && SameZone(a.domain, s);
  }

  /** Over an empty table, the table's reader sees everything. */
  lemma Reached(d: Dispatch, tick: u64, a: Account, now: u64)
    requires Undisturbed(d, map[], tick) && Valid(d.letter.manifest)
    requires d.sender.lib == a.lib && d.letter.manifest.recipientId == a.UserId()
    ensures d.cut == |d.Writes()| && Reaches(d, a, TableReader(d.Table(), now), now)
  {
    AllWritten(d);
    ReachesWith(d, tick, map[], a, TableReader(d.Table(), now), now);
    SeesAll(d, a, now);
  }

  /** Nobody is pinned, every name can be read, and no revocation verifies. */
  ghost predicate Calm(poll: Poll) {
    && poll.contacts == []
    && (forall name :: !poll.reader(name).Failed?)
    && (forall txt, subject :: poll.verifier.revocation(txt, subject).None?)
  }

  lemma TableIsCalm(table: Table, now: u64)
    ensures Calm(CallAt(table, now))
  {
  }

  /** A call at `now`, over an empty table but for the letter. */
  lemma CallThatSees(d: Dispatch, a: Account, tick: u64, now: u64, st: Stores) returns (poll: Poll)
    requires d.Proper() && Undisturbed(d, map[], tick) && now < SatAdd64(tick, DEFAULT_TTL_SECONDS)
    requires Valid(d.letter.manifest) && d.sender.lib == a.lib && d.letter.manifest.recipientId == a.UserId()
    requires d.sender.domain == a.domain
    ensures poll.now == now && poll.contacts == [] && Calm(poll)
    ensures Reaches(d, a, poll.reader, poll.now) && d.Announced(poll.now) && LetIn(a, poll, st, d.sender.Spk())
    ensures |d.Kept(poll.now)| >= d.letter.manifest.dataChunks
    ensures exists zone :: zone in Zones(a.domain, poll.contacts) && SameZone(zone, d.sender)
  {
    Reached(d, tick, a, now);
    poll := CallAt(d.Table(), now);
    TableIsCalm(d.Table(), now);
    AllThere(d, map[], tick, now);
    TrustsEverybody(a, TableReader(d.Table(), now), now, st, d.sender.Spk());
    OwnZoneWalked(a, d.sender);
  }

  lemma MeetsCircumstances(d: Dispatch, a: Account, plaintext: Bytes, tick: u64, now: u64) returns (poll: Poll)
    requires Sent(d, a, DRAW, None, plaintext, map[], tick) && now <= 300 && now < SatAdd64(tick, DEFAULT_TTL_SECONDS)
    ensures poll.now == now && poll.contacts == []
    ensures d.letter.manifest.exp == 300 && d.letter.manifest.prekeyId == NO_PREKEY
    ensures Circumstances(d, a, poll, NEW_STORES) && Deliverable(d, a, poll, NEW_STORES)
  {
    poll := CallThatSees(d, a, tick, now, NEW_STORES);
    Assembles(d, a, poll);
  }

  lemma Assembles(d: Dispatch, a: Account, poll: Poll)
    requires d.Proper() && Reaches(d, a, poll.reader, poll.now)
    requires exists zone :: zone in Zones(a.domain, poll.contacts) && SameZone(zone, d.sender)
    requires LetIn(a, poll, NEW_STORES, d.sender.Spk())
    requires d.Announced(poll.now) && poll.now <= d.letter.manifest.exp
    requires |d.Kept(poll.now)| >= d.letter.manifest.dataChunks
    requires d.letter.manifest.prekeyId == NO_PREKEY && d.letter.sealedTo == a.lib.publicOf(a.seed)
    ensures Circumstances(d, a, poll, NEW_STORES) && Deliverable(d, a, poll, NEW_STORES)
  {
    assert R.Purged(map[], poll.now) == map[];
  }

  /** The circumstances of `SendCutAnywhere` can be met and the message delivered, for
      every short plaintext, from the second of sending up to the expiry second
      itself, as long as DNS serves it. */
  lemma CircumstancesCanBeMet(plaintext: Bytes, tick: u64, now: u64) returns (d: Dispatch, a: Account, poll: Poll)
    requires |plaintext| <= MAX_PLAINTEXT && now <= 300 && now < SatAdd64(tick, DEFAULT_TTL_SECONDS)
    ensures Journey.Carries(d, CONTACT, plaintext, DRAW)
    ensures Circumstances(d, a, poll, NEW_STORES) && Deliverable(d, a, poll, NEW_STORES)
  {
    d, a := SentPlainly(plaintext, map[], tick);
    poll := MeetsCircumstances(d, a, plaintext, tick, now);
  }

  // ---- twice at the expiry second ----

  /** What `TwiceAtExpiry` says does happen: if the writer's clock was a second ahead of
      the manifest's, DNS still serves the message at its expiry second, and a call
      that comes across it twice returns it twice. */
  lemma TwiceAtExpiryHappens(plaintext: Bytes) returns (d: Dispatch, a: Account, poll: Poll, item: Item)
    requires |plaintext| <= MAX_PLAINTEXT
    ensures Journey.Carries(d, CONTACT, plaintext, DRAW) && poll.now == d.letter.manifest.exp
    ensures item in MailboxItems(a, poll.reader, Zones(a.domain, poll.contacts))
    ensures var msg := Surfaces(a, poll.reader, d.letter);
      Inboxed(Process(a, poll, NEW_STORES, [item, item]).events) == [msg, msg]
  {
    d, a := SentPlainly(plaintext, map[], 1);
    poll, item := TwiceFor(d, a, plaintext);
  }

  lemma TwiceFor(d: Dispatch, a: Account, plaintext: Bytes) returns (poll: Poll, item: Item)
    requires Sent(d, a, DRAW, None, plaintext, map[], 1)
    ensures poll.now == d.letter.manifest.exp
    ensures item in MailboxItems(a, poll.reader, Zones(a.domain, poll.contacts))
    ensures var msg := Surfaces(a, poll.reader, d.letter);
      Inboxed(Process(a, poll, NEW_STORES, [item, item]).events) == [msg, msg]
  {
    poll := MeetsCircumstances(d, a, plaintext, 1, 300);
    item := SightedAtExpiry(d, a, poll);
  }

  lemma SightedAtExpiry(d: Dispatch, a: Account, poll: Poll) returns (item: Item)
    requires Circumstances(d, a, poll, NEW_STORES) && Deliverable(d, a, poll, NEW_STORES)
    requires d.letter.manifest.prekeyId == NO_PREKEY && poll.now == d.letter.manifest.exp
    requires poll.contacts == []
    ensures item in MailboxItems(a, poll.reader, Zones(a.domain, poll.contacts))
    ensures var msg := Surfaces(a, poll.reader, d.letter);
      Inboxed(Process(a, poll, NEW_STORES, [item, item]).events) == [msg, msg]
  {
    var m := d.letter.manifest;
    var zone;
    zone, item := SomeSightingOf(d, a, poll);
    SightingDecodes(d, a, poll, zone);
    ToInboxUnseen(d, a, poll);
    TwiceAtExpiry(a, poll, NEW_STORES, item.record, zone, m);
  }

  lemma ToInboxUnseen(d: Dispatch, a: Account, poll: Poll)
    requires Circumstances(d, a, poll, NEW_STORES) && poll.contacts == []
    ensures ForInbox(a, poll, d.letter.manifest.spk)
    ensures R.Pair(d.letter.manifest.spk, d.letter.manifest.msgId) !in R.Purged(NEW_STORES.seen, poll.now)
  {
  }

  lemma SomeSightingOf(d: Dispatch, a: Account, poll: Poll) returns (zone: string, item: Item)
    requires Circumstances(d, a, poll, NEW_STORES) && Deliverable(d, a, poll, NEW_STORES)
    ensures item in MailboxItems(a, poll.reader, Zones(a.domain, poll.contacts)) && SameZone(zone, d.sender)
    ensures item.SlotRecord? && item.zone == zone && MailboxManifest(a, item.record) == Some(d.letter.manifest)
  {
    var zones := Zones(a.domain, poll.contacts);
    zone :| zone in zones && SameZone(zone, d.sender);
    item := SlotRecord(Sign(a.lib, d.sender.seed, d.letter.manifest).value, zone);
    SightingListed(d, a, poll.reader, poll.now, zones, zone);
    SightingLocates(d.sender, d.letter, a, poll, zone);
  }

  lemma SightingListed(d: Dispatch, a: Account, reader: Reader, now: u64, zones: seq<string>, zone: string)
    requires Reaches(d, a, reader, now) && d.Announced(now) && zone in zones && SameZone(zone, d.sender)
    ensures SlotRecord(Sign(a.lib, d.sender.seed, d.letter.manifest).value, zone) in MailboxItems(a, reader, zones)
  {
    MailboxSeen(d, a, reader, now, zones);
    SightingIsThere(d.sender, d.letter, zones, zone);
  }

  lemma SightingIsThere(s: Sender, letter: Letter, zones: seq<string>, zone: string)
    requires Valid(letter.manifest) && zone in zones && SameZone(zone, s)
    ensures SlotRecord(Sign(s.lib, s.seed, letter.manifest).value, zone) in Sightings(s, letter, zones)
  {
    SightingsAre(s, letter, zones);
  }

  lemma SightingDecodes(d: Dispatch, a: Account, poll: Poll, zone: string)
    requires Circumstances(d, a, poll, NEW_STORES) && Deliverable(d, a, poll, NEW_STORES) && SameZone(zone, d.sender)
    ensures Decoded(a, poll.reader, NEW_STORES.pool.rows, d.letter.manifest, zone, poll.now)
         == Some(Surfaces(a, poll.reader, d.letter))
  {
    LetterDecodesThere(d, a, poll, zone);
  }

  // ---- the whole journey ----

  lemma NoEnvelope(parse: Json.Parser, plaintext: Bytes)
    requires !(Envelope.PREFIX <= plaintext)
    ensures !Envelope.IsEnvelope(parse, plaintext)
  {
  }

  /** Prekey records as the account's library reads them. */
  function CodecOf(a: Account): Pool.Codec {
    Pool.Codec((p: P.Prekey) => "", (txt: string) => a.lib.prekey(txt, KEY), a.lib.publicOf)
  }

  /** The receiver at the moment of the send. */
  function Receiver(pool: Pool.State): Machine {
    Machine(NEW_STORES.(pool := pool), 1)
  }

  lemma LooksUpNothing(a: Account, s: Sender)
    requires a.lib == s.lib && a.lib.publicOf(a.seed) == KEY && a.poolName == a.lib.prekeyName("s", "a")
    ensures LookedUp(a, s, CONTACT, DRAW, NO_PREKEYS, CodecOf(a))
  {
    assert TxtsAt(DRAW.reader, a.poolName) == [] == TxtsOf(Lookup(map[], a.poolName, 0));
  }

  lemma LooksUpPrekey(a: Account, s: Sender)
    requires a.lib == s.lib == Toy.Toy() && (forall key :: a.lib.publicOf(key) == key) && a.seed == KEY
    requires a.poolName == a.lib.prekeyName("s", "a")
    ensures LookedUp(a, s, CONTACT, PREKEY_DRAW, ONE_PREKEY, CodecOf(a))
  {
    var codec := CodecOf(a);
    assert a.poolName == "";
    OnePrekeyServed();
    OnePrekeyHeld(codec);
  }

  lemma OnePrekeyServed()
    ensures TxtsOf(Lookup(ONE_PREKEY.dns, "", 0)) == [Toy.PREKEY_TXT]
  {
    var entries := [Entry(Toy.PREKEY_TXT, 1000)];
    assert entries[1..] == [] && LiveValues(entries, 0) == [Toy.PREKEY_TXT];
  }

  lemma OnePrekeyHeld(codec: Pool.Codec)
    requires forall txt :: codec.parse(txt) == if txt == Toy.PREKEY_TXT then Some(Toy.PREKEY) else None
    requires forall key :: codec.publicOf(key) == key
    ensures Pool.Openable(ONE_PREKEY, "", codec, 0)
  {
    forall txt, p | Pool.Offered(ONE_PREKEY.dns, "", codec, txt, p, 0) ensures Pool.Held(ONE_PREKEY.rows, p) {
      assert codec.parse(txt) == if txt == Toy.PREKEY_TXT then Some(Toy.PREKEY) else None;
    }
  }

  lemma DrawnPlainly(s: Sender, draw: Draw, pick: Option<P.Prekey>, plaintext: Bytes)
    requires Draws(s, draw, pick) && !(Envelope.PREFIX <= plaintext)
    ensures Picked(s, CONTACT, draw) == pick && Journey.Unambiguous(s, CONTACT, plaintext, draw)
  {
    assert Addressee(s, CONTACT) == CONTACT;
    NoEnvelope(s.lib.json, plaintext);
  }

  /** What is left of `OnItsWay` when the receiver's client has not moved since. */
  ghost predicate JustSent(d: Dispatch, a: Account, draw: Draw, plaintext: Bytes, pool: Pool.State, poll: Poll) {
    && Journey.Carries(d, CONTACT, plaintext, draw) && Journey.Unambiguous(d.sender, CONTACT, plaintext, draw)
    && d.sender.lib.Laws() && (forall i :: draw.now <= d.clock(i))
    && LookedUp(a, d.sender, CONTACT, draw, pool, CodecOf(a)) && draw.now <= poll.now
    && d.cut == |d.letter.blocks| + 1 && |d.Kept(poll.now)| >= d.letter.manifest.dataChunks
    && poll.now < d.letter.manifest.exp && poll.now < I64_MAX
    && Journey.PrekeyLasts(Picked(d.sender, CONTACT, draw), poll.now)
    && LetIn(a, poll, NEW_STORES.(pool := pool), d.sender.Spk())
  }

  lemma WasJustSent(d: Dispatch, a: Account, draw: Draw, pick: Option<P.Prekey>, plaintext: Bytes, before: Table,
                    pool: Pool.State, poll: Poll)
    requires Sent(d, a, draw, pick, plaintext, before, 0) && !(Envelope.PREFIX <= plaintext)
    requires LookedUp(a, d.sender, CONTACT, draw, pool, CodecOf(a)) && Journey.PrekeyLasts(pick, poll.now)
    requires |d.Kept(poll.now)| >= d.letter.manifest.dataChunks && poll.now < 300
    requires LetIn(a, poll, NEW_STORES.(pool := pool), d.sender.Spk())
    ensures JustSent(d, a, draw, plaintext, pool, poll)
  {
    DrawnPlainly(d.sender, draw, pick, plaintext);
  }

  lemma SeenAtOnce(d: Dispatch, a: Account, draw: Draw, pick: Option<P.Prekey>, plaintext: Bytes, pool: Pool.State,
                   now: u64)
    returns (poll: Poll)
    requires Sent(d, a, draw, pick, plaintext, map[], 0) && !(Envelope.PREFIX <= plaintext) && now < 300
    requires LookedUp(a, d.sender, CONTACT, draw, pool, CodecOf(a)) && Journey.PrekeyLasts(pick, now)
    ensures JustSent(d, a, draw, plaintext, pool, poll) && poll.now == now && Reaches(d, a, poll.reader, poll.now)
    ensures Calm(poll) && a.domain == "a"
    ensures exists zone :: zone in Zones(a.domain, poll.contacts) && SameZone(zone, d.sender)
  {
    poll := CallThatSees(d, a, 0, now, NEW_STORES.(pool := pool));
    WasJustSent(d, a, draw, pick, plaintext, map[], pool, poll);
  }

  lemma JustSentIsOnItsWay(d: Dispatch, a: Account, draw: Draw, plaintext: Bytes, pool: Pool.State, poll: Poll)
    requires JustSent(d, a, draw, plaintext, pool, poll)
    ensures Journey.OnItsWay(d, CONTACT, plaintext, draw, a, CodecOf(a), Receiver(pool), [], poll)
  {
    NoSteps(a, CodecOf(a), Receiver(pool), draw.now);
    assert Journey.Untouched([], d.letter.manifest);
  }

  lemma NoSteps(a: Account, codec: Pool.Codec, mc: Machine, since: u64)
    ensures LegalRun(a, codec, mc, [], since) && EndOf([], since) == since
    ensures Final(a, codec, mc, []) == mc && Events(a, codec, mc, []) == []
  {
  }

  /** The hypotheses of `SentIsReceived` can be met, from the second of sending up to the
      last before the message expires. */
  lemma JourneyCanBeMade(plaintext: Bytes, now: u64) returns (d: Dispatch, a: Account, poll: Poll)
    requires |plaintext| <= MAX_PLAINTEXT && !(Envelope.PREFIX <= plaintext) && now < 300
    ensures Journey.OnItsWay(d, CONTACT, plaintext, DRAW, a, CodecOf(a), Receiver(NO_PREKEYS), [], poll)
    ensures poll.now == now
    ensures Reaches(d, a, poll.reader, poll.now)
    ensures exists zone :: zone in Zones(a.domain, poll.contacts) && SameZone(zone, d.sender)
  {
    d, a, poll := JustSentPlainly(plaintext, now);
    JustSentIsOnItsWay(d, a, DRAW, plaintext, NO_PREKEYS, poll);
  }

  lemma JustSentPlainly(plaintext: Bytes, now: u64) returns (d: Dispatch, a: Account, poll: Poll)
    requires |plaintext| <= MAX_PLAINTEXT && !(Envelope.PREFIX <= plaintext) && now < 300
    ensures JustSent(d, a, DRAW, plaintext, NO_PREKEYS, poll) && poll.now == now
    ensures Reaches(d, a, poll.reader, poll.now) && Calm(poll) && a.domain == "a" && d.sender.Spk() == KEY
    ensures exists zone :: zone in Zones(a.domain, poll.contacts) && SameZone(zone, d.sender)
  {
    d, a := SentPlainly(plaintext, map[], 0);
    LooksUpNothing(a, d.sender);
    poll := SeenAtOnce(d, a, DRAW, None, plaintext, NO_PREKEYS, now);
  }

  /** Also for a message sealed for a one-time prekey which the sender finds in DNS and the
      receiver holds. */
  lemma JourneyWithPrekey(plaintext: Bytes, now: u64) returns (d: Dispatch, a: Account, poll: Poll)
    requires |plaintext| <= MAX_PLAINTEXT && !(Envelope.PREFIX <= plaintext) && now < 300
    ensures Journey.OnItsWay(d, CONTACT, plaintext, PREKEY_DRAW, a, CodecOf(a), Receiver(ONE_PREKEY), [], poll)
    ensures poll.now == now
    ensures Reaches(d, a, poll.reader, poll.now) && d.letter.manifest.prekeyId == Toy.PREKEY.id
    ensures exists zone :: zone in Zones(a.domain, poll.contacts) && SameZone(zone, d.sender)
  {
    d, a, poll := JustSentWithPrekey(plaintext, now);
    JustSentIsOnItsWay(d, a, PREKEY_DRAW, plaintext, ONE_PREKEY, poll);
  }

  lemma SentWithPrekey(plaintext: Bytes) returns (d: Dispatch, a: Account)
    requires |plaintext| <= MAX_PLAINTEXT
    ensures Sent(d, a, PREKEY_DRAW, Some(Toy.PREKEY), plaintext, map[], 0)
    ensures LookedUp(a, d.sender, CONTACT, PREKEY_DRAW, ONE_PREKEY, CodecOf(a))
  {
    var s := TheSender();
    DrawsPrekey(s);
    d, a := Dispatched(s, PREKEY_DRAW, Some(Toy.PREKEY), plaintext, map[], 0);
    LooksUpPrekey(a, d.sender);
  }

  lemma JustSentWithPrekey(plaintext: Bytes, now: u64) returns (d: Dispatch, a: Account, poll: Poll)
    requires |plaintext| <= MAX_PLAINTEXT && !(Envelope.PREFIX <= plaintext) && now < 300
    ensures JustSent(d, a, PREKEY_DRAW, plaintext, ONE_PREKEY, poll) && poll.now == now
    ensures Reaches(d, a, poll.reader, poll.now) && d.letter.manifest.prekeyId == Toy.PREKEY.id
    ensures exists zone :: zone in Zones(a.domain, poll.contacts) && SameZone(zone, d.sender)
  {
    d, a := SentWithPrekey(plaintext);
    poll := SeenAtOnce(d, a, PREKEY_DRAW, Some(Toy.PREKEY), plaintext, ONE_PREKEY, now);
  }

  // ---- a failed read ----

  /** The table, except that one name cannot be read. */
  function FailingReader(table: Table, now: u64, bad: string): Reader {
    (name: string) => if name == bad then Failed else Lookup(table, name, now)
  }

  /** The messages of a call can be discarded: the walk comes across the message in slot
      0, records it as seen, and then cannot read slot 1. */
  lemma DiscardHappens(plaintext: Bytes) returns (d: Dispatch, a: Account, poll: Poll)
    requires |plaintext| <= MAX_PLAINTEXT
    ensures Journey.Carries(d, CONTACT, plaintext, DRAW)
    ensures var pass := Process(a, poll, NEW_STORES, MailboxItems(a, poll.reader, Zones(a.domain, poll.contacts)));
      && pass.aborted && Inboxed(pass.events) == [Surfaces(a, poll.reader, d.letter)]
      && |pass.events| == 1 && Discarded(pass, pass.events[0])
  {
    d, a := SentPlainly(plaintext, map[], 0);
    poll := DiscardedHere(d, a, plaintext);
  }

  lemma DiscardedHere(d: Dispatch, a: Account, plaintext: Bytes) returns (poll: Poll)
    requires Sent(d, a, DRAW, None, plaintext, map[], 0)
    ensures var pass := Process(a, poll, NEW_STORES, MailboxItems(a, poll.reader, Zones(a.domain, poll.contacts)));
      && pass.aborted && Inboxed(pass.events) == [Surfaces(a, poll.reader, d.letter)]
      && |pass.events| == 1 && Discarded(pass, pass.events[0])
  {
    var item;
    poll, item := FailingCall(d, a);
    TakenAndLost(d, a, poll, item);
  }

  /** A call that comes across the message and then cannot read on. */
  lemma FailingCall(d: Dispatch, a: Account) returns (poll: Poll, item: Item)
    requires d.Proper() && Undisturbed(d, map[], 0) && IsLetter(d.letter, None) && d.sender.lib == a.lib
    requires a.UserId() == KEY && d.sender.domain == a.domain && KEY == a.lib.publicOf(a.seed)
    ensures d.Proper() && ChunksReach(d, a, poll.reader, poll.now) && About(d, a, poll, item) && poll.contacts == []
    ensures |d.Kept(poll.now)| >= d.letter.manifest.dataChunks && LetIn(a, poll, NEW_STORES, d.letter.manifest.spk)
    ensures d.letter.manifest.prekeyId == NO_PREKEY && d.letter.sealedTo == a.lib.publicOf(a.seed)
    ensures ZoneItems(a, poll.reader, a.domain, 2) == [item, Unreadable]
  {
    AllWritten(d);
    AllThere(d, map[], 0, 0);
    poll := CallWith(FailingReader(d.Table(), 0, SlotDomain(a.lib, a.UserId(), 1, a.domain)), 0);
    FailingReaches(d, a);
    item := FirstTwoSlots(d, a, poll.reader);
    SightingLocates(d.sender, d.letter, a, poll, a.domain);
    TrustsEverybody(a, poll.reader, 0, NEW_STORES, d.sender.Spk());
  }

  lemma TakenAndLost(d: Dispatch, a: Account, poll: Poll, item: Item)
    requires d.Proper() && ChunksReach(d, a, poll.reader, poll.now) && About(d, a, poll, item) && poll.contacts == []
    requires |d.Kept(poll.now)| >= d.letter.manifest.dataChunks && LetIn(a, poll, NEW_STORES, d.letter.manifest.spk)
    requires d.letter.manifest.prekeyId == NO_PREKEY && d.letter.sealedTo == a.lib.publicOf(a.seed)
    requires ZoneItems(a, poll.reader, a.domain, 2) == [item, Unreadable]
    ensures var pass := Process(a, poll, NEW_STORES, MailboxItems(a, poll.reader, Zones(a.domain, poll.contacts)));
      && pass.aborted && Inboxed(pass.events) == [Surfaces(a, poll.reader, d.letter)]
      && |pass.events| == 1 && Discarded(pass, pass.events[0])
  {
    var e := TakenIn(d, a, poll, NEW_STORES, item);
    FirstThenFail(a, poll, NEW_STORES, item);
    EndsWithSlotOne(a, poll, NEW_STORES, item, e);
    OneInboxed(e);
  }

  lemma FailingReaches(d: Dispatch, a: Account)
    requires Undisturbed(d, map[], 0) && d.sender.lib == a.lib && d.cut == |d.Writes()|
    requires Valid(d.letter.manifest) && d.letter.manifest.recipientId == a.UserId()
    ensures ChunksReach(d, a, FailingReader(d.Table(), 0, SlotDomain(a.lib, a.UserId(), 1, a.domain)), 0)
  {
    var bad := SlotDomain(a.lib, a.UserId(), 1, a.domain);
    forall i | 0 <= i < |d.letter.blocks| ensures ChunkDomain(d.letter.key, i, d.sender.domain) != bad {
      ChunkNamesAreNoSlots(a.lib, d.letter.key, i, d.sender.domain, a.UserId(), 1, a.domain);
    }
    ReachesWith(d, 0, map[], a, FailingReader(d.Table(), 0, bad), 0);
  }

  lemma ZeroSlot()
    ensures SlotForMsgId(ZEROS16) == 0
  {
    ZerosAreZero(ZEROS16[..4]);
  }

  lemma {:induction false} ZerosAreZero(b: Bytes)
    requires forall i :: 0 <= i < |b| ==> b[i] == '\0'
    ensures TextCodec.FromBigEndian(b) == 0
    decreases |b|
  {
    if b != [] {
      ZerosAreZero(b[..|b| - 1]);
    }
  }

  /** Slot 0 lists the message, slot 1 cannot be read. */
  lemma FirstTwoSlots(d: Dispatch, a: Account, reader: Reader) returns (item: Item)
    requires d.sender.lib == a.lib && Valid(d.letter.manifest) && d.letter.manifest.recipientId == a.UserId()
    requires d.before == map[] && d.cut <= |d.Writes()| && d.Announced(0) && d.letter.manifest.msgId == ZEROS16
    requires d.sender.domain == a.domain
    requires reader == FailingReader(d.Table(), 0, SlotDomain(a.lib, a.UserId(), 1, a.domain))
    ensures item == SlotRecord(Sign(a.lib, d.sender.seed, d.letter.manifest).value, a.domain)
    ensures ZoneItems(a, reader, a.domain, 2) == [item, Unreadable]
  {
    item := SlotRecord(Sign(a.lib, d.sender.seed, d.letter.manifest).value, a.domain);
    SlotZero(d, a, reader);
    TwoSlots(a, reader, a.domain, item);
  }

  lemma SlotZero(d: Dispatch, a: Account, reader: Reader)
    requires d.sender.lib == a.lib && Valid(d.letter.manifest) && d.letter.manifest.recipientId == a.UserId()
    requires d.before == map[] && d.cut <= |d.Writes()| && d.Announced(0) && d.letter.manifest.msgId == ZEROS16
    requires d.sender.domain == a.domain
    requires reader == FailingReader(d.Table(), 0, SlotDomain(a.lib, a.UserId(), 1, a.domain))
    ensures reader(SlotDomain(a.lib, a.UserId(), 0, a.domain))
         == Records([Sign(a.lib, d.sender.seed, d.letter.manifest).value])
  {
    ZeroSlot();
    SlotNamesDiffer(a.lib, a.UserId(), 0, a.domain, 1, a.domain);
    SlotListed(d, a, 0, a.domain, 0);
  }

  lemma TwoSlots(a: Account, reader: Reader, zone: string, item: Item)
    requires item.SlotRecord? && item.zone == zone
    requires reader(SlotDomain(a.lib, a.UserId(), 0, zone)) == Records([item.record])
    requires reader(SlotDomain(a.lib, a.UserId(), 1, zone)) == Failed
    ensures ZoneItems(a, reader, zone, 2) == [item, Unreadable]
  {
    assert SlotItems(a, reader, zone, 0) == [item];
    assert SlotItems(a, reader, zone, 1) == [Unreadable];
    assert ZoneItems(a, reader, zone, 1) == ZoneItems(a, reader, zone, 0) + [item] == [item];
  }

  /** The message is taken in for the inbox. */
  lemma TakenIn(d: Dispatch, a: Account, poll: Poll, st: Stores, item: Item) returns (e: Event)
    requires d.Proper() && ChunksReach(d, a, poll.reader, poll.now) && About(d, a, poll, item)
    requires |d.Kept(poll.now)| >= d.letter.manifest.dataChunks
    requires d.letter.manifest.prekeyId == NO_PREKEY && d.letter.sealedTo == a.lib.publicOf(a.seed)
    requires LetIn(a, poll, st, d.letter.manifest.spk) && poll.contacts == [] && st.seen == map[]
    ensures Step(a, poll, st, item).1 == Surfaced(e)
    ensures e.route.Inbox? && e.message == Surfaces(a, poll.reader, d.letter)
  {
    var m := d.letter.manifest;
    AboutLeads(d, a, poll, item);
    OpenAtFirst(a, poll, st, m, d.letter.sealedTo);
    LeadingStep(a, poll, st, item, m, true, d.letter.sealedTo, Surfaces(a, poll.reader, d.letter));
    e := Step(a, poll, st, item).1.event;
    SurfacedAccounted(a, poll, st, item);
    ToTheInbox(a, poll, st, Step(a, poll, st, item).0, e);
  }

  lemma OpenAtFirst(a: Account, poll: Poll, st: Stores, m: Manifest, sealedTo: Key32)
    requires m.prekeyId == NO_PREKEY && sealedTo == a.lib.publicOf(a.seed) && st.seen == map[]
    ensures !Closed(a, poll, st, m, true, sealedTo)
  {
  }

  lemma ToTheInbox(a: Account, poll: Poll, st: Stores, st': Stores, e: Event)
    requires Accounted(a, poll, st, st', e) && poll.contacts == []
    ensures e.route.Inbox?
  {
  }

  lemma OwnZoneOnly(a: Account, reader: Reader)
    ensures MailboxItems(a, reader, Zones(a.domain, [])) == ZoneItems(a, reader, a.domain, SLOT_COUNT)
  {
    var zones := [a.domain];
    assert zones[..0] == [] && Last(zones) == a.domain;
    assert MailboxItems(a, reader, zones) == MailboxItems(a, reader, []) + ZoneItems(a, reader, a.domain, SLOT_COUNT);
  }

  /** A walk over our own zone alone that ends with its second item. */
  lemma EndsWithSlotOne(a: Account, poll: Poll, st: Stores, item: Item, e: Event)
    requires ZoneItems(a, poll.reader, a.domain, 2) == [item, Unreadable]
    requires Process(a, poll, st, [item, Unreadable]).aborted && Process(a, poll, st, [item, Unreadable]).events == [e]
    ensures var pass := Process(a, poll, st, MailboxItems(a, poll.reader, Zones(a.domain, [])));
      pass.aborted && pass.events == [e]
  {
    OwnZoneOnly(a, poll.reader);
    ZoneGrows(a, poll.reader, a.domain, 2, SLOT_COUNT);
    AbortStays(a, poll, st, [item, Unreadable], ZoneItems(a, poll.reader, a.domain, SLOT_COUNT));
  }

  lemma OneInboxed(e: Event)
    requires e.route.Inbox?
    ensures Inboxed([e]) == [e.message]
  {
    assert [e][1..] == [] && [e.message] + [] == [e.message];
  }
}
