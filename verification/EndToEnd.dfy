/**
 From one client's send to another client's receive: what survives a send that
 stops at any write, chunks that get lost, time that passes, and other traffic in
 the same mailbox.
 */
module EndToEnd {
  import opened Prelude
  import opened DnsReader
  import opened Library
  import opened SlotManifest
  import opened Addressing
  import opened MemoryDns
  import opened Delivery
  import opened Admission
  import opened DeliverySteps
  import opened Send
  import Json
  import TextCodec
  import Message
  import Envelope
  import RC = RotationChain
  import R = ReplayCache
  import P = Prekeys
  import Pool = PrekeyPool
  import Q = IntroQueue

  // ---- chunks ----

  /** The chunks the reader can still get. */
  function Survivors(chunks: Chunks, n: nat): set<nat> {
    set i: nat | 0 <= i < n && chunks(i).Some?
  }

  /** Whatever the reader has for a chunk is the chunk that was published. */
  ghost predicate Unaltered(chunks: Chunks, blocks: seq<Bytes>) {
    forall i :: 0 <= i < |blocks| && chunks(i).Some? ==> chunks(i) == Some(blocks[i])
  }

  /** The shares collected from the first `i` chunks. */
  ghost predicate Collected(chunks: Chunks, i: nat, k: nat, shares: map<nat, Bytes>) {
    && (forall j :: j in shares ==> j < i && chunks(j) == Some(shares[j]))
    && (|shares| < k ==> forall j :: 0 <= j < i && chunks(j).Some? ==> j in shares)
  }

  lemma {:induction false} GatherCollects(chunks: Chunks, i: nat, n: nat, k: nat, shares: map<nat, Bytes>)
    requires i <= n && Collected(chunks, i, k, shares)
    ensures Collected(chunks, n, k, Gather(chunks, i, n, k, shares))
    decreases n - i
  {
    if i < n && |shares| < k {
      var shares' := if chunks(i).Some? then shares[i := chunks(i).value] else shares;
      GatherCollects(chunks, i + 1, n, k, shares');
    }
  }

  /** Fetching ends with the `k`th chunk. */
  lemma {:induction false} GatherStopsAtK(chunks: Chunks, i: nat, n: nat, k: nat, shares: map<nat, Bytes>)
    requires i <= n && |shares| <= k && forall j :: j in shares ==> j < i
    ensures |Gather(chunks, i, n, k, shares)| <= k
    ensures |shares| == k ==> Gather(chunks, i, n, k, shares) == shares
    decreases n - i
  {
    if i < n && |shares| < k {
      var shares' := if chunks(i).Some? then shares[i := chunks(i).value] else shares;
      GrowsByOne(shares, i, if chunks(i).Some? then chunks(i).value else []);
      GatherStopsAtK(chunks, i + 1, n, k, shares');
    }
  }

  lemma GrowsByOne(m: map<nat, Bytes>, i: nat, b: Bytes)
    requires i !in m
    ensures |m[i := b]| == |m| + 1
  {
    assert m[i := b].Keys == m.Keys + {i};
    assert |m[i := b]| == |m[i := b].Keys| && |m| == |m.Keys|;
  }

  lemma CollectedEnough(chunks: Chunks, n: nat, k: nat, shares: map<nat, Bytes>)
    requires Collected(chunks, n, k, shares)
    ensures |shares| >= k <==> |Survivors(chunks, n)| >= k
  {
    assert |shares| == |shares.Keys|;
    assert shares.Keys <= Survivors(chunks, n);
    SubsetSize(shares.Keys, Survivors(chunks, n));
    assert |shares| < k ==> shares.Keys == Survivors(chunks, n);
  }

  /** Reassembly succeeds, and gives back the frame, exactly when enough chunks
      survive. */
  lemma AssembledIff(lib: Library, reader: Reader, m: Manifest, zone: string, frame: Bytes, blocks: seq<Bytes>)
    requires lib.SplitsInto(frame, blocks, m.dataChunks) && |blocks| == m.totalChunks
    requires Unaltered(ChunksAt(lib, reader, KeyOf(lib, m), zone), blocks)
    ensures Assembled(lib, reader, m, zone)
         == if |Survivors(ChunksAt(lib, reader, KeyOf(lib, m), zone), |blocks|)| >= m.dataChunks
            then Some(frame) else None
  {
    var chunks := ChunksAt(lib, reader, KeyOf(lib, m), zone);
    GatherCollects(chunks, 0, m.totalChunks, m.dataChunks, map[]);
    var shares := Gather(chunks, 0, m.totalChunks, m.dataChunks, map[]);
    CollectedEnough(chunks, m.totalChunks, m.dataChunks, shares);
    if |shares| >= m.dataChunks {
      assert lib.EnoughOf(shares, blocks, m.dataChunks);
    }
  }

  // ---- one letter ----

  function Payload(s: Sender, letter: Letter, sealing: Bytes): Option<Bytes> {
    var m := letter.manifest;
    s.lib.seal(letter.sealedTo, letter.raw,
               BuildAad(m.msgId, s.UserId(), m.recipientId, m.ts, DEFAULT_TTL_SECONDS, m.prekeyId), sealing)
  }

  function FrameOf(s: Sender, m: Manifest, payload: Bytes): Message.Message {
    Message.Message(OuterHeader(s, m.msgId, m.recipientId, m.ts), payload, ZEROS16 + ZEROS16)
  }

  /** The letter is what its sender composes. */
  ghost predicate WellMade(s: Sender, letter: Letter, sealing: Bytes) {
    var m := letter.manifest;
    && Payload(s, letter, sealing).Some?
    && letter.frame == Message.ToBytes(FrameOf(s, m, Payload(s, letter, sealing).value))
    && s.lib.split(letter.frame) == Some((letter.blocks, m.dataChunks))
    && |letter.blocks| == m.totalChunks
    && m.spk == s.Spk()
    && m.exp == SatAdd64(m.ts, DEFAULT_TTL_SECONDS)
    && letter.key == KeyOf(s.lib, m)
  }

  lemma ComposedIsWellMade(s: Sender, stored: RC.Contact, plaintext: Bytes, draw: Draw)
    requires Compose(s, stored, plaintext, draw).Ok?
    ensures var letter := Compose(s, stored, plaintext, draw).value;
      && WellMade(s, letter, draw.sealing)
      && letter.manifest.msgId == draw.msgId && letter.manifest.ts == draw.now
      && letter.manifest.recipientId == s.lib.userId(stored.x25519)
      && letter.raw == MaybeWrapEnvelope(s, Addressee(s, stored), draw.reader, plaintext)
      && var pick := PickRecipientPrekey(s.lib, Addressee(s, stored), draw);
         letter.sealedTo == (if pick.Some? then pick.value.publicKey else stored.x25519)
         && letter.manifest.prekeyId == (if pick.Some? then pick.value.id else NO_PREKEY)
  {
  }

  /** The header both sides bind the payload to, chunk counts aside. */
  function HeaderFor(lib: Library, seed: Key32, msgId: MsgId, to: Key32, now: u64): Message.Header {
    Message.Header(1, Message.Data, msgId, lib.userId(lib.publicOf(seed)), to, 1, 0, now, 300)
  }

  lemma FrameReads(s: Sender, m: Manifest, payload: Bytes)
    requires Json.ReadsBack(s.lib.json)
    ensures Message.FromBytes(s.lib.json, Message.ToBytes(FrameOf(s, m, payload)))
         == Ok(Message.Message(HeaderFor(s.lib, s.seed, m.msgId, m.recipientId, m.ts), payload, ZEROS16 + ZEROS16))
  {
    Message.FrameIdentity(s.lib.json, FrameOf(s, m, payload));
  }

  lemma AadSays(s: Sender, m: Manifest)
    ensures BuildAad(m.msgId, s.UserId(), m.recipientId, m.ts, DEFAULT_TTL_SECONDS, m.prekeyId)
         == Message.HeaderToBytes(HeaderFor(s.lib, s.seed, m.msgId, m.recipientId, m.ts).(totalChunks := 0))
            + TextCodec.BigEndian(m.prekeyId, 4)
  {
  }

  lemma FrameSays(s: Sender, letter: Letter, sealing: Bytes)
    requires Json.ReadsBack(s.lib.json) && WellMade(s, letter, sealing)
    ensures var m := letter.manifest;
      var header := HeaderFor(s.lib, s.seed, m.msgId, m.recipientId, m.ts);
      var aad := Message.HeaderToBytes(header.(totalChunks := 0)) + TextCodec.BigEndian(m.prekeyId, 4);
      var payload := s.lib.seal(letter.sealedTo, letter.raw, aad, sealing);
      payload.Some?
      && Message.FromBytes(s.lib.json, letter.frame) == Ok(Message.Message(header, payload.value, ZEROS16 + ZEROS16))
  {
    FrameReads(s, letter.manifest, Payload(s, letter, sealing).value);
    AadSays(s, letter.manifest);
  }

  /** What a composed letter says: the manifest, the key its chunks are named by, and a
      frame whose header names message, sender and recipient and whose payload is
      sealed under that header, chunk counts aside, and the prekey id. */
  lemma ComposedSays(s: Sender, stored: RC.Contact, plaintext: Bytes, draw: Draw)
    requires Json.ReadsBack(s.lib.json) && Compose(s, stored, plaintext, draw).Ok?
    ensures var letter := Compose(s, stored, plaintext, draw).value;
      var (m, to) := (letter.manifest, s.lib.userId(stored.x25519));
      var header := HeaderFor(s.lib, s.seed, draw.msgId, to, draw.now);
      var aad := Message.HeaderToBytes(header.(totalChunks := 0)) + TextCodec.BigEndian(m.prekeyId, 4);
      var payload := s.lib.seal(letter.sealedTo, letter.raw, aad, draw.sealing);
      && m == Manifest(draw.msgId, s.lib.signingKeyOf(s.seed), to, |letter.blocks|, m.dataChunks, m.prekeyId, draw.now,
                       SatAdd64(draw.now, 300))
      && s.lib.split(letter.frame) == Some((letter.blocks, m.dataChunks))
      && letter.key == s.lib.hash12(draw.msgId + to + s.lib.signingKeyOf(s.seed))
      && payload.Some?
      && Message.FromBytes(s.lib.json, letter.frame) == Ok(Message.Message(header, payload.value, ZEROS16 + ZEROS16))
  {
    ComposedIsWellMade(s, stored, plaintext, draw);
    FrameSays(s, Compose(s, stored, plaintext, draw).value, draw.sealing);
  }

  /** The secret the receiver would use is the one the letter was sealed for. */
  ghost predicate HoldsSecret(a: Account, rows: P.Rows, m: Manifest, sealedTo: Key32, now: u64) {
    SecretFor(a.seed, rows, m.prekeyId, now).Some?
    && a.lib.publicOf(SecretFor(a.seed, rows, m.prekeyId, now).value) == sealedTo
  }

  lemma OpensIff(lib: Library, sealedTo: Key32, raw: Bytes, aad: Bytes, sealing: Bytes, secret: Key32)
    requires lib.SealLaws() && lib.AuthenticityLaws() && lib.seal(sealedTo, raw, aad, sealing).Some?
    ensures var payload := lib.seal(sealedTo, raw, aad, sealing).value;
      if lib.publicOf(secret) == sealedTo
      then |payload| >= MIN_ENCRYPTED && lib.open(secret, payload, aad) == Some(raw)
      else lib.open(secret, payload, aad) == None
  {
    assert lib.publicOf(secret) == sealedTo ==> lib.seal(lib.publicOf(secret), raw, aad, sealing).Some?;
  }

  lemma FrameOpensIff(a: Account, s: Sender, rows: P.Rows, letter: Letter, sealing: Bytes, now: u64)
    requires a.lib == s.lib && s.lib.Laws() && WellMade(s, letter, sealing)
    ensures var m := letter.manifest;
      Opened(a, rows, m, letter.frame, now)
      == if now <= m.exp && HoldsSecret(a, rows, m, letter.sealedTo, now)
         then Some((OuterHeader(s, m.msgId, m.recipientId, m.ts), letter.raw)) else None
  {
    var m := letter.manifest;
    var payload := Payload(s, letter, sealing).value;
    Message.FrameRoundTrip(s.lib.json, FrameOf(s, m, payload));
    var aad := BuildAad(m.msgId, s.UserId(), m.recipientId, m.ts, DEFAULT_TTL_SECONDS, m.prekeyId);
    assert Aad(OuterHeader(s, m.msgId, m.recipientId, m.ts), m.prekeyId) == aad;
    var secret := SecretFor(a.seed, rows, m.prekeyId, now);
    if secret.Some? {
      OpensIff(s.lib, letter.sealedTo, letter.raw, aad, sealing, secret.value);
    }
  }

  /** What the receiver surfaces for the letter. */
  function Surfaces(a: Account, reader: Reader, letter: Letter): InboxMessage {
    var m := letter.manifest;
    var (plaintext, claim) := Envelope.Decode(a.lib.json, letter.raw);
    InboxMessage(m.spk, plaintext, m.ts, m.msgId, ResolveLabel(a.lib, reader, claim, m.spk))
  }

  /** A letter is decrypted, and to exactly what was sealed, if and only if enough of
      its chunks survive, it has not expired, and the receiver holds the secret
      half of the key that the sender used. */
  lemma LetterDecodesIff(a: Account, s: Sender, reader: Reader, rows: P.Rows, letter: Letter, sealing: Bytes,
                         zone: string, now: u64)
    requires a.lib == s.lib && s.lib.Laws() && WellMade(s, letter, sealing)
    requires Unaltered(ChunksAt(a.lib, reader, letter.key, zone), letter.blocks)
    ensures var m := letter.manifest;
      Decoded(a, reader, rows, m, zone, now)
      == if |Survivors(ChunksAt(a.lib, reader, letter.key, zone), |letter.blocks|)| >= m.dataChunks
            && now <= m.exp && HoldsSecret(a, rows, m, letter.sealedTo, now)
         then Some(Surfaces(a, reader, letter)) else None
  {
    AssembledIff(a.lib, reader, letter.manifest, zone, letter.frame, letter.blocks);
    FrameOpensIff(a, s, rows, letter, sealing, now);
  }

  // ---- prekeys across the two clients ----

  /** A prekey that the sender may use: served for the contact, signed by it, and not past
      its expiry. */
  ghost predicate OnOffer(s: Sender, stored: RC.Contact, draw: Draw, p: P.Prekey) {
    var domain := if stored.domain == "" then s.domain else stored.domain;
    draw.now <= p.exp && exists txt ::
      txt in TxtsAt(draw.reader, s.lib.prekeyName(stored.username, domain)) && s.lib.prekey(txt, stored.spk) == Some(p)
  }

  /** One of them is picked if there is any, and otherwise none. */
  lemma PickedIff(s: Sender, stored: RC.Contact, draw: Draw)
    ensures Picked(s, stored, draw).Some? <==> exists p :: OnOffer(s, stored, draw, p)
    ensures Picked(s, stored, draw).Some? ==> OnOffer(s, stored, draw, Picked(s, stored, draw).value)
  {
    var contact := Addressee(s, stored);
    var txts := TxtsAt(draw.reader, s.lib.prekeyName(contact.username, contact.domain));
    var live := LivePrekeys(s.lib, txts, contact.spk, draw.now);
    forall p ensures p in live <==> OnOffer(s, stored, draw, p) {
    }
    if live != [] {
      assert live[draw.pick % |live|] in live;
      assert live[0] in live;
    }
  }

  /** What is picked was served, verifies, and is not past its expiry. */
  lemma PickedIsServed(lib: Library, contact: RC.Contact, draw: Draw)
    requires PickRecipientPrekey(lib, contact, draw).Some?
    ensures var p := PickRecipientPrekey(lib, contact, draw).value;
      draw.now <= p.exp && exists txt :: txt in TxtsAt(draw.reader, lib.prekeyName(contact.username, contact.domain))
                                         && lib.prekey(txt, contact.spk) == Some(p)
  {
    var live := LivePrekeys(lib, TxtsAt(draw.reader, lib.prekeyName(contact.username, contact.domain)), contact.spk,
                            draw.now);
    assert live[draw.pick % |live|] in live;
  }

  /** A sender that reads the receiver's pool, of which every published half has its
      private half, picks a prekey that the receiver can open with at that moment exactly
      if it is not the prekey's expiry second: the sender still picks a prekey then,
      and the store no longer gives it out. (The id must not mean "no prekey", nor
      have been given to a new prekey.) */
  lemma PickedPrekeyIsHeldIff(a: Account, s: Sender, contact: RC.Contact, draw: Draw, pool: Pool.State,
                              codec: Pool.Codec, m: Manifest)
    requires PickRecipientPrekey(s.lib, contact, draw).Some? && a.lib == s.lib
    requires codec.publicOf == a.lib.publicOf && forall txt :: codec.parse(txt) == s.lib.prekey(txt, contact.spk)
    requires Pool.Openable(pool, a.poolName, codec, draw.now)
    requires a.poolName == s.lib.prekeyName(contact.username, contact.domain)
    requires TxtsAt(draw.reader, a.poolName) == TxtsOf(Lookup(pool.dns, a.poolName, draw.now))
    requires var p := PickRecipientPrekey(s.lib, contact, draw).value;
      m.prekeyId == p.id && p.id != NO_PREKEY && (p.id in pool.rows ==> pool.rows[p.id].exp == I64Secs(p.exp))
    ensures var p := PickRecipientPrekey(s.lib, contact, draw).value;
      && draw.now <= p.exp
      && (HoldsSecret(a, pool.rows, m, p.publicKey, draw.now) <==> draw.now < p.exp && draw.now < I64_MAX)
      && (draw.now < p.exp && draw.now < I64_MAX ==> p.id in pool.rows)
  {
    var p := PickRecipientPrekey(s.lib, contact, draw).value;
    PickedIsServed(s.lib, contact, draw);
    StoredLater(p.exp, draw.now);
    if draw.now < p.exp && draw.now < I64_MAX {
      var txt :| txt in TxtsAt(draw.reader, a.poolName) && s.lib.prekey(txt, contact.spk) == Some(p);
      assert codec.parse(txt) == Some(p);
      Pool.ServedPrekeysDecrypt(pool, a.poolName, codec, draw.now, txt, p);
    }
  }

  /** The sender looked at the receiver's pool when it composed, and the key it holds
      for the receiver is the receiver's. */
  ghost predicate LookedUp(a: Account, s: Sender, stored: RC.Contact, draw: Draw, pool: Pool.State, codec: Pool.Codec) {
    && a.lib == s.lib && stored.x25519 == a.lib.publicOf(a.seed)
    && codec.publicOf == a.lib.publicOf && (forall txt :: codec.parse(txt) == s.lib.prekey(txt, stored.spk))
    && Pool.Openable(pool, a.poolName, codec, draw.now)
    && a.poolName == s.lib.prekeyName(stored.username, if stored.domain == "" then s.domain else stored.domain)
    && TxtsAt(draw.reader, a.poolName) == TxtsOf(Lookup(pool.dns, a.poolName, draw.now))
  }

  /** The prekey of a composed letter, if one was on offer. */
  function Picked(s: Sender, stored: RC.Contact, draw: Draw): Option<P.Prekey> {
    PickRecipientPrekey(s.lib, Addressee(s, stored), draw)
  }

  /** A composed letter is sealed for a key its addressee holds at that moment: the
      long-term key if no prekey was on offer, else the prekey that was picked,
      unless it is that prekey's expiry second. */
  lemma ComposedIsHeldIff(a: Account, s: Sender, stored: RC.Contact, plaintext: Bytes, draw: Draw, pool: Pool.State,
                          codec: Pool.Codec)
    requires Compose(s, stored, plaintext, draw).Ok? && LookedUp(a, s, stored, draw, pool, codec)
    requires var pick := Picked(s, stored, draw);
      pick.Some? ==>
        && pick.value.id != NO_PREKEY
        && (pick.value.id in pool.rows ==> pool.rows[pick.value.id].exp == I64Secs(pick.value.exp))
    ensures var letter, pick := Compose(s, stored, plaintext, draw).value, Picked(s, stored, draw);
      && letter.manifest.recipientId == a.UserId()
      && (HoldsSecret(a, pool.rows, letter.manifest, letter.sealedTo, draw.now) <==>
            (pick.Some? ==> draw.now < pick.value.exp && draw.now < I64_MAX))
  {
    ComposedIsWellMade(s, stored, plaintext, draw);
    var letter := Compose(s, stored, plaintext, draw).value;
    if Picked(s, stored, draw).Some? {
      PickedPrekeyIsHeldIff(a, s, Addressee(s, stored), draw, pool, codec, letter.manifest);
    }
  }

  /** Reading of `HoldsSecret`: with id 0 the receiver reaches for its long-term key
      instead, and such a message opens only if that happens to be the prekey. */
  lemma ZeroPrekeyHeldIff(a: Account, rows: P.Rows, m: Manifest, sealedTo: Key32, now: u64)
    requires m.prekeyId == NO_PREKEY
    ensures HoldsSecret(a, rows, m, sealedTo, now) <==> sealedTo == a.lib.publicOf(a.seed)
  {
  }

  // ---- among other traffic ----

  function Mine(events: seq<Event>, pair: R.Pair): seq<Event> {
    if events == [] then []
    else (if events[0].pair == pair then [events[0]] else []) + Mine(events[1..], pair)
  }

  /** Wherever the manifest is found, its message decrypts, as long as the prekey is
      there. */
  ghost predicate DecodesAt(a: Account, poll: Poll, m: Manifest, zone: string, sealedTo: Key32, msg: InboxMessage) {
    forall rows :: HoldsSecret(a, rows, m, sealedTo, poll.now) ==>
      Decoded(a, poll.reader, rows, m, zone, poll.now) == Some(msg)
  }

  /** An item that is about our message. */
  ghost predicate Ours(a: Account, poll: Poll, item: Item, m: Manifest, sealedTo: Key32, msg: InboxMessage) {
    var pair := R.Pair(m.spk, m.msgId);
    && Announces(a, poll.now, item) == Some(pair)
    && Locate(a, poll, item, pair).Located?
    && Locate(a, poll, item, pair).manifest == m
    && DecodesAt(a, poll, m, Locate(a, poll, item, pair).zone, sealedTo, msg)
  }

  /** An item about another message, or none, that can neither end the call nor use
      up our prekey. */
  ghost predicate Harmless(a: Account, poll: Poll, denied: map<Key32, Q.Denial>, item: Item, m: Manifest) {
    && !item.Unreadable?
    && Announces(a, poll.now, item) != Some(R.Pair(m.spk, m.msgId))
    && forall pair :: Announces(a, poll.now, item) == Some(pair) ==>
         && !(Checked(a, poll, pair.spk) && Stuck(poll, pair.spk))
         && !SlotUnreadable(a, poll, item)
         && (Locate(a, poll, item, pair).Located? ==>
               m.prekeyId == NO_PREKEY || Locate(a, poll, item, pair).manifest.prekeyId != m.prekeyId)
  }

  ghost predicate Expects(a: Account, poll: Poll, denied: map<Key32, Q.Denial>, items: seq<Item>, m: Manifest,
                          sealedTo: Key32, msg: InboxMessage)
  {
    forall i :: 0 <= i < |items| ==> Ours(a, poll, items[i], m, sealedTo, msg) || Harmless(a, poll, denied, items[i], m)
  }

  /** Why a step ends the call, and where what it surfaces came from. */
  lemma StepShape(a: Account, poll: Poll, st: Stores, item: Item)
    ensures var outcome := Step(a, poll, st, item).1;
      var pair := Announces(a, poll.now, item);
      && (outcome.Aborted? && !item.Unreadable? ==>
            && pair.Some?
            && ((Checked(a, poll, pair.value.spk) && Stuck(poll, pair.value.spk)) || SlotUnreadable(a, poll, item)))
      && (outcome.Surfaced? ==>
            && pair.Some?
            && Locate(a, poll, item, pair.value).Located?
            && outcome.event.prekeyId == Locate(a, poll, item, pair.value).manifest.prekeyId)
  {
    AbortsIff(a, poll, st, item);
  }

  lemma SurfacedAnnounced(a: Account, poll: Poll, st: Stores, item: Item)
    requires Step(a, poll, st, item).1.Surfaced?
    ensures Announces(a, poll.now, item) == Some(Step(a, poll, st, item).1.event.pair)
  {
    LocatedMatches(a, poll, item);
  }

  lemma HarmlessStep(a: Account, poll: Poll, st: Stores, item: Item, m: Manifest)
    requires Harmless(a, poll, st.queue.denied, item, m)
    ensures var (st', outcome) := Step(a, poll, st, item);
      && !outcome.Aborted?
      && (outcome.Surfaced? ==> outcome.event.pair != R.Pair(m.spk, m.msgId))
      && (m.prekeyId != NO_PREKEY && m.prekeyId in st.pool.rows ==>
            m.prekeyId in st'.pool.rows && st'.pool.rows[m.prekeyId] == st.pool.rows[m.prekeyId])
  {
    StepShape(a, poll, st, item);
    UnsurfacedLeavesNoTrace(a, poll, st, item);
    if Step(a, poll, st, item).1.Surfaced? {
      SurfacedAnnounced(a, poll, st, item);
      SurfacedAccounted(a, poll, st, item);
    }
  }

  lemma StepKeepsDenied(a: Account, poll: Poll, st: Stores, item: Item)
    ensures Step(a, poll, st, item).0.queue.denied == st.queue.denied
  {
    UnsurfacedLeavesNoTrace(a, poll, st, item);
    SurfacedAccounted(a, poll, st, item);
  }

  lemma AdmitOurs(a: Account, poll: Poll, st: Stores, item: Item, m: Manifest, sealedTo: Key32, msg: InboxMessage,
                  toQueue: bool)
    requires Ours(a, poll, item, m, sealedTo, msg)
    ensures var pair := R.Pair(m.spk, m.msgId);
      var (st', outcome) := Admit(a, poll, st, item, pair, toQueue);
      && !outcome.Aborted?
      && (pair in R.Purged(st.seen, poll.now) ==> outcome.Skipped?)
      && (pair !in R.Purged(st.seen, poll.now) && HoldsSecret(a, st.pool.rows, m, sealedTo, poll.now) ==>
            outcome.Surfaced? && outcome.event.pair == pair && outcome.event.message == msg
              && outcome.event.exp == m.exp)
  {
  }

  lemma OursStep(a: Account, poll: Poll, st: Stores, item: Item, m: Manifest, sealedTo: Key32, msg: InboxMessage)
    requires Ours(a, poll, item, m, sealedTo, msg)
    requires LetIn(a, poll, st, m.spk)
    ensures var (st', outcome) := Step(a, poll, st, item);
      var pair := R.Pair(m.spk, m.msgId);
      && !outcome.Aborted?
      && (pair in R.Purged(st.seen, poll.now) ==> outcome.Skipped?)
      && (pair !in R.Purged(st.seen, poll.now) && HoldsSecret(a, st.pool.rows, m, sealedTo, poll.now) ==>
            outcome.Surfaced? && outcome.event.pair == pair && outcome.event.message == msg
              && outcome.event.exp == m.exp)
  {
    OpenStep(a, poll, st, item, R.Pair(m.spk, m.msgId));
    AdmitOurs(a, poll, st, item, m, sealedTo, msg, !Known(a, poll, m.spk));
  }

  lemma {:induction false} NoneOfMine(events: seq<Event>, pair: R.Pair)
    requires forall i :: 0 <= i < |events| ==> events[i].pair != pair
    ensures Mine(events, pair) == []
    decreases |events|
  {
    if events != [] {
      NoneOfMine(events[1..], pair);
    }
  }

  /** Nothing in the list ends the call. */
  lemma {:induction false} NeverAborts(a: Account, poll: Poll, st: Stores, items: seq<Item>, m: Manifest,
                                       sealedTo: Key32, msg: InboxMessage)
    requires Expects(a, poll, st.queue.denied, items, m, sealedTo, msg)
    requires LetIn(a, poll, st, m.spk)
    ensures !Process(a, poll, st, items).aborted
    decreases |items|
  {
    if items != [] {
      StepKeepsDenied(a, poll, st, items[0]);
      if Ours(a, poll, items[0], m, sealedTo, msg) {
        OursStep(a, poll, st, items[0], m, sealedTo, msg);
      } else {
        HarmlessStep(a, poll, st, items[0], m);
      }
      NeverAborts(a, poll, Step(a, poll, st, items[0]).0, items[1..], m, sealedTo, msg);
    }
  }

  lemma MineFirst(e: Event, events: seq<Event>, pair: R.Pair)
    ensures Mine([e] + events, pair) == (if e.pair == pair then [e] else []) + Mine(events, pair)
  {
    assert ([e] + events)[1..] == events;
  }

  ghost predicate OneOfMine(events: seq<Event>, m: Manifest, msg: InboxMessage) {
    var mine := Mine(events, R.Pair(m.spk, m.msgId));
    |mine| == 1 && mine[0].message == msg && mine[0].exp == m.exp
  }

  /** In a mailbox with any other traffic, a message is surfaced exactly once per
      call, however often and wherever its manifest turns up, unless it was
      surfaced before, nobody announces it, or somebody else uses up its prekey. */
  lemma {:induction false} DeliveredAmongOthers(a: Account, poll: Poll, st: Stores, items: seq<Item>, m: Manifest,
                                                sealedTo: Key32, msg: InboxMessage)
    requires Expects(a, poll, st.queue.denied, items, m, sealedTo, msg)
    requires LetIn(a, poll, st, m.spk)
    requires HoldsSecret(a, st.pool.rows, m, sealedTo, poll.now)
    requires R.Pair(m.spk, m.msgId) !in R.Purged(st.seen, poll.now)
    requires poll.now < m.exp && poll.now < I64_MAX
    ensures var pass := Process(a, poll, st, items);
      && !pass.aborted
      && if exists i :: 0 <= i < |items| && Ours(a, poll, items[i], m, sealedTo, msg)
         then OneOfMine(pass.events, m, msg)
         else Mine(pass.events, R.Pair(m.spk, m.msgId)) == []
    decreases |items|
  {
    NeverAborts(a, poll, st, items, m, sealedTo, msg);
    if items != [] {
      var (st', outcome) := Step(a, poll, st, items[0]);
      StepKeepsDenied(a, poll, st, items[0]);
      if Ours(a, poll, items[0], m, sealedTo, msg) {
        OursStep(a, poll, st, items[0], m, sealedTo, msg);
        SurfacedOnce(a, poll, st, items, m, msg);
      } else {
        HarmlessStep(a, poll, st, items[0], m);
        HarmlessKeeps(a, poll, st, items[0], m);
        DeliveredAmongOthers(a, poll, st', items[1..], m, sealedTo, msg);
        OursShift(a, poll, items, m, sealedTo, msg);
        if outcome.Surfaced? {
          MineFirst(outcome.event, Process(a, poll, st', items[1..]).events, R.Pair(m.spk, m.msgId));
        }
      }
    }
  }

  lemma OursShift(a: Account, poll: Poll, items: seq<Item>, m: Manifest, sealedTo: Key32, msg: InboxMessage)
    requires items != [] && !Ours(a, poll, items[0], m, sealedTo, msg)
    ensures (exists i :: 0 <= i < |items| && Ours(a, poll, items[i], m, sealedTo, msg))
       <==> exists i :: 0 <= i < |items[1..]| && Ours(a, poll, items[1..][i], m, sealedTo, msg)
  {
    if i :| 0 <= i < |items| && Ours(a, poll, items[i], m, sealedTo, msg) {
      assert items[1..][i - 1] == items[i];
    }
    if i :| 0 <= i < |items[1..]| && Ours(a, poll, items[1..][i], m, sealedTo, msg) {
      assert items[i + 1] == items[1..][i];
    }
  }

  /** A harmless item does not make the cache remember our pair. */
  lemma HarmlessKeeps(a: Account, poll: Poll, st: Stores, item: Item, m: Manifest)
    requires Harmless(a, poll, st.queue.denied, item, m) && R.Pair(m.spk, m.msgId) !in R.Purged(st.seen, poll.now)
    ensures R.Pair(m.spk, m.msgId) !in R.Purged(Step(a, poll, st, item).0.seen, poll.now)
  {
    HarmlessStep(a, poll, st, item, m);
    UnsurfacedLeavesNoTrace(a, poll, st, item);
    SurfacedAccounted(a, poll, st, item);
  }

  lemma SurfacedOnce(a: Account, poll: Poll, st: Stores, items: seq<Item>, m: Manifest, msg: InboxMessage)
    requires items != [] && poll.now < m.exp && poll.now < I64_MAX
    requires var outcome := Step(a, poll, st, items[0]).1;
      outcome.Surfaced? && outcome.event.pair == R.Pair(m.spk, m.msgId) && outcome.event.message == msg
        && outcome.event.exp == m.exp
    ensures OneOfMine(Process(a, poll, st, items).events, m, msg)
  {
    var (st', outcome) := Step(a, poll, st, items[0]);
    var rest := Process(a, poll, st', items[1..]).events;
    ProcessFirst(a, poll, st, items, outcome.event);
    SurfacedAccounted(a, poll, st, items[0]);
    ProcessRemembers(a, poll, st', items[1..], outcome.event, poll.now);
    StoredLater(m.exp, poll.now);
    NoneOfMine(rest, R.Pair(m.spk, m.msgId));
    MineFirst(outcome.event, rest, R.Pair(m.spk, m.msgId));
  }

  /** A call that surfaces nothing leaves the stores as they were. */
  lemma {:induction false} NothingSurfacedNothingChanged(a: Account, poll: Poll, st: Stores, items: seq<Item>)
    requires Process(a, poll, st, items).events == []
    ensures SameFrom(st, Process(a, poll, st, items).stores, poll.now)
    decreases |items|
  {
    if items != [] {
      UnsurfacedLeavesNoTrace(a, poll, st, items[0]);
      var (st', outcome) := Step(a, poll, st, items[0]);
      if outcome.Skipped? {
        NothingSurfacedNothingChanged(a, poll, st', items[1..]);
      }
    }
  }

  // ---- the two receive paths ----

  /** Coming to a message through a claim is the same as coming to it through the
      sender's slot: same gate, same manifest, same effect on every store. */
  lemma ClaimFindsSameMessage(a: Account, poll: Poll, st: Stores, claim: string, slot: nat, record: string)
    requires a.lib.claim(claim).Some?
    requires var c := a.lib.claim(claim).value;
      var pair := R.Pair(c.spk, c.msgId);
      var answer := poll.reader(SlotDomain(a.lib, a.UserId(), c.slot, c.mailboxDomain));
      && FreshClaim(c, poll.now) && c.slot == slot && answer.Records?
      && MailboxManifest(a, record).Some?
      && FirstManifest(a, answer.txts, pair) == MailboxManifest(a, record)
      && R.Pair(MailboxManifest(a, record).value.spk, MailboxManifest(a, record).value.msgId) == pair
      && !Expired(MailboxManifest(a, record).value, poll.now)
    ensures Step(a, poll, st, ClaimRecord(claim, slot))
         == Step(a, poll, st, SlotRecord(record, a.lib.claim(claim).value.mailboxDomain))
  {
    var c := a.lib.claim(claim).value;
    var pair := R.Pair(c.spk, c.msgId);
    SameStep(a, poll, st, ClaimRecord(claim, slot), SlotRecord(record, c.mailboxDomain), pair);
  }

  lemma SameStep(a: Account, poll: Poll, st: Stores, item: Item, item': Item, pair: R.Pair)
    requires !item.Unreadable? && !item'.Unreadable?
    requires Announces(a, poll.now, item) == Some(pair) && Announces(a, poll.now, item') == Some(pair)
    requires Locate(a, poll, item, pair) == Locate(a, poll, item', pair)
    ensures Step(a, poll, st, item) == Step(a, poll, st, item')
  {
  }
}
