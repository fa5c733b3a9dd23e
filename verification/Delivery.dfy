/**
 What one receive call does to the four stores, as functions: which names it
 reads, how each record it finds is judged, and what a decrypted message changes.
 Both receive paths, mailbox slots and claims, are lists of items that go through
 the same step.
 */
module Delivery {
  import opened Prelude
  import opened Text
  import opened TextCodec
  import opened DnsReader
  import opened Library
  import opened SlotManifest
  import opened Addressing
  import Message
  import Envelope
  import RC = RotationChain
  import R = ReplayCache
  import P = Prekeys
  import Pool = PrekeyPool
  import Q = IntroQueue

  const CHUNK_TXT_PREFIX := "v=dmp1;t=chunk;d="
  const CLAIM_TS_SKEW_SECONDS := 60

  /** The receiving identity. `poolName` is where its prekeys are published. */
  datatype Account = Account(
    lib: Library, domain: string, seed: Key32, rotationChainEnabled: bool, poolName: string)
  {
    function UserId(): Key32 {
      lib.userId(lib.publicOf(seed))
    }
  }

  /** One receive call: its instant, its view of DNS, the rotation records that
      verify at that instant, the pinned contacts, and which DNS deletes work. */
  datatype Poll = Poll(
    now: u64, reader: Reader, verifier: RC.Verifier, contacts: seq<RC.Contact>, deletes: u32 -> bool)

  datatype Stores = Stores(seen: R.Rows, pool: Pool.State, queue: Q.Queue)

  datatype InboxMessage = InboxMessage(
    spk: Key32, plaintext: Bytes, timestamp: u64, msgId: MsgId, senderLabel: Option<string>)

  // ---- fetching and decrypting ----

  function ParseChunkTxt(lib: Library, txt: string): Option<Bytes> {
    if CHUNK_TXT_PREFIX <= txt then lib.unb64(txt[|CHUNK_TXT_PREFIX|..]) else None
  }

  function BlockOf(lib: Library, txt: string): Option<Bytes> {
    match ParseChunkTxt(lib, txt)
    case None => None
    case Some(wire) => lib.unwrap(wire)
  }

  /** The first record that unwraps. */
  function FirstBlock(lib: Library, txts: seq<string>): Option<Bytes> {
    if txts == [] then None
    else if BlockOf(lib, txts[0]).Some? then BlockOf(lib, txts[0])
    else FirstBlock(lib, txts[1..])
  }

  /** A chunk record: the prefix, and behind it the base64 of a block with its checksum. */
  lemma BlockIff(lib: Library, txt: string, block: Bytes)
    ensures BlockOf(lib, txt) == Some(block) <==>
      && "v=dmp1;t=chunk;d=" <= txt
      && exists wire :: lib.unb64(txt[17..]) == Some(wire) && lib.unwrap(wire) == Some(block)
  {
  }

  /** A corrupt record at a chunk's name does no harm as long as a good one is
      there: the first that unwraps is taken. */
  lemma {:induction false} FirstGoodBlock(lib: Library, txts: seq<string>)
    ensures var r := FirstBlock(lib, txts);
      if r.Some? then exists i :: 0 <= i < |txts| && BlockOf(lib, txts[i]) == r && forall j :: 0 <= j < i ==>
        BlockOf(lib, txts[j]).None?
      else forall i :: 0 <= i < |txts| ==> BlockOf(lib, txts[i]).None?
    decreases |txts|
  {
    if txts != [] && BlockOf(lib, txts[0]).None? {
      FirstGoodBlock(lib, txts[1..]);
      if i :| 0 <= i < |txts[1..]| && BlockOf(lib, txts[1..][i]) == FirstBlock(lib, txts)
              && forall j :: 0 <= j < i ==> BlockOf(lib, txts[1..][j]).None? {
        assert BlockOf(lib, txts[i + 1]) == FirstBlock(lib, txts);
        assert forall j :: 1 <= j < i + 1 ==> txts[j] == txts[1..][j - 1];
      }
      assert forall i :: 1 <= i < |txts| ==> txts[i] == txts[1..][i - 1];
    }
  }

  /** What the reader has for one chunk; a failed read is no chunk. */
  function BlockAt(lib: Library, reader: Reader, key: string, zone: string, i: nat): Option<Bytes> {
    FirstBlock(lib, TxtsAt(reader, ChunkDomain(key, i, zone)))
  }

  type Chunks = nat -> Option<Bytes>

  function ChunksAt(lib: Library, reader: Reader, key: string, zone: string): Chunks {
    (i: nat) => BlockAt(lib, reader, key, zone, i)
  }

  /** Collect chunks in order until `k` have been found. */
  function Gather(chunks: Chunks, i: nat, n: nat, k: nat, shares: map<nat, Bytes>): map<nat, Bytes>
    requires i <= n
    decreases n - i
  {
    if i == n || |shares| >= k then shares
    else Gather(chunks, i + 1, n, k, if chunks(i).Some? then shares[i := chunks(i).value] else shares)
  }

  function KeyOf(lib: Library, m: Manifest): string {
    MsgKey(lib, m.msgId, m.recipientId, m.spk)
  }

  function Assembled(lib: Library, reader: Reader, m: Manifest, zone: string): Option<Bytes> {
    var shares := Gather(ChunksAt(lib, reader, KeyOf(lib, m), zone), 0, m.totalChunks, m.dataChunks, map[]);
    if |shares| < m.dataChunks then None else lib.assemble(shares, m.dataChunks, m.totalChunks)
  }

  /** The associated data both sides compute: the header without chunk counts, and
      the prekey id. */
  function Aad(h: Message.Header, prekeyId: u32): Bytes {
    Message.HeaderToBytes(h.(totalChunks := 0, chunkNumber := 0)) + BigEndian(prekeyId, 4)
  }

  function SecretFor(seed: Key32, rows: P.Rows, id: u32, now: u64): Option<Key32> {
    if id == NO_PREKEY then Some(seed)
    else match P.Usable(rows, id, now)
      case None => None
      case Some(row) => Some(row.secret)
  }

  function ParseAddress(address: string): Option<(string, string)> {
    var at := Find(address, '@');
    if at.None? then None
    else
      var user, host := Trim(address[..at.value]), TrimEndDots(Trim(address[at.value + 1..]));
      if user == "" || host == "" then None else Some((user, host))
  }

  predicate Vouches(lib: Library, txt: string, user: string, spk: Key32) {
    lib.identity(txt).Some? && lib.identity(txt).value.username == user && lib.identity(txt).value.spk == spk
  }

  /** The claimed address, if the identity record there pins the signing key. */
  function ResolveLabel(lib: Library, reader: Reader, claim: Option<string>, spk: Key32): Option<string> {
    if claim.None? then None
    else
      var canonical := Envelope.CanonicalizeAddress(claim.value);
      if canonical.None? then None
      else match ParseAddress(canonical.value)
        case None => None
        case Some((user, host)) =>
          if exists txt :: txt in TxtsAt(reader, lib.identityDomain(user, host)) && Vouches(lib, txt, user, spk)
          then canonical else None
  }

  /** Header cross-checks and decryption of a reassembled frame. */
  function Opened(a: Account, rows: P.Rows, m: Manifest, assembled: Bytes, now: u64): Option<(Message.Header, Bytes)> {
    match Message.FromBytes(a.lib.json, assembled)
    case Err(_) => None
    case Ok(outer) =>
      if |outer.payload| < MIN_ENCRYPTED then None
      else if outer.header.messageId != m.msgId then None
      else if outer.header.recipientId != m.recipientId then None
      else if Message.HeaderExpired(outer.header, now) then None
      else match SecretFor(a.seed, rows, m.prekeyId, now)
        case None => None
        case Some(secret) =>
          match a.lib.open(secret, outer.payload, Aad(outer.header, m.prekeyId))
          case None => None
          case Some(raw) => Some((outer.header, raw))
  }

  function Decoded(a: Account, reader: Reader, rows: P.Rows, m: Manifest, zone: string,
                   now: u64): Option<InboxMessage>
  {
    match Assembled(a.lib, reader, m, zone)
    case None => None
    case Some(assembled) =>
      match Opened(a, rows, m, assembled, now)
      case None => None
      case Some((header, raw)) =>
        var (plaintext, claim) := Envelope.Decode(a.lib.json, raw);
        Some(InboxMessage(m.spk, plaintext, header.timestamp, header.messageId,
                          ResolveLabel(a.lib, reader, claim, m.spk)))
  }

  /** Reading of `Opened`: a frame opens exactly if it names the manifest's message and recipient, has not
      expired, and its payload decrypts under the associated data of its own header
      and the manifest's prekey id. */
  lemma OpenedIsBound(a: Account, rows: P.Rows, m: Manifest, assembled: Bytes, now: u64)
    ensures var r := Opened(a, rows, m, assembled, now);
      r.Some? <==>
        exists outer, secret, raw ::
          && Message.FromBytes(a.lib.json, assembled) == Ok(outer)
          && |outer.payload| >= MIN_ENCRYPTED
          && outer.header.messageId == m.msgId && outer.header.recipientId == m.recipientId
          && now <= SatAdd64(outer.header.timestamp, outer.header.ttl)
          && SecretFor(a.seed, rows, m.prekeyId, now) == Some(secret)
          && a.lib.open(secret, outer.payload, Aad(outer.header, m.prekeyId)) == Some(raw)
          && r == Some((outer.header, raw))
  {
    var r := Opened(a, rows, m, assembled, now);
    if r.Some? {
      var outer := Message.FromBytes(a.lib.json, assembled).value;
      var secret := SecretFor(a.seed, rows, m.prekeyId, now).value;
      assert a.lib.open(secret, outer.payload, Aad(outer.header, m.prekeyId)) == Some(r.value.1);
    }
  }

  /** A canonical address is taken apart at its '@'. */
  lemma CanonicalAddressParses(local: string, host: string)
    requires Envelope.IsAddress(local, host)
    ensures ParseAddress(local + "@" + host) == Some((local, host))
  {
    Envelope.AddressSplits(local, host);
    Envelope.HostEnd(host);
    assert Envelope.AddressChar(local[0]) && Envelope.AddressChar(Last(local)) by {
      assert local[0] in local && Last(local) in local;
    }
    assert Envelope.AddressChar(host[0]) && Envelope.AddressChar(Last(host)) by {
      assert host[0] in host && Last(host) in host;
    }
    TrimmedStays(local);
    TrimmedStays(host);
  }

  /** DNS serves an identity record of `user` with this key at the name that belongs to
      user and host. */
  ghost predicate IdentityAt(lib: Library, reader: Reader, user: string, host: string, txt: string, spk: Key32) {
    && txt in TxtsAt(reader, lib.identityDomain(user, host))
    && lib.identity(txt).Some? && lib.identity(txt).value.username == user && lib.identity(txt).value.spk == spk
  }

  /** Such a record at the address's own name. */
  ghost predicate Vouched(lib: Library, reader: Reader, address: string, spk: Key32) {
    exists user, host, txt ::
      && Envelope.IsAddress(user, host) && address == user + "@" + host
      && IdentityAt(lib, reader, user, host, txt, spk)
  }

  lemma LabelAt(lib: Library, reader: Reader, claim: string, user: string, host: string, spk: Key32)
    requires ParseAddress(user + "@" + host) == Some((user, host))
    requires Envelope.CanonicalizeAddress(claim) == Some(user + "@" + host)
    ensures ResolveLabel(lib, reader, Some(claim), spk)
         == if exists txt :: IdentityAt(lib, reader, user, host, txt, spk) then Some(user + "@" + host) else None
  {
    forall txt ensures IdentityAt(lib, reader, user, host, txt, spk) <==>
      txt in TxtsAt(reader, lib.identityDomain(user, host)) && Vouches(lib, txt, user, spk) {
    }
  }

  /** A sender label is the claimed address in canonical form, shown exactly if some
      identity record at that address's own name pins the key that signed the manifest. */
  lemma LabelIsVouched(lib: Library, reader: Reader, claim: string, spk: Key32)
    ensures var canonical := Envelope.CanonicalizeAddress(claim);
      ResolveLabel(lib, reader, Some(claim), spk)
      == if canonical.Some? && Vouched(lib, reader, canonical.value, spk) then canonical else None
  {
    var canonical := Envelope.CanonicalizeAddress(claim);
    if canonical.Some? {
      Envelope.ResultIsCanonical(claim);
      var user, host :| Envelope.IsAddress(user, host) && canonical.value == user + "@" + host;
      CanonicalAddressParses(user, host);
      LabelAt(lib, reader, claim, user, host, spk);
      VouchedIff(lib, reader, user, host, spk);
    }
  }

  lemma VouchedIff(lib: Library, reader: Reader, user: string, host: string, spk: Key32)
    requires Envelope.IsAddress(user, host)
    ensures Vouched(lib, reader, user + "@" + host, spk) <==>
      exists txt :: IdentityAt(lib, reader, user, host, txt, spk)
  {
    forall user', host' | Envelope.IsAddress(user', host') && user + "@" + host == user' + "@" + host'
      ensures user' == user && host' == host
    {
      CanonicalAddressParses(user, host);
      CanonicalAddressParses(user', host');
    }
  }

  /** Reading of `Decoded`: whatever is surfaced carries the manifest's own identity. */
  lemma DecodedIsTheManifests(a: Account, reader: Reader, rows: P.Rows, m: Manifest, zone: string, now: u64)
    requires Decoded(a, reader, rows, m, zone, now).Some?
    ensures Decoded(a, reader, rows, m, zone, now).value.spk == m.spk
    ensures Decoded(a, reader, rows, m, zone, now).value.msgId == m.msgId
    ensures m.prekeyId != NO_PREKEY ==> P.Usable(rows, m.prekeyId, now).Some?
  {
  }

  // ---- who may write to the inbox ----

  datatype Verdict = Unanswered | Drop | ToInbox | ToQueue

  predicate Pinned(contacts: seq<RC.Contact>, spk: Key32) {
    exists i :: 0 <= i < |contacts| && contacts[i].spk == spk
  }

  /** The sender may reach the inbox: nobody is pinned, it is pinned, or a pinned
      contact has rotated to it. */
  ghost predicate Trusted(a: Account, poll: Poll, spk: Key32) {
    || poll.contacts == []
    || Pinned(poll.contacts, spk)
    || (a.rotationChainEnabled && RC.RotatedTo(poll.reader, poll.verifier, poll.contacts, spk))
  }

  ghost function Gate(a: Account, poll: Poll, denied: map<Key32, Q.Denial>, spk: Key32): Verdict {
    if !Trusted(a, poll, spk) then (if spk in denied then Drop else ToQueue)
    else if Pinned(poll.contacts, spk) && a.rotationChainEnabled then
      match RC.RevocationCheck(poll.reader, poll.verifier, poll.contacts, spk)
      case None => Unanswered
      case Some(revoked) => if revoked then Drop else ToInbox
    else ToInbox
  }

  // ---- the items a call walks over ----

  datatype Item =
    | Unreadable
    | SlotRecord(record: string, zone: string)
    | ClaimRecord(claim: string, slot: nat)

  function MailboxManifest(a: Account, record: string): Option<Manifest> {
    match ParseAndVerify(a.lib, record)
    case None => None
    case Some(m) => if m.recipientId == a.UserId() then Some(m) else None
  }

  predicate FreshClaim(c: Claim, now: u64) {
    !(c.ts > now && c.ts - now > CLAIM_TS_SKEW_SECONDS) && c.exp > now
  }

  /** The pair an item announces, if it is worth looking at. */
  function Announces(a: Account, now: u64, item: Item): Option<R.Pair> {
    match item
    case Unreadable => None
    case SlotRecord(record, _) =>
      (match MailboxManifest(a, record)
       case None => None
       case Some(m) => if Expired(m, now) then None else Some(R.Pair(m.spk, m.msgId)))
    case ClaimRecord(claim, slot) =>
      (match a.lib.claim(claim)
       case None => None
       case Some(c) => if FreshClaim(c, now) && c.slot == slot then Some(R.Pair(c.spk, c.msgId)) else None)
  }

  datatype Target = Unavailable | Missing | Located(manifest: Manifest, zone: string)

  /** The first manifest among the records that is for this pair. */
  function FirstManifest(a: Account, records: seq<string>, pair: R.Pair): Option<Manifest> {
    if records == [] then None
    else
      var m := MailboxManifest(a, records[0]);
      if m.Some? && R.Pair(m.value.spk, m.value.msgId) == pair then m
      else FirstManifest(a, records[1..], pair)
  }

  /** The manifest behind an item that announces `pair`. */
  function Locate(a: Account, poll: Poll, item: Item, pair: R.Pair): Target {
    match item
    case Unreadable => Unavailable
    case SlotRecord(record, zone) =>
      (match MailboxManifest(a, record)
       case None => Missing
       case Some(m) => Located(m, zone))
    case ClaimRecord(claim, _) =>
      (match a.lib.claim(claim)
       case None => Missing
       case Some(c) =>
         match poll.reader(SlotDomain(a.lib, a.UserId(), c.slot, c.mailboxDomain))
         case Failed => Unavailable
         case NoRecord => Missing
         case Records(txts) =>
           match FirstManifest(a, txts, pair)
           case None => Missing
           case Some(m) => if Expired(m, poll.now) then Missing else Located(m, c.mailboxDomain))
  }

  lemma {:induction false} FirstManifestIsForPair(a: Account, records: seq<string>, pair: R.Pair)
    ensures var m := FirstManifest(a, records, pair);
      m.Some? ==> R.Pair(m.value.spk, m.value.msgId) == pair && m.value.recipientId == a.UserId() && Valid(m.value)
  {
    if records != [] {
      FirstManifestIsForPair(a, records[1..], pair);
    }
  }

  /** A record announces a live manifest that its own sender signed and that is for this
      account, or a claim for the slot it was found under, at most a minute ahead
      of our clock and not yet expired. */
  lemma AnnouncesIff(a: Account, now: u64, item: Item, pair: R.Pair)
    ensures Announces(a, now, item) == Some(pair) <==>
      || (item.SlotRecord? && exists m ::
            && ParseAndVerify(a.lib, item.record) == Some(m) && m.recipientId == a.lib.userId(a.lib.publicOf(a.seed))
            && now <= m.exp && pair == R.Pair(m.spk, m.msgId))
      || (item.ClaimRecord? && exists c ::
            && a.lib.claim(item.claim) == Some(c) && c.slot == item.slot
            && c.ts <= now + 60 && now < c.exp && pair == R.Pair(c.spk, c.msgId))
  {
  }

  /** The record is a signed manifest for this account and this pair. */
  ghost predicate IsManifestFor(a: Account, record: string, pair: R.Pair, m: Manifest) {
    && ParseAndVerify(a.lib, record) == Some(m) && m.recipientId == a.lib.userId(a.lib.publicOf(a.seed))
    && m.spk == pair.spk && m.msgId == pair.msgId
  }

  /** The `i`th record is the first that is a manifest for the pair. */
  ghost predicate IsFirstFor(a: Account, records: seq<string>, pair: R.Pair, m: Manifest, i: nat) {
    && i < |records| && IsManifestFor(a, records[i], pair, m)
    && forall j :: 0 <= j < i ==> NoManifestFor(a, records[j], pair)
  }

  ghost predicate NoManifestFor(a: Account, record: string, pair: R.Pair) {
    forall m :: !IsManifestFor(a, record, pair, m)
  }

  lemma OneManifest(a: Account, record: string, pair: R.Pair)
    ensures var m := MailboxManifest(a, record);
      if m.Some? && R.Pair(m.value.spk, m.value.msgId) == pair
      then forall m' :: IsManifestFor(a, record, pair, m') <==> m' == m.value
      else NoManifestFor(a, record, pair)
  {
  }

  lemma FirstForShifts(a: Account, records: seq<string>, pair: R.Pair, m: Manifest)
    requires records != [] && NoManifestFor(a, records[0], pair)
    ensures (exists i: nat :: IsFirstFor(a, records, pair, m, i)) <==>
      exists i: nat :: IsFirstFor(a, records[1..], pair, m, i)
  {
    var rest := records[1..];
    if i: nat :| IsFirstFor(a, records, pair, m, i) {
      assert rest[i - 1] == records[i];
      assert forall j :: 0 <= j < i - 1 ==> rest[j] == records[j + 1];
      assert IsFirstFor(a, rest, pair, m, i - 1);
    }
    if i: nat :| IsFirstFor(a, rest, pair, m, i) {
      assert records[i + 1] == rest[i];
      assert forall j :: 1 <= j < i + 1 ==> records[j] == rest[j - 1];
      assert IsFirstFor(a, records, pair, m, i + 1);
    }
  }

  lemma {:induction false} FirstManifestIff(a: Account, records: seq<string>, pair: R.Pair, m: Manifest)
    ensures FirstManifest(a, records, pair) == Some(m) <==> exists i: nat :: IsFirstFor(a, records, pair, m, i)
    decreases |records|
  {
    if records != [] {
      OneManifest(a, records[0], pair);
      var found := MailboxManifest(a, records[0]);
      if found.Some? && R.Pair(found.value.spk, found.value.msgId) == pair {
        assert IsFirstFor(a, records, pair, found.value, 0);
        assert !NoManifestFor(a, records[0], pair);
      } else {
        FirstForShifts(a, records, pair, m);
        FirstManifestIff(a, records[1..], pair, m);
      }
    }
  }

  /** A claim that announces `pair` leads to the first manifest for it in the slot it
      points to, if that one is live; to nothing, if there is none or it has
      expired; and nowhere at all, if the slot cannot be read. */
  lemma LocateByClaim(a: Account, poll: Poll, claim: string, slot: nat, c: Claim, m: Manifest)
    requires a.lib.claim(claim) == Some(c)
    ensures var pair := R.Pair(c.spk, c.msgId);
      var answer := poll.reader(SlotDomain(a.lib, a.UserId(), c.slot, c.mailboxDomain));
      var target := Locate(a, poll, ClaimRecord(claim, slot), pair);
      && (target.Unavailable? <==> answer.Failed?)
      && (target.Located? ==> target.zone == c.mailboxDomain)
      && (target.Located? && target.manifest == m <==>
            poll.now <= m.exp && answer.Records? && exists i: nat :: IsFirstFor(a, answer.txts, pair, m, i))
  {
    var answer := poll.reader(SlotDomain(a.lib, a.UserId(), c.slot, c.mailboxDomain));
    if answer.Records? {
      FirstManifestIff(a, answer.txts, R.Pair(c.spk, c.msgId), m);
    }
  }

  /** The slot that a claim points to cannot be read. */
  predicate SlotUnreadable(a: Account, poll: Poll, item: Item) {
    item.ClaimRecord? && a.lib.claim(item.claim).Some? &&
      var c := a.lib.claim(item.claim).value;
      poll.reader(SlotDomain(a.lib, a.UserId(), c.slot, c.mailboxDomain)).Failed?
  }

  lemma UnavailableIff(a: Account, poll: Poll, item: Item, pair: R.Pair)
    requires !item.Unreadable?
    ensures Locate(a, poll, item, pair).Unavailable? <==> SlotUnreadable(a, poll, item)
  {
  }

  /** A located manifest is the announced one, for this account, and not expired. */
  lemma LocatedMatches(a: Account, poll: Poll, item: Item)
    requires Announces(a, poll.now, item).Some?
    ensures var pair := Announces(a, poll.now, item).value;
      var t := Locate(a, poll, item, pair);
      t.Located? ==>
        && R.Pair(t.manifest.spk, t.manifest.msgId) == pair
        && t.manifest.recipientId == a.UserId()
        && !Expired(t.manifest, poll.now)
  {
    if item.ClaimRecord? {
      var c := a.lib.claim(item.claim).value;
      var answer := poll.reader(SlotDomain(a.lib, a.UserId(), c.slot, c.mailboxDomain));
      if answer.Records? {
        FirstManifestIsForPair(a, answer.txts, R.Pair(c.spk, c.msgId));
      }
    }
  }

  // ---- one step ----

  datatype Route = Inbox | Queue(id: Option<nat>)

  /** A message that was decrypted and recorded. `born` identifies the one-time
      prekey that decrypted it, and `opener` is its secret half. */
  datatype Event = Event(
    pair: R.Pair, exp: u64, at: u64, message: InboxMessage, prekeyId: u32, born: Option<nat>, opener: Option<Key32>,
    route: Route)

  datatype Outcome = Skipped | Aborted | Surfaced(event: Event)

  function IntroOf(m: Manifest, msg: InboxMessage, now: u64): Q.Intro {
    Q.Intro(m.spk, msg.senderLabel, m.msgId, msg.plaintext, I64Secs(now), I64Secs(m.exp))
  }

  function BornOf(rows: P.Rows, id: u32): Option<nat> {
    if id != NO_PREKEY && id in rows then Some(rows[id].born) else None
  }

  function OpenerOf(rows: P.Rows, id: u32): Option<Key32> {
    if id != NO_PREKEY && id in rows then Some(rows[id].secret) else None
  }

  /** Record the pair, consume the prekey, put the message where it belongs. */
  function Commit(a: Account, poll: Poll, st: Stores, m: Manifest, msg: InboxMessage, toQueue: bool): (Stores, Event) {
    var pair := R.Pair(m.spk, m.msgId);
    var seen := R.Purged(st.seen, poll.now)[pair := I64Secs(m.exp)];
    var pool := if m.prekeyId == NO_PREKEY then st.pool
                else Pool.ConsumeOne(st.pool, m.prekeyId, a.poolName, poll.deletes(m.prekeyId));
    var (queue, id) := if toQueue then Q.Enqueued(st.queue, IntroOf(m, msg, poll.now)) else (st.queue, None);
    (Stores(seen, pool, queue),
     Event(pair, m.exp, poll.now, msg, m.prekeyId, BornOf(st.pool.rows, m.prekeyId),
           OpenerOf(st.pool.rows, m.prekeyId), if toQueue then Queue(id) else Inbox))
  }

  /** What follows from an attempt to decrypt. */
  function Settle(a: Account, poll: Poll, st: Stores, m: Manifest, decoded: Option<InboxMessage>,
                  toQueue: bool): (Stores, Outcome)
  {
    match decoded
    case None => (st, Skipped)
    case Some(msg) =>
      var (st', event) := Commit(a, poll, st, m, msg, toQueue);
      (st', Surfaced(event))
  }

  /** What follows once the gate is open and the pair has not been seen. */
  function Fetch(a: Account, poll: Poll, st: Stores, target: Target, toQueue: bool): (Stores, Outcome) {
    match target
    case Unavailable => (st, Aborted)
    case Missing => (st, Skipped)
    case Located(m, zone) =>
      Settle(a, poll, st, m, Decoded(a, poll.reader, st.pool.rows, m, zone, poll.now), toQueue)
  }

  /** A pair that passed the gate: skipped if it is remembered, fetched if not. */
  function Admit(a: Account, poll: Poll, st: Stores, item: Item, pair: R.Pair, toQueue: bool): (Stores, Outcome) {
    var purged := st.(seen := R.Purged(st.seen, poll.now));
    if pair in purged.seen then (purged, Skipped) else Fetch(a, poll, purged, Locate(a, poll, item, pair), toQueue)
  }

  ghost function Step(a: Account, poll: Poll, st: Stores, item: Item): (Stores, Outcome) {
    if item.Unreadable? then (st, Aborted)
    else match Announces(a, poll.now, item)
      case None => (st, Skipped)
      case Some(pair) =>
        var verdict := Gate(a, poll, st.queue.denied, pair.spk);
        if verdict.Unanswered? then (st, Aborted)
        else if verdict.Drop? then (st, Skipped)
        else Admit(a, poll, st, item, pair, verdict.ToQueue?)
  }

  datatype Pass = Pass(stores: Stores, events: seq<Event>, aborted: bool)

  /** The items in order, up to the first read that fails. */
  ghost function Process(a: Account, poll: Poll, st: Stores, items: seq<Item>): Pass
    decreases |items|
  {
    if items == [] then Pass(st, [], false)
    else
      var (st', outcome) := Step(a, poll, st, items[0]);
      match outcome
      case Aborted => Pass(st', [], true)
      case Skipped => Process(a, poll, st', items[1..])
      case Surfaced(event) =>
        var rest := Process(a, poll, st', items[1..]);
        rest.(events := [event] + rest.events)
  }

  /** The messages a call returns, provided it returns at all. */
  function Inboxed(events: seq<Event>): seq<InboxMessage> {
    if events == [] then []
    else (if events[0].route.Inbox? then [events[0].message] else []) + Inboxed(events[1..])
  }

  lemma {:induction false} InboxedAppends(events: seq<Event>, more: seq<Event>)
    ensures Inboxed(events + more) == Inboxed(events) + Inboxed(more)
    decreases |events|
  {
    if events == [] {
      assert events + more == more;
    } else {
      var first := if events[0].route.Inbox? then [events[0].message] else [];
      assert (events + more)[0] == events[0] && (events + more)[1..] == events[1..] + more;
      InboxedAppends(events[1..], more);
      assert first + (Inboxed(events[1..]) + Inboxed(more)) == (first + Inboxed(events[1..])) + Inboxed(more);
    }
  }

  function EventsOf(outcome: Outcome): seq<Event> {
    if outcome.Surfaced? then [outcome.event] else []
  }

  /** The first item, and then the rest unless a read failed. */
  lemma ProcessStarts(a: Account, poll: Poll, st: Stores, items: seq<Item>)
    requires items != []
    ensures var (st', outcome) := Step(a, poll, st, items[0]);
      var rest := Process(a, poll, st', items[1..]);
      Process(a, poll, st, items)
      == if outcome.Aborted? then Pass(st', [], true)
         else Pass(rest.stores, EventsOf(outcome) + rest.events, rest.aborted)
  {
    var rest := Process(a, poll, Step(a, poll, st, items[0]).0, items[1..]);
    assert [] + rest.events == rest.events;
  }

  /** One pass and then another. */
  function Then(first: Pass, second: Pass): Pass {
    if first.aborted then first else Pass(second.stores, first.events + second.events, second.aborted)
  }

  lemma {:induction false} ProcessAppends(a: Account, poll: Poll, st: Stores, items: seq<Item>, more: seq<Item>)
    ensures var first := Process(a, poll, st, items);
      Process(a, poll, st, items + more) == Then(first, Process(a, poll, first.stores, more))
    decreases |items|
  {
    if items == [] {
      assert items + more == more;
      var second := Process(a, poll, st, more);
      assert [] + second.events == second.events;
    } else {
      assert (items + more)[0] == items[0] && (items + more)[1..] == items[1..] + more;
      var (st', outcome) := Step(a, poll, st, items[0]);
      ProcessStarts(a, poll, st, items);
      ProcessStarts(a, poll, st, items + more);
      if !outcome.Aborted? {
        ProcessAppends(a, poll, st', items[1..], more);
        var first := Process(a, poll, st', items[1..]);
        var second := Process(a, poll, first.stores, more);
        Associates(EventsOf(outcome), first.events, second.events);
      }
    }
  }

  lemma Associates(a: seq<Event>, b: seq<Event>, c: seq<Event>)
    ensures a + (b + c) == (a + b) + c
  {
  }

  lemma PassAppends(a: Account, poll: Poll, start: Stores, done: seq<Item>, more: seq<Item>, current: Stores,
                    events: seq<Event>, second: Pass)
    requires Pass(current, events, false) == Process(a, poll, start, done) && second == Process(a, poll, current, more)
    ensures Process(a, poll, start, done + more) == Pass(second.stores, events + second.events, second.aborted)
  {
    ProcessAppends(a, poll, start, done, more);
  }

  /** One more record. */
  lemma PassGrows(a: Account, poll: Poll, start: Stores, items: seq<Item>, i: nat, current: Stores, events: seq<Event>,
                  one: Pass)
    requires i < |items| && Pass(current, events, false) == Process(a, poll, start, items[..i])
    requires Process(a, poll, current, [items[i]]) == one
    ensures Process(a, poll, start, items[..i + 1]) == Pass(one.stores, events + one.events, one.aborted)
  {
    PassAppends(a, poll, start, items[..i], [items[i]], current, events, one);
    assert items[..i + 1] == items[..i] + [items[i]];
  }

  /** Once a read has failed nothing after it matters. */
  lemma AbortStays(a: Account, poll: Poll, st: Stores, items: seq<Item>, all: seq<Item>)
    requires items <= all && Process(a, poll, st, items).aborted
    ensures Process(a, poll, st, all) == Process(a, poll, st, items)
  {
    assert all == items + all[|items|..];
    ProcessAppends(a, poll, st, items, all[|items|..]);
  }

  lemma StepIsPass(a: Account, poll: Poll, st: Stores, item: Item)
    ensures var (st', outcome) := Step(a, poll, st, item);
      Process(a, poll, st, [item]) == Pass(st', EventsOf(outcome), outcome.Aborted?)
  {
    assert [item][1..] == [];
  }

  // ---- what a call reads ----

  function SlotRecords(txts: seq<string>, zone: string): (r: seq<Item>)
    ensures |r| == |txts|
    ensures forall i :: 0 <= i < |txts| ==> r[i] == SlotRecord(txts[i], zone)
  {
    seq(|txts|, i requires 0 <= i < |txts| => SlotRecord(txts[i], zone))
  }

  function ClaimRecords(txts: seq<string>, slot: nat): (r: seq<Item>)
    ensures |r| == |txts|
    ensures forall i :: 0 <= i < |txts| ==> r[i] == ClaimRecord(txts[i], slot)
  {
    seq(|txts|, i requires 0 <= i < |txts| => ClaimRecord(txts[i], slot))
  }

  function SlotItems(a: Account, reader: Reader, zone: string, slot: nat): seq<Item> {
    match reader(SlotDomain(a.lib, a.UserId(), slot, zone))
    case Failed => [Unreadable]
    case NoRecord => []
    case Records(txts) => SlotRecords(txts, zone)
  }

  function ClaimItems(a: Account, reader: Reader, provider: string, slot: nat): seq<Item> {
    match reader(ClaimName(a.lib, a.UserId(), slot, provider))
    case Failed => [Unreadable]
    case NoRecord => []
    case Records(txts) => ClaimRecords(txts, slot)
  }

  /** Slots below `n` of one zone. */
  function ZoneItems(a: Account, reader: Reader, zone: string, n: nat): seq<Item> {
    if n == 0 then [] else ZoneItems(a, reader, zone, n - 1) + SlotItems(a, reader, zone, n - 1)
  }

  function MailboxItems(a: Account, reader: Reader, zones: seq<string>): seq<Item> {
    if zones == [] then []
    else MailboxItems(a, reader, zones[..|zones| - 1]) + ZoneItems(a, reader, Last(zones), SLOT_COUNT)
  }

  function ProviderItems(a: Account, reader: Reader, provider: string, n: nat): seq<Item> {
    if n == 0 then [] else ProviderItems(a, reader, provider, n - 1) + ClaimItems(a, reader, provider, n - 1)
  }

  lemma {:induction false} ZoneGrows(a: Account, reader: Reader, zone: string, m: nat, n: nat)
    requires m <= n
    ensures ZoneItems(a, reader, zone, m) <= ZoneItems(a, reader, zone, n)
    decreases n
  {
    if m < n {
      ZoneGrows(a, reader, zone, m, n - 1);
    }
  }

  lemma {:induction false} ProviderGrows(a: Account, reader: Reader, provider: string, m: nat, n: nat)
    requires m <= n
    ensures ProviderItems(a, reader, provider, m) <= ProviderItems(a, reader, provider, n)
    decreases n
  {
    if m < n {
      ProviderGrows(a, reader, provider, m, n - 1);
    }
  }

  lemma {:induction false} MailboxGrows(a: Account, reader: Reader, zones: seq<string>, m: nat)
    requires m <= |zones|
    ensures MailboxItems(a, reader, zones[..m]) <= MailboxItems(a, reader, zones)
    decreases |zones|
  {
    if m < |zones| {
      var init := zones[..|zones| - 1];
      assert init[..m] == zones[..m];
      MailboxGrows(a, reader, init, m);
    } else {
      assert zones[..m] == zones;
    }
  }

  /** Our own zone first, then every other zone a contact names, once. */
  function Zones(domain: string, contacts: seq<RC.Contact>): seq<string> {
    if contacts == [] then [domain]
    else
      var zones := Zones(domain, contacts[..|contacts| - 1]);
      var zone := Last(contacts).domain;
      if zone == "" || zone in zones then zones else zones + [zone]
  }

  /** No zone is walked twice, and the walk covers our own zone and every zone
      that is named. */
  lemma {:induction false} ZonesCover(domain: string, contacts: seq<RC.Contact>)
    ensures var zones := Zones(domain, contacts);
      && zones != [] && zones[0] == domain
      && (forall i, j :: 0 <= i < j < |zones| ==> zones[i] != zones[j])
      && (forall z :: z in zones <==>
          z == domain || (z != "" && exists i :: 0 <= i < |contacts| && contacts[i].domain == z))
    decreases |contacts|
  {
    if contacts != [] {
      var init := contacts[..|contacts| - 1];
      ZonesCover(domain, init);
      var zones := Zones(domain, contacts);
      forall z ensures z in zones <==>
        z == domain || (z != "" && exists i :: 0 <= i < |contacts| && contacts[i].domain == z) {
        if i :| 0 <= i < |contacts| && contacts[i].domain == z {
          assert i < |init| ==> init[i].domain == z;
        }
        if z in Zones(domain, init) && z != domain {
          var i :| 0 <= i < |init| && init[i].domain == z;
          assert contacts[i].domain == z;
        }
      }
    }
  }
}
