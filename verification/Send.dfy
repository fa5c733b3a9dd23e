/**
 The send path: pick a prekey, encrypt under header-bound associated data, erasure
 encode, publish every chunk and then the signed manifest.
 */
module Send {
  import opened Prelude
  import opened TextCodec
  import opened DnsReader
  import opened Library
  import opened SlotManifest
  import opened Addressing
  import opened MemoryDns
  import Json
  import Message
  import Envelope
  import RC = RotationChain
  import P = Prekeys
  import Pool = PrekeyPool
  import Delivery

  datatype Sender = Sender(lib: Library, username: string, domain: string, seed: Key32)
  {
    function UserId(): Key32 {
      lib.userId(lib.publicOf(seed))
    }
    function Spk(): Key32 {
      lib.signingKeyOf(seed)
    }
  }

  /** What one send draws on besides its arguments: the clock, three random draws,
      and its view of DNS. */
  datatype Draw = Draw(now: u64, msgId: MsgId, sealing: Bytes, pick: nat, reader: Reader)

  datatype Error =
    | ContactNotFound
    | Encryption
    | Erasure
    | TooManyChunks
    | ManifestInvalid
    | PublishFailed
    | WriterError

  // ---- choosing keys and form ----

  /** The prekeys on offer that verify and have not expired, in the order served. */
  function LivePrekeys(lib: Library, txts: seq<string>, spk: Key32, now: u64): (r: seq<P.Prekey>)
    ensures forall p :: p in r <==> exists txt :: txt in txts && lib.prekey(txt, spk) == Some(p) && now <= p.exp
  {
    if txts == [] then []
    else
      var first := lib.prekey(txts[0], spk);
      assert txts == [txts[0]] + txts[1..];
      (if first.Some? && now <= first.value.exp then [first.value] else []) + LivePrekeys(lib, txts[1..], spk, now)
  }

  function PickRecipientPrekey(lib: Library, contact: RC.Contact, draw: Draw): Option<P.Prekey> {
    var live := LivePrekeys(lib, TxtsAt(draw.reader, lib.prekeyName(contact.username, contact.domain)), contact.spk,
                            draw.now);
    if live == [] then None else Some(live[draw.pick % |live|])
  }

  /** The first identity record that pins the contact's key decides. */
  function VersionsIn(lib: Library, txts: seq<string>, spk: Key32): seq<nat> {
    if txts == [] then [1]
    else
      var id := lib.identity(txts[0]);
      if id.Some? && id.value.spk == spk then (if id.value.versions == [] then [1] else id.value.versions)
      else VersionsIn(lib, txts[1..], spk)
  }

  function RecipientVersions(lib: Library, contact: RC.Contact, reader: Reader): seq<nat> {
    VersionsIn(lib, TxtsAt(reader, lib.identityDomain(contact.username, contact.domain)), contact.spk)
  }

  /** The envelope is used only towards recipients that declare version 2. */
  function MaybeWrapEnvelope(s: Sender, contact: RC.Contact, reader: Reader, plaintext: Bytes): Bytes {
    if 2 in RecipientVersions(s.lib, contact, reader)
    then Envelope.Encode(plaintext, Some(s.username + "@" + s.domain)) else plaintext
  }

  function BuildAad(msgId: MsgId, senderId: Key32, recipientId: Key32, timestamp: u64, ttl: u32, prekeyId: u32): Bytes {
    Message.HeaderToBytes(Message.Header(1, Message.Data, msgId, senderId, recipientId, 0, 0, timestamp, ttl))
    + BigEndian(prekeyId, 4)
  }

  function OuterHeader(s: Sender, msgId: MsgId, recipientId: Key32, now: u64): Message.Header {
    Message.Header(1, Message.Data, msgId, s.UserId(), recipientId, 1, 0, now, DEFAULT_TTL_SECONDS)
  }

  /** The receiver rebuilds the very bytes the sender bound, although the frame it
      reads carries chunk counts of its own. */
  lemma ReceiverRebuildsAad(s: Sender, msgId: MsgId, recipientId: Key32, now: u64, prekeyId: u32, payload: Bytes,
                            json: Json.Parser)
    requires Json.ReadsBack(json)
    ensures var frame := Message.ToBytes(Message.Message(OuterHeader(s, msgId, recipientId, now), payload,
                                                         ZEROS16 + ZEROS16));
      && Message.FromBytes(json, frame).Ok?
      && Delivery.Aad(Message.FromBytes(json, frame).value.header, prekeyId)
         == BuildAad(msgId, s.UserId(), recipientId, now, DEFAULT_TTL_SECONDS, prekeyId)
  {
    Message.FrameRoundTrip(json, Message.Message(OuterHeader(s, msgId, recipientId, now), payload, ZEROS16 + ZEROS16));
  }

  /** Associated data determine every field they are built from. */
  lemma AadDeterminesFields(h: Message.Header, prekeyId: u32, h': Message.Header, prekeyId': u32)
    requires Delivery.Aad(h, prekeyId) == Delivery.Aad(h', prekeyId')
    ensures prekeyId == prekeyId' && h.(totalChunks := 0, chunkNumber := 0) == h'.(totalChunks := 0, chunkNumber := 0)
  {
    var a, a' := h.(totalChunks := 0, chunkNumber := 0), h'.(totalChunks := 0, chunkNumber := 0);
    var b, b' := Message.HeaderToBytes(a), Message.HeaderToBytes(a');
    var aad := b + BigEndian(prekeyId, 4);
    assert aad == b' + BigEndian(prekeyId', 4);
    assert b == aad[..|aad| - 4] == b';
    assert BigEndian(prekeyId, 4) == aad[|aad| - 4..] == BigEndian(prekeyId', 4);
    Message.HeaderBytesInjective(a, a');
    Widths();
    BigEndianRoundTrip(prekeyId, 4);
    BigEndianRoundTrip(prekeyId', 4);
  }

  // ---- composing a message ----

  /** Everything about a message that is fixed before the first write. `sealedTo` is
      the public key it was encrypted for. */
  datatype Letter = Letter(manifest: Manifest, key: string, frame: Bytes, blocks: seq<Bytes>, raw: Bytes,
                           sealedTo: Key32)

  function Addressee(s: Sender, contact: RC.Contact): RC.Contact {
    if contact.domain == "" then contact.(domain := s.domain) else contact
  }

  /** What follows the encryption: frame, blocks, manifest. */
  function Enclose(s: Sender, draw: Draw, recipientId: Key32, prekeyId: u32, raw: Bytes, sealedTo: Key32,
                   payload: Bytes)
    : Result<Letter, Error>
  {
    var frame := Message.ToBytes(Message.Message(OuterHeader(s, draw.msgId, recipientId, draw.now), payload,
                                                 ZEROS16 + ZEROS16));
    match s.lib.split(frame)
    case None => Err(Erasure)
    case Some((blocks, k)) =>
      if |blocks| >= U32_LIMIT || k >= U32_LIMIT then Err(TooManyChunks)
      else
        var exp := SatAdd64(draw.now, DEFAULT_TTL_SECONDS);
        var m := Manifest(draw.msgId, s.Spk(), recipientId, |blocks|, k, prekeyId, draw.now, exp);
        Ok(Letter(m, MsgKey(s.lib, draw.msgId, recipientId, s.Spk()), frame, blocks, raw, sealedTo))
  }

  function Compose(s: Sender, stored: RC.Contact, plaintext: Bytes, draw: Draw): Result<Letter, Error> {
    var contact := Addressee(s, stored);
    var recipientId := s.lib.userId(contact.x25519);
    var prekey := PickRecipientPrekey(s.lib, contact, draw);
    var prekeyId := if prekey.Some? then prekey.value.id else NO_PREKEY;
    var recipientKey := if prekey.Some? then prekey.value.publicKey else contact.x25519;
    var raw := MaybeWrapEnvelope(s, contact, draw.reader, plaintext);
    var aad := BuildAad(draw.msgId, s.UserId(), recipientId, draw.now, DEFAULT_TTL_SECONDS, prekeyId);
    match s.lib.seal(recipientKey, raw, aad, draw.sealing)
    case None => Err(Encryption)
    case Some(payload) => Enclose(s, draw, recipientId, prekeyId, raw, recipientKey, payload)
  }

  datatype TxtWrite = TxtWrite(name: string, txt: string)

  function ChunkTxtRecord(lib: Library, wireChunk: Bytes): string {
    Delivery.CHUNK_TXT_PREFIX + lib.b64(wireChunk)
  }

  function ChunkWrite(s: Sender, letter: Letter, i: nat): TxtWrite
    requires i < |letter.blocks|
  {
    TxtWrite(ChunkDomain(letter.key, i, s.domain), ChunkTxtRecord(s.lib, s.lib.wrap(letter.blocks[i])))
  }

  function ChunkWrites(s: Sender, letter: Letter): (r: seq<TxtWrite>)
    ensures |r| == |letter.blocks|
    ensures forall i :: 0 <= i < |r| ==> r[i] == ChunkWrite(s, letter, i)
  {
    seq(|letter.blocks|, i requires 0 <= i < |letter.blocks| => ChunkWrite(s, letter, i))
  }

  function SlotName(s: Sender, letter: Letter): string {
    SlotDomain(s.lib, letter.manifest.recipientId, SlotForMsgId(letter.manifest.msgId), s.domain)
  }

  /** All writes of a send in order: the chunks, and last the manifest, unless it
      cannot be signed. */
  function Writes(s: Sender, letter: Letter): seq<TxtWrite> {
    match Sign(s.lib, s.seed, letter.manifest)
    case None => ChunkWrites(s, letter)
    case Some(record) => ChunkWrites(s, letter) + [TxtWrite(SlotName(s, letter), record)]
  }

  /** The table after the first `n` writes. */
  function Written(t: Table, writes: seq<TxtWrite>, n: nat, clock: Pool.Clock): Table
    requires n <= |writes|
  {
    if n == 0 then t
    else Published(Written(t, writes, n - 1, clock), writes[n - 1].name, writes[n - 1].txt, DEFAULT_TTL_SECONDS,
                   clock(n - 1))
  }

  /** How many of the writes from `i` on go through before one does not. */
  function AcceptedFrom(outcomes: nat -> Pool.Write, i: nat, n: nat): (r: nat)
    requires i <= n
    ensures i <= r <= n
    decreases n - i
  {
    if i == n || !outcomes(i).Accepted? then i else AcceptedFrom(outcomes, i + 1, n)
  }

  /** The accepted writes are a prefix, and the write after it is not accepted. */
  lemma {:induction false} AcceptedPrefix(outcomes: nat -> Pool.Write, i: nat, n: nat)
    requires i <= n
    ensures var r := AcceptedFrom(outcomes, i, n);
      (forall j :: i <= j < r ==> outcomes(j).Accepted?) && (r < n ==> !outcomes(r).Accepted?)
    decreases n - i
  {
    if i < n && outcomes(i).Accepted? {
      AcceptedPrefix(outcomes, i + 1, n);
    }
  }

  /** How many of `n` writes take effect: those that are accepted, and possibly the one
      that ends the send, when its answer is wrong or lost. */
  function LandedOf(outcomes: nat -> Pool.Write, n: nat): (r: nat)
    ensures AcceptedFrom(outcomes, 0, n) <= r <= n
  {
    var c := AcceptedFrom(outcomes, 0, n);
    if c < n && outcomes(c).Landed() then c + 1 else c
  }

  function Failure(w: Pool.Write): Error {
    if w.Errored? then WriterError else PublishFailed
  }

  function SendResult(s: Sender, letter: Letter, outcomes: nat -> Pool.Write): Result<MsgId, Error> {
    var n := AcceptedFrom(outcomes, 0, |Writes(s, letter)|);
    if n < |Writes(s, letter)| then Err(Failure(outcomes(n)))
    else if !Valid(letter.manifest) then Err(ManifestInvalid)
    else Ok(letter.manifest.msgId)
  }

  class Publisher {
    const sender: Sender
    const dns: InMemoryDnsStore

    constructor (sender: Sender, dns: InMemoryDnsStore)
      ensures this.sender == sender && this.dns == dns
    {
      this.sender := sender;
      this.dns := dns;
    }

    /** One write, if the writer takes it. */
    method WriteTxt(w: TxtWrite, outcome: Pool.Write, now: u64) returns (failed: Option<Error>)
      requires WellFormed(dns.records)
      modifies dns
      ensures WellFormed(dns.records)
      ensures failed == if outcome.Accepted? then None else Some(Failure(outcome))
      ensures dns.records
           == if outcome.Landed() then Published(old(dns.records), w.name, w.txt, DEFAULT_TTL_SECONDS, now)
              else old(dns.records)
    {
      if outcome.Landed() {
        var _ := dns.PublishTxtRecord(w.name, w.txt, DEFAULT_TTL_SECONDS, now);
      }
      match outcome {
        case Errored(_) => return Some(WriterError);
        case Declined(_) => return Some(PublishFailed);
        case Accepted => return None;
      }
    }

    method PublishChunk(letter: Letter, i: nat, outcome: Pool.Write, now: u64) returns (failed: Option<Error>)
      requires WellFormed(dns.records) && i < |letter.blocks|
      modifies dns
      ensures WellFormed(dns.records)
      ensures failed == if outcome.Accepted? then None else Some(Failure(outcome))
      ensures var w := ChunkWrite(sender, letter, i);
        dns.records == if outcome.Landed() then Published(old(dns.records), w.name, w.txt, DEFAULT_TTL_SECONDS, now)
                       else old(dns.records)
    {
      var wireChunk := sender.lib.wrap(letter.blocks[i]);
      var txt := ChunkTxtRecord(sender.lib, wireChunk);
      failed := WriteTxt(TxtWrite(ChunkDomain(letter.key, i, sender.domain), txt), outcome, now);
    }

    /** Publish the chunks one by one, up to the first that fails. */
    method PublishChunks(letter: Letter, outcomes: nat -> Pool.Write, clock: Pool.Clock) returns (failed: Option<Error>)
      requires WellFormed(dns.records)
      modifies dns
      ensures WellFormed(dns.records)
      ensures dns.records == Written(old(dns.records), ChunkWrites(sender, letter), LandedOf(outcomes, |letter.blocks|),
                                     clock)
      ensures var n := AcceptedFrom(outcomes, 0, |letter.blocks|);
        failed == if n == |letter.blocks| then None else Some(Failure(outcomes(n)))
    {
      ghost var writes := ChunkWrites(sender, letter);
      for i := 0 to |letter.blocks|
        invariant WellFormed(dns.records)
        invariant AcceptedFrom(outcomes, 0, |letter.blocks|) == AcceptedFrom(outcomes, i, |letter.blocks|)
        invariant dns.records == Written(old(dns.records), writes, i, clock)
      {
        WrittenNext(old(dns.records), writes, i, clock);
        failed := PublishChunk(letter, i, outcomes(i), clock(i));
        if failed.Some? {
          return;
        }
      }
      failed := None;
    }

    /** The chunks, then the manifest. */
    method SendLetter(letter: Letter, outcomes: nat -> Pool.Write, clock: Pool.Clock) returns (r: Result<MsgId, Error>)
      requires WellFormed(dns.records)
      modifies dns
      ensures WellFormed(dns.records)
      ensures r == SendResult(sender, letter, outcomes)
      ensures var writes := Writes(sender, letter);
        dns.records == Written(old(dns.records), writes, LandedOf(outcomes, |writes|), clock)
    {
      ghost var before := dns.records;
      var failed := PublishChunks(letter, outcomes, clock);
      if failed.Some? {
        ChunksStop(sender, letter, outcomes, before, clock);
        return Err(failed.value);
      }
      var record := Sign(sender.lib, sender.seed, letter.manifest);
      if record.None? {
        NoManifest(sender, letter, outcomes);
        return Err(ManifestInvalid);
      }
      var w := TxtWrite(SlotName(sender, letter), record.value);
      ManifestLast(sender, letter, outcomes, before, clock, w);
      failed := WriteTxt(w, outcomes(|letter.blocks|), clock(|letter.blocks|));
      r := if failed.Some? then Err(failed.value) else Ok(letter.manifest.msgId);
    }

    /** Send to a stored contact. The writer's answer to the `i`th write is given, and
        when it is made. */
    method SendMessage(stored: Option<RC.Contact>, plaintext: Bytes, draw: Draw, outcomes: nat -> Pool.Write,
                       clock: Pool.Clock)
      returns (r: Result<MsgId, Error>)
      requires WellFormed(dns.records)
      modifies dns
      ensures WellFormed(dns.records)
      ensures stored.None? ==> r == Err(ContactNotFound) && dns.records == old(dns.records)
      ensures stored.Some? ==>
        match Compose(sender, stored.value, plaintext, draw)
        case Err(e) => r == Err(e) && dns.records == old(dns.records)
        case Ok(letter) =>
          && r == SendResult(sender, letter, outcomes)
          && var writes := Writes(sender, letter);
             dns.records == Written(old(dns.records), writes, LandedOf(outcomes, |writes|), clock)
    {
      if stored.None? {
        return Err(ContactNotFound);
      }
      var composed := Compose(sender, stored.value, plaintext, draw);
      if composed.Err? {
        return Err(composed.error);
      }
      r := SendLetter(composed.value, outcomes, clock);
    }
  }

  lemma {:induction false} WrittenPrefix(t: Table, writes: seq<TxtWrite>, more: seq<TxtWrite>, n: nat,
                                         clock: Pool.Clock)
    requires n <= |writes|
    ensures Written(t, writes + more, n, clock) == Written(t, writes, n, clock)
  {
    if n > 0 {
      WrittenPrefix(t, writes, more, n - 1, clock);
    }
  }

  lemma WrittenNext(t: Table, writes: seq<TxtWrite>, i: nat, clock: Pool.Clock)
    requires i < |writes|
    ensures Written(t, writes, i + 1, clock)
         == Published(Written(t, writes, i, clock), writes[i].name, writes[i].txt, DEFAULT_TTL_SECONDS, clock(i))
  {
  }

  /** Up to the last chunk it makes no difference that a manifest follows. */
  lemma WritesSplit(s: Sender, letter: Letter, t: Table, n: nat, clock: Pool.Clock)
    requires n <= |letter.blocks|
    ensures n <= |Writes(s, letter)|
    ensures Written(t, Writes(s, letter), n, clock) == Written(t, ChunkWrites(s, letter), n, clock)
  {
    var record := Sign(s.lib, s.seed, letter.manifest);
    if record.Some? {
      WrittenPrefix(t, ChunkWrites(s, letter), [TxtWrite(SlotName(s, letter), record.value)], n, clock);
    }
  }

  /** A send that ends at a chunk. */
  lemma ChunksStop(s: Sender, letter: Letter, outcomes: nat -> Pool.Write, t: Table, clock: Pool.Clock)
    requires AcceptedFrom(outcomes, 0, |letter.blocks|) < |letter.blocks|
    ensures var c, landed := AcceptedFrom(outcomes, 0, |letter.blocks|), LandedOf(outcomes, |letter.blocks|);
      && SendResult(s, letter, outcomes) == Err(Failure(outcomes(c)))
      && LandedOf(outcomes, |Writes(s, letter)|) == landed
      && Written(t, Writes(s, letter), landed, clock) == Written(t, ChunkWrites(s, letter), landed, clock)
  {
    WritesSplit(s, letter, t, LandedOf(outcomes, |letter.blocks|), clock);
    AcceptedSplits(outcomes, |letter.blocks|, |Writes(s, letter)|);
  }

  /** A send whose manifest cannot be signed. */
  lemma NoManifest(s: Sender, letter: Letter, outcomes: nat -> Pool.Write)
    requires AcceptedFrom(outcomes, 0, |letter.blocks|) == |letter.blocks|
    requires Sign(s.lib, s.seed, letter.manifest).None?
    ensures Writes(s, letter) == ChunkWrites(s, letter)
    ensures SendResult(s, letter, outcomes) == Err(ManifestInvalid)
  {
  }

  /** A send that gets as far as its manifest. */
  lemma ManifestLast(s: Sender, letter: Letter, outcomes: nat -> Pool.Write, t: Table, clock: Pool.Clock, w: TxtWrite)
    requires AcceptedFrom(outcomes, 0, |letter.blocks|) == |letter.blocks|
    requires Sign(s.lib, s.seed, letter.manifest) == Some(w.txt) && w.name == SlotName(s, letter)
    ensures var n, o, writes := |letter.blocks|, outcomes(|letter.blocks|), Writes(s, letter);
      && SendResult(s, letter, outcomes) == (if o.Accepted? then Ok(letter.manifest.msgId) else Err(Failure(o)))
      && |writes| == n + 1 && LandedOf(outcomes, n) == n
      && LandedOf(outcomes, n + 1) == (if o.Landed() then n + 1 else n)
      && Written(t, writes, n, clock) == Written(t, ChunkWrites(s, letter), n, clock)
      && Written(t, writes, n + 1, clock)
         == Published(Written(t, writes, n, clock), w.name, w.txt, DEFAULT_TTL_SECONDS, clock(n))
  {
    var n := |letter.blocks|;
    WritesSplit(s, letter, t, n, clock);
    AcceptedSplits(outcomes, n, n + 1);
    WrittenNext(t, Writes(s, letter), n, clock);
  }

  /** All writes before the `j`th are accepted. */
  ghost predicate AcceptedBefore(outcomes: nat -> Pool.Write, j: nat) {
    forall k :: 0 <= k < j ==> outcomes(k).Accepted?
  }

  /** A write takes effect exactly if all before it were accepted and it was, or landed
      all the same. */
  lemma LandedIff(outcomes: nat -> Pool.Write, n: nat, j: nat)
    requires j < n
    ensures j < LandedOf(outcomes, n) <==>
      AcceptedBefore(outcomes, j) && (outcomes(j).Accepted? || outcomes(j).landed)
  {
    AcceptedPrefix(outcomes, 0, n);
  }

  /** What a send reports: success exactly if every write, of the chunks and of the manifest,
      was accepted and the manifest is valid; otherwise how the first write went that
      was not accepted. */
  lemma SendReports(s: Sender, letter: Letter, outcomes: nat -> Pool.Write)
    ensures var n := if Valid(letter.manifest) then |letter.blocks| + 1 else |letter.blocks|;
      var r := SendResult(s, letter, outcomes);
      && (forall id :: r == Ok(id) <==>
            Valid(letter.manifest) && AcceptedBefore(outcomes, n) && id == letter.manifest.msgId)
      && (r == Err(ManifestInvalid) <==> !Valid(letter.manifest) && AcceptedBefore(outcomes, n))
      && (r == Err(WriterError) <==> exists j: nat :: j < n && AcceptedBefore(outcomes, j) && outcomes(j).Errored?)
      && (r == Err(PublishFailed) <==> exists j: nat :: j < n && AcceptedBefore(outcomes, j) && outcomes(j).Declined?)
  {
    var n := |Writes(s, letter)|;
    AcceptedPrefix(outcomes, 0, n);
    var c := AcceptedFrom(outcomes, 0, n);
    assert AcceptedBefore(outcomes, c);
    forall j: nat | j < n && AcceptedBefore(outcomes, j) && !outcomes(j).Accepted? ensures j == c {
    }
  }

  /** A send that reports a failure can have announced its message all the same: exactly
      if the failure is the manifest's own write and that write took effect. */
  lemma FailedYetAnnouncedIff(s: Sender, letter: Letter, outcomes: nat -> Pool.Write)
    requires Valid(letter.manifest)
    ensures SendResult(s, letter, outcomes).Err? && LandedOf(outcomes, |Writes(s, letter)|) == |Writes(s, letter)|
       <==> AcceptedFrom(outcomes, 0, |letter.blocks|) == |letter.blocks| && outcomes(|letter.blocks|).Hidden()
  {
    AcceptedSplits(outcomes, |letter.blocks|, |letter.blocks| + 1);
  }

  lemma AcceptedSplits(outcomes: nat -> Pool.Write, m: nat, n: nat)
    requires m <= n
    ensures var c := AcceptedFrom(outcomes, 0, m);
      AcceptedFrom(outcomes, 0, n) == if c < m then c else AcceptedFrom(outcomes, m, n)
  {
    AcceptedSplitsFrom(outcomes, 0, m, n);
  }

  lemma {:induction false} AcceptedSplitsFrom(outcomes: nat -> Pool.Write, i: nat, m: nat, n: nat)
    requires i <= m <= n
    ensures var c := AcceptedFrom(outcomes, i, m);
      AcceptedFrom(outcomes, i, n) == if c < m then c else AcceptedFrom(outcomes, m, n)
    decreases m - i
  {
    if i < m && outcomes(i).Accepted? {
      AcceptedSplitsFrom(outcomes, i + 1, m, n);
    }
  }
}
