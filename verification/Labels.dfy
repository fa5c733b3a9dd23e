/**
 The sender address inside a message: when the sender puts it there, and when the
 receiver shows it.
 */
module Labels {
  import opened Prelude
  import opened DnsReader
  import opened Library
  import opened Delivery
  import opened Send
  import opened EndToEnd
  import Envelope
  import Json
  import Message
  import TextCodec
  import RC = RotationChain

  /** An identity record with this key. */
  predicate PinsKey(lib: Library, txt: string, spk: Key32) {
    lib.identity(txt).Some? && lib.identity(txt).value.spk == spk
  }

  /** The first identity record with the key lists version 2. */
  ghost predicate DeclaresV2(lib: Library, txts: seq<string>, spk: Key32) {
    exists i :: 0 <= i < |txts| && PinsKey(lib, txts[i], spk) && 2 in lib.identity(txts[i]).value.versions
                && forall j :: 0 <= j < i ==> !PinsKey(lib, txts[j], spk)
  }

  lemma {:induction false} VersionsIff(lib: Library, txts: seq<string>, spk: Key32)
    ensures 2 in VersionsIn(lib, txts, spk) <==> DeclaresV2(lib, txts, spk)
    decreases |txts|
  {
    if txts != [] && !PinsKey(lib, txts[0], spk) {
      var rest := txts[1..];
      VersionsIff(lib, rest, spk);
      if DeclaresV2(lib, rest, spk) {
        var i :| 0 <= i < |rest| && PinsKey(lib, rest[i], spk) && 2 in lib.identity(rest[i]).value.versions
              && forall j :: 0 <= j < i ==> !PinsKey(lib, rest[j], spk);
        assert txts[i + 1] == rest[i];
        assert forall j :: 1 <= j < i + 1 ==> txts[j] == rest[j - 1];
      }
      if DeclaresV2(lib, txts, spk) {
        var i :| 0 <= i < |txts| && PinsKey(lib, txts[i], spk) && 2 in lib.identity(txts[i]).value.versions
              && forall j :: 0 <= j < i ==> !PinsKey(lib, txts[j], spk);
        assert rest[i - 1] == txts[i];
        assert forall j :: 0 <= j < i - 1 ==> rest[j] == txts[j + 1];
      }
    }
  }

  /** The recipient takes version 2, by its identity record as the sender sees it; a
      contact without a domain is looked up in the sender's. */
  ghost predicate TakesV2(s: Sender, stored: RC.Contact, draw: Draw) {
    var domain := if stored.domain == "" then s.domain else stored.domain;
    DeclaresV2(s.lib, TxtsAt(draw.reader, s.lib.identityDomain(stored.username, domain)), stored.spk)
  }

  /** The address the sender claims, in canonical form and short enough. */
  predicate Claims(s: Sender, addr: string) {
    Envelope.CanonicalizeAddress(s.username + "@" + s.domain) == Some(addr) && |addr| <= 245
  }

  /** The plaintext goes out in an envelope. */
  ghost predicate Wraps(s: Sender, stored: RC.Contact, draw: Draw) {
    TakesV2(s, stored, draw) && exists addr :: Claims(s, addr)
  }

  /** What is sealed: the envelope with the claimed address towards recipients that take
      version 2, and towards all others the bare plaintext. */
  lemma SealedIs(s: Sender, stored: RC.Contact, plaintext: Bytes, draw: Draw)
    requires Json.ReadsBack(s.lib.json) && Compose(s, stored, plaintext, draw).Ok?
    ensures var raw := Compose(s, stored, plaintext, draw).value.raw;
      && (raw != plaintext <==> Wraps(s, stored, draw))
      && (forall addr :: TakesV2(s, stored, draw) && Claims(s, addr) ==>
            && raw == "DMPV2:{\"from\":\"" + addr + "\"}\n" + plaintext
            && Envelope.Decode(s.lib.json, raw) == (plaintext, Some(addr)))
  {
    RawIsWrapped(s, stored, plaintext, draw);
    WrappedIs(s, Addressee(s, stored), draw.reader, plaintext);
    VersionsIff(s.lib, TxtsAt(draw.reader, s.lib.identityDomain(Addressee(s, stored).username,
                                                                Addressee(s, stored).domain)), stored.spk);
  }

  lemma RawIsWrapped(s: Sender, stored: RC.Contact, plaintext: Bytes, draw: Draw)
    requires Compose(s, stored, plaintext, draw).Ok?
    ensures Compose(s, stored, plaintext, draw).value.raw
         == MaybeWrapEnvelope(s, Addressee(s, stored), draw.reader, plaintext)
  {
  }

  lemma WrappedIs(s: Sender, contact: RC.Contact, reader: Reader, plaintext: Bytes)
    requires Json.ReadsBack(s.lib.json)
    ensures var raw := MaybeWrapEnvelope(s, contact, reader, plaintext);
      var wraps := 2 in RecipientVersions(s.lib, contact, reader);
      && (raw != plaintext <==> wraps && exists addr :: Claims(s, addr))
      && (forall addr :: wraps && Claims(s, addr) ==>
            && raw == "DMPV2:{\"from\":\"" + addr + "\"}\n" + plaintext
            && Envelope.Decode(s.lib.json, raw) == (plaintext, Some(addr)))
  {
    var claim := s.username + "@" + s.domain;
    if Envelope.CanonicalizeAddress(claim).Some? {
      var addr := Envelope.CanonicalizeAddress(claim).value;
      Envelope.EnvelopeRoundTrip(s.lib.json, plaintext, claim);
      if |addr| <= 245 {
        Envelope.EnvelopeText(plaintext, claim);
        assert Claims(s, addr);
      }
    }
  }

  /** What is to be sealed for this plaintext. */
  ghost predicate ToSeal(s: Sender, stored: RC.Contact, plaintext: Bytes, draw: Draw, raw: Bytes) {
    && (!Wraps(s, stored, draw) ==> raw == plaintext)
    && forall addr :: TakesV2(s, stored, draw) && Claims(s, addr) ==>
         raw == "DMPV2:{\"from\":\"" + addr + "\"}\n" + plaintext
  }

  lemma ToSealIs(s: Sender, stored: RC.Contact, plaintext: Bytes, draw: Draw, raw: Bytes)
    requires Json.ReadsBack(s.lib.json) && ToSeal(s, stored, plaintext, draw, raw)
    ensures MaybeWrapEnvelope(s, Addressee(s, stored), draw.reader, plaintext) == raw
  {
    WrappedIs(s, Addressee(s, stored), draw.reader, plaintext);
    VersionsIff(s.lib, TxtsAt(draw.reader, s.lib.identityDomain(Addressee(s, stored).username,
                                                                Addressee(s, stored).domain)), stored.spk);
    if Wraps(s, stored, draw) {
      var addr :| Claims(s, addr);
    }
  }

  /** The bytes that the payload is bound to. */
  function Bound(s: Sender, stored: RC.Contact, draw: Draw): Bytes {
    var to := s.lib.userId(stored.x25519);
    var pick := Picked(s, stored, draw);
    Message.HeaderToBytes(HeaderFor(s.lib, s.seed, draw.msgId, to, draw.now).(totalChunks := 0))
    + TextCodec.BigEndian(if pick.Some? then pick.value.id else NO_PREKEY, 4)
  }

  function SealedPayload(s: Sender, stored: RC.Contact, draw: Draw, raw: Bytes): Option<Bytes> {
    var pick := Picked(s, stored, draw);
    s.lib.seal(if pick.Some? then pick.value.publicKey else stored.x25519, raw, Bound(s, stored, draw), draw.sealing)
  }

  function FrameBytes(s: Sender, stored: RC.Contact, draw: Draw, payload: Bytes): Bytes {
    var header := HeaderFor(s.lib, s.seed, draw.msgId, s.lib.userId(stored.x25519), draw.now);
    Message.ToBytes(Message.Message(header, payload, ZEROS16 + ZEROS16))
  }

  /** When composing succeeds, and what it reports when it does not: the payload cannot be
      sealed, or the frame not split, or it is split into more than 2^32 - 1 pieces. */
  lemma ComposeReports(s: Sender, stored: RC.Contact, plaintext: Bytes, draw: Draw, raw: Bytes)
    requires Json.ReadsBack(s.lib.json) && ToSeal(s, stored, plaintext, draw, raw)
    ensures var r := Compose(s, stored, plaintext, draw);
      match SealedPayload(s, stored, draw, raw)
      case None => r == Err(Encryption)
      case Some(payload) =>
        match s.lib.split(FrameBytes(s, stored, draw, payload))
        case None => r == Err(Erasure)
        case Some((blocks, k)) =>
          if |blocks| >= 0x1_0000_0000 || k >= 0x1_0000_0000 then r == Err(TooManyChunks)
          else r.Ok? && r.value.blocks == blocks && r.value.manifest.dataChunks == k && r.value.raw == raw
  {
    ToSealIs(s, stored, plaintext, draw, raw);
  }

  /** The user's bytes come back exactly when they went out in an envelope, or do not read as
      one. */
  lemma PlaintextSurvivesIff(s: Sender, stored: RC.Contact, plaintext: Bytes, draw: Draw)
    requires Json.ReadsBack(s.lib.json) && Compose(s, stored, plaintext, draw).Ok?
    ensures Envelope.Decode(s.lib.json, Compose(s, stored, plaintext, draw).value.raw).0 == plaintext <==>
      Wraps(s, stored, draw) || !Envelope.IsEnvelope(s.lib.json, plaintext)
  {
    SealedIs(s, stored, plaintext, draw);
    Envelope.DecodeSplits(s.lib.json, plaintext);
  }

  /** What the receiver shows as the sender of a message: its address exactly if it was
      claimed and is vouched for, and nothing otherwise. */
  ghost predicate LabelFits(shown: Option<string>, s: Sender, stored: RC.Contact, draw: Draw, reader: Reader) {
    forall addr :: shown == Some(addr) <==>
      TakesV2(s, stored, draw) && Claims(s, addr) && Vouched(s.lib, reader, addr, s.Spk())
  }

  /** The label a receiver shows for a composed message that it reads as what was sent. */
  lemma LabelShown(s: Sender, stored: RC.Contact, plaintext: Bytes, draw: Draw, reader: Reader)
    requires Json.ReadsBack(s.lib.json) && Compose(s, stored, plaintext, draw).Ok?
    requires Wraps(s, stored, draw) || !Envelope.IsEnvelope(s.lib.json, plaintext)
    ensures var claim := Envelope.Decode(s.lib.json, Compose(s, stored, plaintext, draw).value.raw).1;
      LabelFits(ResolveLabel(s.lib, reader, claim, s.Spk()), s, stored, draw, reader)
  {
    SealedIs(s, stored, plaintext, draw);
    if Wraps(s, stored, draw) {
      var addr :| Claims(s, addr);
      Envelope.CanonicalizeIdempotent(s.username + "@" + s.domain);
      LabelIsVouched(s.lib, reader, addr, s.Spk());
    } else {
      Envelope.DecodeSplits(s.lib.json, plaintext);
    }
  }
}
