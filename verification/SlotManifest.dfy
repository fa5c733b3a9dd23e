/**
 The slot manifest: 108 signed bytes that name a waiting message, and their TXT
 record.
 */
module SlotManifest {
  import opened Prelude
  import opened TextCodec
  import opened Library

  const RECORD_PREFIX := "v=dmp1;t=manifest;d="
  const BODY_LEN := 108
  const MAX_TOTAL_CHUNKS := 1024

  datatype Manifest = Manifest(
    msgId: MsgId, spk: Key32, recipientId: Key32, totalChunks: u32, dataChunks: u32, prekeyId: u32, ts: u64, exp: u64)

  predicate Valid(m: Manifest) {
    1 <= m.totalChunks <= MAX_TOTAL_CHUNKS && 1 <= m.dataChunks <= m.totalChunks
  }

  predicate Expired(m: Manifest, now: u64) {
    now > m.exp
  }

  function Names(m: Manifest): (b: Bytes)
    ensures |b| == 80
  {
    m.msgId + m.spk + m.recipientId
  }

  function Counts(m: Manifest): (b: Bytes)
    ensures |b| == 12
  {
    BigEndian(m.totalChunks, 4) + BigEndian(m.dataChunks, 4) + BigEndian(m.prekeyId, 4)
  }

  function Times(m: Manifest): (b: Bytes)
    ensures |b| == 16
  {
    BigEndian(m.ts, 8) + BigEndian(m.exp, 8)
  }

  function ToBody(m: Manifest): (b: Bytes)
    ensures |b| == BODY_LEN
  {
    Names(m) + Counts(m) + Times(m)
  }

  function U32At(b: Bytes, at: nat): u32
    requires at + 4 <= |b|
  {
    Widths();
    BigEndianBytes(b[at..at + 4]);
    FromBigEndian(b[at..at + 4])
  }

  function U64At(b: Bytes, at: nat): u64
    requires at + 8 <= |b|
  {
    Widths();
    BigEndianBytes(b[at..at + 8]);
    FromBigEndian(b[at..at + 8])
  }

  /** The manifest that 108 bytes spell out, acceptable or not. */
  function Spelled(b: Bytes): Manifest
    requires |b| == BODY_LEN
  {
    Manifest(b[0..16], b[16..48], b[48..80], U32At(b, 80), U32At(b, 84), U32At(b, 88), U64At(b, 92), U64At(b, 100))
  }

  function FromBody(b: Bytes): Option<Manifest> {
    if |b| != BODY_LEN then None
    else if !Valid(Spelled(b)) then None
    else Some(Spelled(b))
  }

  lemma NamesStand(b: Bytes, m: Manifest)
    requires |b| == BODY_LEN
    ensures b[..80] == Names(m) <==> b[0..16] == m.msgId && b[16..48] == m.spk && b[48..80] == m.recipientId
  {
    Pieces(b, 0, m.msgId, m.spk, m.recipientId, []);
    assert m.msgId + m.spk + m.recipientId + [] == Names(m);
    assert b[0..80] == b[..80] && b[80..80] == [];
  }

  lemma CountsStand(b: Bytes, m: Manifest)
    requires |b| == BODY_LEN
    ensures b[80..92] == Counts(m) <==>
      U32At(b, 80) == m.totalChunks && U32At(b, 84) == m.dataChunks && U32At(b, 88) == m.prekeyId
  {
    Pieces(b, 80, BigEndian(m.totalChunks, 4), BigEndian(m.dataChunks, 4), BigEndian(m.prekeyId, 4), []);
    assert BigEndian(m.totalChunks, 4) + BigEndian(m.dataChunks, 4) + BigEndian(m.prekeyId, 4) + [] == Counts(m);
    assert b[92..92] == [];
    FieldStands(b[80..84], m.totalChunks, 4);
    FieldStands(b[84..88], m.dataChunks, 4);
    FieldStands(b[88..92], m.prekeyId, 4);
    Widths();
  }

  lemma TimesStand(b: Bytes, m: Manifest)
    requires |b| == BODY_LEN
    ensures b[92..] == Times(m) <==> U64At(b, 92) == m.ts && U64At(b, 100) == m.exp
  {
    Pieces(b, 92, BigEndian(m.ts, 8), BigEndian(m.exp, 8), [], []);
    assert BigEndian(m.ts, 8) + BigEndian(m.exp, 8) + [] + [] == Times(m);
    assert b[92..108] == b[92..] && b[108..108] == [];
    Widths();
    FieldStands(b[92..100], m.ts, 8);
    FieldStands(b[100..108], m.exp, 8);
  }

  lemma FieldStands(b: Bytes, n: nat, k: nat)
    requires |b| == k && n < Pow256(k)
    ensures b == BigEndian(n, k) <==> FromBigEndian(b) == n
  {
    BigEndianRoundTrip(n, k);
    BigEndianBytes(b);
  }

  /** Bytes and manifests correspond one to one. */
  lemma BodyIff(b: Bytes, m: Manifest)
    requires |b| == BODY_LEN
    ensures b == ToBody(m) <==> Spelled(b) == m
  {
    NamesStand(b, m);
    CountsStand(b, m);
    TimesStand(b, m);
    assert b == b[..80] + b[80..92] + b[92..];
    assert ToBody(m)[..80] == Names(m) && ToBody(m)[80..92] == Counts(m) && ToBody(m)[92..] == Times(m);
  }

  /** The codec is a bijection between valid manifests and accepted bodies. */
  lemma BodyCodec(b: Bytes, m: Manifest)
    ensures FromBody(b) == Some(m) <==> Valid(m) && b == ToBody(m)
  {
    if |b| == BODY_LEN {
      BodyIff(b, m);
    }
  }

  /** The manifest's fields stand in the body, each at its place. */
  ghost predicate SpelledBy(b: Bytes, m: Manifest) {
    && |b| == 108
    && b[0..16] == m.msgId && b[16..48] == m.spk && b[48..80] == m.recipientId
    && FromBigEndian(b[80..84]) == m.totalChunks && FromBigEndian(b[84..88]) == m.dataChunks
    && FromBigEndian(b[88..92]) == m.prekeyId
    && FromBigEndian(b[92..100]) == m.ts && FromBigEndian(b[100..108]) == m.exp
  }

  lemma SpelledIff(b: Bytes, m: Manifest)
    ensures SpelledBy(b, m) <==> |b| == BODY_LEN && b == ToBody(m)
    ensures FromBody(b) == Some(m) <==> Valid(m) && SpelledBy(b, m)
  {
    if |b| == BODY_LEN {
      BodyIff(b, m);
    }
  }

  function Sign(lib: Library, seed: Key32, m: Manifest): Option<string> {
    if !Valid(m) then None
    else Some(RECORD_PREFIX + lib.b64(ToBody(m) + lib.sign(seed, ToBody(m))))
  }

  function ParseAndVerify(lib: Library, record: string): Option<Manifest> {
    if !(RECORD_PREFIX <= record) then None
    else match lib.unb64(record[|RECORD_PREFIX|..])
      case None => None
      case Some(wire) =>
        if |wire| != BODY_LEN + SIG_LEN then None
        else
          var body, signature := wire[..BODY_LEN], wire[BODY_LEN..];
          match FromBody(body)
          case None => None
          case Some(m) => if lib.verify(body, signature, m.spk) then Some(m) else None
  }

  /** What a sender signs with its own key, a receiver accepts unchanged; signing
      fails exactly for the chunk counts that parsing would refuse. */
  lemma SignedManifestVerifies(lib: Library, seed: Key32, m: Manifest)
    requires lib.SignLaws() && m.spk == lib.signingKeyOf(seed)
    ensures Sign(lib, seed, m).Some? <==> Valid(m)
    ensures Sign(lib, seed, m).Some? ==> ParseAndVerify(lib, Sign(lib, seed, m).value) == Some(m)
  {
    if Valid(m) {
      var body := ToBody(m);
      var sig := lib.sign(seed, body);
      var wire := body + sig;
      assert (RECORD_PREFIX + lib.b64(wire))[|RECORD_PREFIX|..] == lib.b64(wire);
      assert wire[..BODY_LEN] == body && wire[BODY_LEN..] == sig;
      BodyCodec(body, m);
    }
  }

  /** For every string: a manifest is accepted exactly if the string carries its fields and
      a signature over them by the sender it names, and its chunk counts are in
      range. */
  lemma VerifiedIff(lib: Library, record: string, m: Manifest)
    ensures ParseAndVerify(lib, record) == Some(m) <==>
      && 1 <= m.totalChunks <= 1024 && 1 <= m.dataChunks <= m.totalChunks
      && "v=dmp1;t=manifest;d=" <= record
      && exists body, signature ::
           && lib.unb64(record[20..]) == Some(body + signature)
           && SpelledBy(body, m) && |signature| == 64 && lib.verify(body, signature, m.spk)
  {
    if ParseAndVerify(lib, record) == Some(m) {
      var wire := lib.unb64(record[|RECORD_PREFIX|..]).value;
      SpelledIff(wire[..BODY_LEN], m);
      assert wire == wire[..BODY_LEN] + wire[BODY_LEN..];
    }
    forall body, signature | SpelledBy(body, m) && |signature| == 64
      ensures (body + signature)[..BODY_LEN] == body && (body + signature)[BODY_LEN..] == signature
      ensures FromBody(body) == Some(m) <==> Valid(m)
    {
      SpelledIff(body, m);
    }
  }

  /** An accepted manifest carries a signature by its own sender over exactly its
      fields. */
  lemma AcceptedManifestIsSigned(lib: Library, record: string)
    requires ParseAndVerify(lib, record).Some?
    ensures var m := ParseAndVerify(lib, record).value;
            Valid(m) && exists sig :: |sig| == SIG_LEN && lib.verify(ToBody(m), sig, m.spk)
                                      && lib.unb64(record[|RECORD_PREFIX|..]) == Some(ToBody(m) + sig)
  {
    var m := ParseAndVerify(lib, record).value;
    var wire := lib.unb64(record[|RECORD_PREFIX|..]).value;
    BodyCodec(wire[..BODY_LEN], m);
    assert wire == ToBody(m) + wire[BODY_LEN..];
  }
}
