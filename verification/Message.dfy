/**
 The framed message: a two-byte header length, a JSON header with hexadecimal
 and decimal fields, the payload, and a 32-byte signature slot.
 */
module Message {
  import opened Prelude
  import opened TextCodec
  import opened Json

  const SIGNATURE_LEN := 32
  const HEADER_LEN_PREFIX := 2
  const MIN_MESSAGE_LEN := HEADER_LEN_PREFIX + SIGNATURE_LEN
  /** No header is longer: nine fields, the integers at their widest. */
  const MAX_HEADER_LEN := 308

  datatype MessageType = Data | Ack | Discovery | Identity | Mailbox {
    function AsStr(): string {
      match this
      case Data => "DATA"
      case Ack => "ACK"
      case Discovery => "DISCOVERY"
      case Identity => "IDENTITY"
      case Mailbox => "MAILBOX"
    }
  }

  function ParseType(s: string): (r: Option<MessageType>)
    ensures forall t: MessageType :: r == Some(t) <==> t.AsStr() == s
  {
    match s
    case "DATA" => Some(Data)
    case "ACK" => Some(Ack)
    case "DISCOVERY" => Some(Discovery)
    case "IDENTITY" => Some(Identity)
    case "MAILBOX" => Some(Mailbox)
    case _ => None
  }

  type u8 = x: int | 0 <= x < U8_LIMIT

  datatype Header = Header(
    version: u8, messageType: MessageType, messageId: MsgId, senderId: Key32, recipientId: Key32,
    totalChunks: u32, chunkNumber: u32, timestamp: u64, ttl: u32)

  datatype Message = Message(header: Header, payload: Bytes, signature: Bytes)

  datatype Error =
    | TooShort
    | Incomplete(headerLen: nat)
    | InvalidHeader
    | UnknownMessageType
    | InvalidHex
    | InvalidLength

  predicate HeaderExpired(h: Header, now: u64) {
    now > SatAdd64(h.timestamp, h.ttl)
  }

  function HeaderMembers(h: Header): Members {
    [("v", Num(h.version)),
     ("type", Str(h.messageType.AsStr())),
     ("msg_id", Str(HexOf(h.messageId))),
     ("sender", Str(HexOf(h.senderId))),
     ("recipient", Str(HexOf(h.recipientId))),
     ("total", Num(h.totalChunks)),
     ("chunk", Num(h.chunkNumber)),
     ("ts", Num(h.timestamp)),
     ("ttl", Num(h.ttl))]
  }

  lemma {:induction false} HexIsPlain(b: Bytes)
    ensures Plain(HexOf(b))
  {
    forall c | c in HexOf(b) ensures 0x20 <= c as int < 0x7F && c != '"' && c != '\\' {
      assert c in HEX_DIGITS;
      var i :| 0 <= i < |HEX_DIGITS| && HEX_DIGITS[i] == c;
      assert c in ['0', '1', '2', '3', '4', '5', '6', '7', '8', '9', 'a', 'b', 'c', 'd', 'e', 'f'];
    }
  }

  lemma NamesPlain()
    ensures Plain("v") && Plain("type") && Plain("msg_id") && Plain("sender") && Plain("recipient")
    ensures Plain("total") && Plain("chunk") && Plain("ts") && Plain("ttl")
  {
  }

  lemma TypesPlain(t: MessageType)
    ensures Plain(t.AsStr())
  {
  }

  lemma HeaderMembersPrintable(h: Header)
    ensures Printable(HeaderMembers(h))
  {
    HexIsPlain(h.messageId);
    HexIsPlain(h.senderId);
    HexIsPlain(h.recipientId);
    NamesPlain();
    TypesPlain(h.messageType);
  }

  function HeaderToBytes(h: Header): Bytes {
    HeaderMembersPrintable(h);
    PrintIsOneLine(HeaderMembers(h));
    AsBytes(Print(HeaderMembers(h)))
  }

  function GetU64(fields: map<string, Value>, name: string): Result<u64, Error> {
    if name !in fields || !fields[name].Num? || fields[name].n >= U64_LIMIT then Err(InvalidHeader)
    else Ok(fields[name].n)
  }

  function GetBelow(fields: map<string, Value>, name: string, limit: nat): (r: Result<nat, Error>)
    ensures r.Ok? ==> r.value < limit
  {
    match GetU64(fields, name)
    case Err(e) => Err(e)
    case Ok(n) => if n < limit then Ok(n) else Err(InvalidHeader)
  }

  function GetStr(fields: map<string, Value>, name: string): Result<string, Error> {
    if name !in fields || !fields[name].Str? then Err(InvalidHeader) else Ok(fields[name].s)
  }

  function GetHex(fields: map<string, Value>, name: string, len: nat): (r: Result<Bytes, Error>)
    ensures r.Ok? ==> |r.value| == len
  {
    match GetStr(fields, name)
    case Err(e) => Err(e)
    case Ok(s) =>
      var b := UnHex(s);
      if b.None? then Err(InvalidHex)
      else if |b.value| != len then Err(InvalidLength)
      else Ok(b.value)
  }

  /** Read the nine fields, in the program's order of checks. */
  function HeaderFromFields(f: map<string, Value>): Result<Header, Error> {
    var v := GetBelow(f, "v", U8_LIMIT);
    if v.Err? then Err(v.error) else
    var ty := GetStr(f, "type");
    if ty.Err? then Err(ty.error) else
    var messageType := ParseType(ty.value);
    if messageType.None? then Err(UnknownMessageType) else
    var messageId := GetHex(f, "msg_id", 16);
    if messageId.Err? then Err(messageId.error) else
    var senderId := GetHex(f, "sender", 32);
    if senderId.Err? then Err(senderId.error) else
    var recipientId := GetHex(f, "recipient", 32);
    if recipientId.Err? then Err(recipientId.error) else
    var total := GetBelow(f, "total", U32_LIMIT);
    if total.Err? then Err(total.error) else
    var chunk := GetBelow(f, "chunk", U32_LIMIT);
    if chunk.Err? then Err(chunk.error) else
    var ts := GetU64(f, "ts");
    if ts.Err? then Err(ts.error) else
    var ttl := GetBelow(f, "ttl", U32_LIMIT);
    if ttl.Err? then Err(ttl.error) else
    Ok(Header(v.value, messageType.value, messageId.value, senderId.value, recipientId.value,
              total.value, chunk.value, ts.value, ttl.value))
  }

  function HeaderFromBytes(parse: Parser, data: string): Result<Header, Error> {
    match parse(data)
    case Malformed => Err(InvalidHeader)
    case NotObject => Err(InvalidHeader)
    case Object(fields) => HeaderFromFields(fields)
  }

  /** Length and first letter already tell the field names apart. */
  lemma HeaderNamesDistinct(h: Header)
    ensures DistinctNames(HeaderMembers(h))
  {
    var ms := HeaderMembers(h);
    var mark := (s: string) => if s == "" then 0 else 256 * |s| + (s[0] as int);
    forall i, j | 0 <= i < j < |ms| ensures mark(ms[i].0) != mark(ms[j].0) {
    }
  }

  lemma HeaderField(h: Header, i: nat)
    requires i < 9
    ensures var m := HeaderMembers(h)[i]; m.0 in FieldsOf(HeaderMembers(h)) && FieldsOf(HeaderMembers(h))[m.0] == m.1
  {
    HeaderNamesDistinct(h);
    FieldLookup(HeaderMembers(h), i);
  }

  lemma HeaderFields(h: Header, f: map<string, Value>)
    requires f == FieldsOf(HeaderMembers(h))
    ensures "v" in f && f["v"] == Num(h.version)
    ensures "type" in f && f["type"] == Str(h.messageType.AsStr())
    ensures "msg_id" in f && f["msg_id"] == Str(HexOf(h.messageId))
    ensures "sender" in f && f["sender"] == Str(HexOf(h.senderId))
    ensures "recipient" in f && f["recipient"] == Str(HexOf(h.recipientId))
    ensures "total" in f && f["total"] == Num(h.totalChunks)
    ensures "chunk" in f && f["chunk"] == Num(h.chunkNumber)
    ensures "ts" in f && f["ts"] == Num(h.timestamp)
    ensures "ttl" in f && f["ttl"] == Num(h.ttl)
  {
    HeaderField(h, 0);
    HeaderField(h, 1);
    HeaderField(h, 2);
    HeaderField(h, 3);
    HeaderField(h, 4);
    HeaderField(h, 5);
    HeaderField(h, 6);
    HeaderField(h, 7);
    HeaderField(h, 8);
  }

  lemma FieldsGiveHeader(h: Header, f: map<string, Value>)
    requires f == FieldsOf(HeaderMembers(h))
    ensures HeaderFromFields(f) == Ok(h)
  {
    HeaderFields(h, f);
    HexRoundTrip(h.messageId);
    HexRoundTrip(h.senderId);
    HexRoundTrip(h.recipientId);
    assert ParseType(h.messageType.AsStr()) == Some(h.messageType);
    FieldsRead(h, f);
  }

  lemma FieldsRead(h: Header, f: map<string, Value>)
    requires GetBelow(f, "v", U8_LIMIT) == Ok(h.version)
    requires GetStr(f, "type").Ok? && ParseType(GetStr(f, "type").value) == Some(h.messageType)
    requires GetHex(f, "msg_id", 16) == Ok(h.messageId)
    requires GetHex(f, "sender", 32) == Ok(h.senderId)
    requires GetHex(f, "recipient", 32) == Ok(h.recipientId)
    requires GetBelow(f, "total", U32_LIMIT) == Ok(h.totalChunks)
    requires GetBelow(f, "chunk", U32_LIMIT) == Ok(h.chunkNumber)
    requires GetU64(f, "ts") == Ok(h.timestamp)
    requires GetBelow(f, "ttl", U32_LIMIT) == Ok(h.ttl)
    ensures HeaderFromFields(f) == Ok(h)
  {
  }

  lemma HeaderRoundTrip(parse: Parser, h: Header)
    requires ReadsBack(parse)
    ensures HeaderFromBytes(parse, HeaderToBytes(h)) == Ok(h)
  {
    HeaderMembersPrintable(h);
    HeaderNamesDistinct(h);
    FieldsGiveHeader(h, FieldsOf(HeaderMembers(h)));
  }

  /** Different headers have different bytes. */
  lemma HeaderBytesInjective(h: Header, h': Header)
    requires HeaderToBytes(h) == HeaderToBytes(h')
    ensures h == h'
  {
    ParseFlatReadsBack();
    HeaderRoundTrip(ParseFlat, h);
    HeaderRoundTrip(ParseFlat, h');
  }

  /** The length of every header has the same bound, so that the two-byte prefix
      can always hold it. */
  lemma HeaderLength(h: Header)
    ensures |HeaderToBytes(h)| <= MAX_HEADER_LEN
  {
    FieldsLength(h);
    MembersLength(HeaderMembers(h));
  }

  function FieldBound(i: nat): nat
    requires i < 9
  {
    [7, 18, 43, 75, 78, 18, 18, 25, 16][i]
  }

  function BoundFrom(i: nat): nat
    requires i <= 9
    decreases 9 - i
  {
    if i == 9 then 0 else FieldBound(i) + BoundFrom(i + 1)
  }

  lemma AllBounds()
    ensures BoundFrom(0) == 298
  {
    assert BoundFrom(5) == 77;
  }

  lemma FieldsLength(h: Header)
    ensures |HeaderMembers(h)| == 9
    ensures forall i :: 0 <= i < 9 ==> |PrintMember(HeaderMembers(h)[i])| <= FieldBound(i)
  {
    StringsLength(h);
    NumbersLength(h);
  }

  lemma StringsLength(h: Header)
    ensures forall i :: 1 <= i < 5 ==> |PrintMember(HeaderMembers(h)[i])| <= FieldBound(i)
  {
    TypeLength(h.messageType);
    StrLength("msg_id", HexOf(h.messageId), 32);
    StrLength("sender", HexOf(h.senderId), 64);
    StrLength("recipient", HexOf(h.recipientId), 64);
  }

  lemma NumbersLength(h: Header)
    ensures |PrintMember(HeaderMembers(h)[0])| <= FieldBound(0)
    ensures forall i :: 5 <= i < 9 ==> |PrintMember(HeaderMembers(h)[i])| <= FieldBound(i)
  {
    Widths();
    NumLength("v", h.version, 3, 1000);
    NumLength("total", h.totalChunks, 10, 10_000_000_000);
    NumLength("chunk", h.chunkNumber, 10, 10_000_000_000);
    NumLength("ts", h.timestamp, 20, 100_000_000_000_000_000_000);
    NumLength("ttl", h.ttl, 10, 10_000_000_000);
  }

  lemma TypeLength(t: MessageType)
    ensures |PrintMember(("type", Str(t.AsStr())))| <= 18
  {
  }

  lemma NumLength(name: string, n: nat, digits: nat, limit: nat)
    requires digits >= 1 && limit == Pow10(digits) && n < limit
    ensures |PrintMember((name, Num(n)))| <= |name| + 3 + digits
  {
    DecimalLength(n, digits, limit);
  }

  lemma StrLength(name: string, s: string, len: nat)
    requires |s| <= len
    ensures |PrintMember((name, Str(s)))| <= |name| + 5 + len
  {
  }

  lemma MembersLength(ms: Members)
    requires |ms| == 9 && forall j :: 0 <= j < 9 ==> |PrintMember(ms[j])| <= FieldBound(j)
    ensures |PrintMembers(ms)| <= 306
  {
    AllBounds();
    MembersLengthFrom(ms, 0);
    assert ms[0..] == ms;
  }

  /** The members from the `i`th on and the commas between them. */
  lemma {:induction false} MembersLengthFrom(ms: Members, i: nat)
    requires |ms| == 9 && i < 9
    requires forall j :: 0 <= j < 9 ==> |PrintMember(ms[j])| <= FieldBound(j)
    ensures |PrintMembers(ms[i..])| <= BoundFrom(i) + 8 - i
    decreases 9 - i
  {
    assert |PrintMember(ms[i])| <= FieldBound(i);
    if i < 8 {
      MembersLengthFrom(ms, i + 1);
      assert ms[i..][1..] == ms[i + 1..];
    }
  }

  /** Exactly 32 bytes: cut off, or filled up with zeros. */
  function PadSignature(sig: Bytes): (r: Bytes)
    ensures |r| == SIGNATURE_LEN
    ensures |sig| >= SIGNATURE_LEN ==> r == sig[..SIGNATURE_LEN]
    ensures |sig| < SIGNATURE_LEN ==> sig <= r && forall i :: |sig| <= i < SIGNATURE_LEN ==> r[i] == '\0'
  {
    if |sig| >= SIGNATURE_LEN then sig[..SIGNATURE_LEN]
    else sig + (ZEROS16 + ZEROS16)[|sig|..]
  }

  function ToBytes(m: Message): Bytes {
    HeaderLength(m.header);
    var header := HeaderToBytes(m.header);
    BigEndian(|header|, 2) + header + m.payload + PadSignature(m.signature)
  }

  function FromBytes(parse: Parser, data: Bytes): Result<Message, Error> {
    if |data| < MIN_MESSAGE_LEN then Err(TooShort)
    else
      var headerLen := FromBigEndian(data[..2]);
      if |data| < HEADER_LEN_PREFIX + headerLen + SIGNATURE_LEN then Err(Incomplete(headerLen))
      else
        var headerEnd, payloadEnd := HEADER_LEN_PREFIX + headerLen, |data| - SIGNATURE_LEN;
        match HeaderFromBytes(parse, data[2..headerEnd])
        case Err(e) => Err(e)
        case Ok(header) => Ok(Message(header, data[headerEnd..payloadEnd], data[payloadEnd..]))
  }

  lemma Slices(a: Bytes, b: Bytes, c: Bytes, d: Bytes)
    ensures var s := a + b + c + d;
            && s[..|a|] == a
            && s[|a|..|a| + |b|] == b
            && s[|a| + |b|..|s| - |d|] == c
            && s[|s| - |d|..] == d
  {
  }

  lemma ParsesFrame(parse: Parser, header: Bytes, h: Header, payload: Bytes, sig: Bytes)
    requires |header| < U16_LIMIT && |sig| == SIGNATURE_LEN && HeaderFromBytes(parse, header) == Ok(h)
    ensures FromBytes(parse, BigEndian(|header|, 2) + header + payload + sig) == Ok(Message(h, payload, sig))
  {
    Widths();
    BigEndianRoundTrip(|header|, 2);
    Slices(BigEndian(|header|, 2), header, payload, sig);
  }

  /** Framing and parsing: every field comes back, and the signature slot comes
      back as exactly 32 bytes. */
  lemma FrameRoundTrip(parse: Parser, m: Message)
    requires ReadsBack(parse)
    ensures FromBytes(parse, ToBytes(m)) == Ok(m.(signature := PadSignature(m.signature)))
  {
    HeaderLength(m.header);
    HeaderRoundTrip(parse, m.header);
    ParsesFrame(parse, HeaderToBytes(m.header), m.header, m.payload, PadSignature(m.signature));
  }

  /** The round trip is the identity exactly for messages whose signature slot is
      32 bytes long. */
  lemma FrameIdentity(parse: Parser, m: Message)
    requires ReadsBack(parse)
    ensures FromBytes(parse, ToBytes(m)) == Ok(m) <==> |m.signature| == SIGNATURE_LEN
  {
    FrameRoundTrip(parse, m);
    var sig := PadSignature(m.signature);
    assert |m.signature| == SIGNATURE_LEN ==> sig == m.signature;
    assert m.(signature := sig).signature == sig;
  }
}
