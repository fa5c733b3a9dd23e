/**
 The version-2 plaintext envelope: a magic prefix, a one-line JSON header with
 the sender's canonical address, a newline, and the body.
 */
module Envelope {
  import opened Prelude
  import opened Text
  import opened TextCodec
  import opened Json

  const PREFIX: Bytes := "DMPV2:"
  const MAX_HEADER_BYTES := 256
  const LOCALPART_MAX := 64
  const HOST_LABEL_MAX := 63
  const HOST_MAX := 253
  /** The longest address whose header still fits. */
  const MAX_CLAIM := 245

  predicate LocalPartOk(local: string) {
    && 0 < |local| <= LOCALPART_MAX
    && IsAsciiAlnum(local[0])
    && Last(local) != '.'
    && (forall i :: 0 <= i < |local| - 1 ==> !(local[i] == '.' && local[i + 1] == '.'))
    && (forall c :: c in local ==> IsAsciiAlnum(c) || c == '_' || c == '-' || c == '.')
  }

  predicate LabelOk(part: string) {
    && 0 < |part| <= HOST_LABEL_MAX
    && IsAsciiAlnum(part[0])
    && IsAsciiAlnum(Last(part))
    && (forall c :: c in part ==> IsAsciiAlnum(c) || c == '-')
  }

  predicate HostOk(host: string) {
    forall part :: part in Split(host, '.') ==> LabelOk(part)
  }

  function CanonicalizeAddress(addr: string): Option<string> {
    if !IsAscii(addr) then None
    else
      var trimmed := LowerAscii(Trim(addr));
      var at := Find(trimmed, '@');
      if at.None? then None
      else
        var local, hostRaw := trimmed[..at.value], trimmed[at.value + 1..];
        if '@' in hostRaw then None
        else
          var host := TrimEndDots(hostRaw);
          if local == "" || host == "" || |host| > HOST_MAX || !LocalPartOk(local) || !HostOk(host) then None
          else Some(local + "@" + host)
  }

  /** The characters of a canonical address, apart from its '@'. */
  predicate AddressChar(c: char) {
    'a' <= c <= 'z' || '0' <= c <= '9' || c == '_' || c == '-' || c == '.'
  }

  predicate AddressChars(s: string) {
    forall c :: c in s ==> AddressChar(c)
  }

  predicate IsAddress(local: string, host: string) {
    && LocalPartOk(local) && HostOk(host)
    && 0 < |host| <= HOST_MAX
    && AddressChars(local) && AddressChars(host)
  }

  /** What a canonical address looks like. */
  ghost predicate IsCanonical(c: string) {
    exists local, host :: IsAddress(local, host) && c == local + "@" + host
  }

  /** The last piece ends where the whole ends. */
  lemma {:induction false} SplitLast(s: string, c: char)
    requires s != "" && Last(s) != c
    ensures var part := Last(Split(s, c)); part != "" && Last(part) == Last(s)
  {
    var i := Find(s, c);
    if i.Some? {
      SplitLast(s[i.value + 1..], c);
    }
  }

  lemma HostChars(host: string)
    requires HostOk(host) && host != ""
    ensures forall x :: x in host ==> IsAsciiAlnum(x) || x == '-' || x == '.'
    ensures Last(host) != '.' ==> IsAsciiAlnum(Last(host))
  {
    forall x | x in host ensures IsAsciiAlnum(x) || x == '-' || x == '.' {
      if x != '.' {
        SplitCovers(host, '.', x);
        var part :| part in Split(host, '.') && x in part;
        assert LabelOk(part);
      }
    }
    if Last(host) != '.' {
      SplitLast(host, '.');
      assert LabelOk(Last(Split(host, '.')));
    }
  }

  lemma LoweredChar(s: string, c: char)
    requires c in LowerAscii(s) && (IsAsciiAlnum(c) || c == '_' || c == '-' || c == '.')
    ensures AddressChar(c)
  {
    var i :| 0 <= i < |s| && LowerAscii(s)[i] == c;
    assert c == ToLowerAscii(s[i]);
  }

  lemma LocalChars(local: string, s: string)
    requires LocalPartOk(local) && forall c :: c in local ==> c in LowerAscii(s)
    ensures AddressChars(local)
  {
    forall c | c in local ensures AddressChar(c) {
      LoweredChar(s, c);
    }
  }

  lemma HostLowered(host: string, s: string)
    requires HostOk(host) && host != "" && forall c :: c in host ==> c in LowerAscii(s)
    ensures AddressChars(host)
  {
    HostChars(host);
    forall c | c in host ensures AddressChar(c) {
      LoweredChar(s, c);
    }
  }

  lemma ResultIsCanonical(addr: string)
    requires CanonicalizeAddress(addr).Some?
    ensures IsCanonical(CanonicalizeAddress(addr).value)
  {
    var trimmed := LowerAscii(Trim(addr));
    var at := Find(trimmed, '@').value;
    var local, host := trimmed[..at], TrimEndDots(trimmed[at + 1..]);
    LocalChars(local, Trim(addr));
    HostLowered(host, Trim(addr));
    assert IsAddress(local, host);
  }

  lemma {:induction false} LowerFixed(s: string)
    requires forall c :: c in s ==> AddressChar(c) || c == '@'
    ensures LowerAscii(s) == s
  {
    forall i | 0 <= i < |s| ensures LowerAscii(s)[i] == s[i] {
      assert s[i] in s;
    }
  }

  lemma AddressIsPlain(local: string, host: string)
    requires IsAddress(local, host)
    ensures forall c :: c in local + "@" + host ==> AddressChar(c) || c == '@'
    ensures Plain(local + "@" + host) && IsAscii(local + "@" + host)
  {
  }

  lemma HostEnd(host: string)
    requires HostOk(host) && host != ""
    ensures TrimEndDots(host) == host && IsAsciiAlnum(Last(host))
  {
    assert !LabelOk("");
    if Last(host) == '.' {
      SplitEmptyLast(host, '.');
    }
    HostChars(host);
  }

  lemma AddressIsFixed(local: string, host: string)
    requires IsAddress(local, host)
    ensures CanonicalizeAddress(local + "@" + host) == Some(local + "@" + host)
  {
    var c := local + "@" + host;
    AddressIsPlain(local, host);
    HostEnd(host);
    assert c[0] == local[0] && Last(c) == Last(host);
    TrimmedStays(c);
    LowerFixed(c);
    AddressSplits(local, host);
  }

  lemma AddressSplits(local: string, host: string)
    requires AddressChars(local) && AddressChars(host)
    ensures '@' !in host
    ensures var c := local + "@" + host;
      Find(c, '@') == Some(|local|) && c[..|local|] == local && c[|local| + 1..] == host
  {
    assert local + "@" + host == local + ['@'] + host;
    assert '@' !in local && '@' !in host;
    FindFirst(local, '@', host);
  }

  lemma CanonicalizeIdempotent(addr: string)
    requires CanonicalizeAddress(addr).Some?
    ensures CanonicalizeAddress(CanonicalizeAddress(addr).value) == CanonicalizeAddress(addr)
  {
    ResultIsCanonical(addr);
    var c := CanonicalizeAddress(addr).value;
    var local, host :| IsAddress(local, host) && c == local + "@" + host;
    AddressIsFixed(local, host);
  }

  predicate AllDots(s: string) {
    forall i :: 0 <= i < |s| ==> s[i] == '.'
  }

  lemma {:induction false} DotsOff(s: string, dots: string)
    requires AllDots(dots) && (s == "" || Last(s) != '.')
    ensures TrimEndDots(s + dots) == s
    decreases |dots|
  {
    var t := s + dots;
    if dots == "" {
      assert t == s;
    } else {
      assert t[..|t| - 1] == s + dots[..|dots| - 1] && Last(t) == Last(dots);
      DotsOff(s, dots[..|dots| - 1]);
    }
  }

  /** What is left of an address before it is taken apart. */
  lemma CanonicalParts(t: string, local: string, host: string, dots: string)
    requires IsAddress(local, host) && AllDots(dots) && t == local + "@" + (host + dots)
    ensures Find(t, '@') == Some(|local|) && t[..|local|] == local && t[|local| + 1..] == host + dots
    ensures '@' !in host + dots && TrimEndDots(host + dots) == host
  {
    assert t == local + ['@'] + (host + dots);
    assert '@' !in local;
    FindFirst(local, '@', host + dots);
    HostEnd(host);
    DotsOff(host, dots);
  }

  lemma LowerCanonical(local: string, host: string, dots: string)
    requires IsAddress(local, host) && AllDots(dots)
    ensures LowerAscii(local + "@" + (host + dots)) == local + "@" + (host + dots)
  {
    LowerFixed(local + "@" + (host + dots));
  }

  /** How an accepted address was taken apart. */
  lemma TakenApart(addr: string) returns (local: string, hostRaw: string)
    requires CanonicalizeAddress(addr).Some?
    ensures LowerAscii(Trim(addr)) == local + "@" + hostRaw
    ensures LocalPartOk(local) && HostOk(TrimEndDots(hostRaw)) && 0 < |TrimEndDots(hostRaw)| <= HOST_MAX
    ensures CanonicalizeAddress(addr) == Some(local + "@" + TrimEndDots(hostRaw))
  {
    var t := LowerAscii(Trim(addr));
    var at := Find(t, '@').value;
    local, hostRaw := t[..at], t[at + 1..];
    assert t == local + [t[at]] + hostRaw;
  }

  lemma CanonicalFrom(addr: string) returns (local: string, host: string, dots: string)
    requires CanonicalizeAddress(addr).Some?
    ensures IsAddress(local, host) && AllDots(dots) && CanonicalizeAddress(addr) == Some(local + "@" + host)
    ensures LowerAscii(Trim(addr)) == local + "@" + (host + dots)
  {
    var hostRaw;
    local, hostRaw := TakenApart(addr);
    host := TrimEndDots(hostRaw);
    dots := hostRaw[|host|..];
    var t := LowerAscii(Trim(addr));
    assert hostRaw == host + dots;
    assert forall c :: c in local || c in host ==> c in t;
    LocalChars(local, Trim(addr));
    HostLowered(host, Trim(addr));
  }

  lemma CanonicalTo(addr: string, local: string, host: string, dots: string)
    requires IsAscii(addr) && IsAddress(local, host) && AllDots(dots)
    requires LowerAscii(Trim(addr)) == local + "@" + (host + dots)
    ensures CanonicalizeAddress(addr) == Some(local + "@" + host)
  {
    CanonicalParts(LowerAscii(Trim(addr)), local, host, dots);
  }

  /** The address is the canonical one up to case, with whitespace around it and dots behind
      it. */
  ghost predicate Variant(addr: string, local: string, host: string, dots: string) {
    AllDots(dots) && SameUpToCase(Trim(addr), local + "@" + (host + dots))
  }

  lemma VariantIff(addr: string, local: string, host: string, dots: string)
    requires IsAddress(local, host)
    ensures Variant(addr, local, host, dots) <==>
      AllDots(dots) && LowerAscii(Trim(addr)) == local + "@" + (host + dots)
  {
    if AllDots(dots) {
      LowerCanonical(local, host, dots);
      LowerAsciiIff(Trim(addr), local + "@" + (host + dots));
    }
  }

  /** The addresses that have a canonical form are exactly the variants of one. */
  lemma CanonicalizeIff(addr: string, c: string)
    ensures CanonicalizeAddress(addr) == Some(c) <==>
      IsAscii(addr) && exists local, host, dots ::
        IsAddress(local, host) && c == local + "@" + host && Variant(addr, local, host, dots)
  {
    if CanonicalizeAddress(addr) == Some(c) {
      var local, host, dots := CanonicalFrom(addr);
      VariantIff(addr, local, host, dots);
    }
    forall local, host, dots | IsAscii(addr) && IsAddress(local, host) && Variant(addr, local, host, dots)
      ensures CanonicalizeAddress(addr) == Some(local + "@" + host)
    {
      VariantIff(addr, local, host, dots);
      CanonicalTo(addr, local, host, dots);
    }
  }

  function HeaderOf(c: string): string {
    Print([("from", Str(c))])
  }

  lemma HeaderForm(c: string)
    requires IsCanonical(c)
    ensures |HeaderOf(c)| == 11 + |c|
    ensures Printable([("from", Str(c))])
    ensures IsAscii(HeaderOf(c)) && '\n' !in HeaderOf(c)
  {
    var local, host :| IsAddress(local, host) && c == local + "@" + host;
    AddressIsPlain(local, host);
    var ms: Members := [("from", Str(c))];
    assert Plain("from");
    PrintIsOneLine(ms);
    assert PrintMembers(ms) == PrintMember(ms[0]);
  }

  function Encode(body: Bytes, senderAddr: Option<string>): Bytes {
    if senderAddr.None? then body
    else
      var canonical := CanonicalizeAddress(senderAddr.value);
      if canonical.None? then body
      else
        ResultIsCanonical(senderAddr.value);
        HeaderForm(canonical.value);
        var header := AsBytes(HeaderOf(canonical.value));
        if |header| > MAX_HEADER_BYTES then body
        else PREFIX + header + "\n" + body
  }

  /** Where the header line ends, if the input could be an envelope at all. */
  function HeaderEnd(plaintext: Bytes): (r: Option<nat>)
    ensures r.Some? ==> |PREFIX| + r.value < |plaintext| && plaintext[|PREFIX| + r.value] == '\n'
  {
    if !(PREFIX <= plaintext) then None
    else
      var rest := plaintext[|PREFIX|..];
      Find(rest[..if MAX_HEADER_BYTES + 1 <= |rest| then MAX_HEADER_BYTES + 1 else |rest|], '\n')
  }

  function HeaderDoc(parse: Parser, plaintext: Bytes): Doc {
    if HeaderEnd(plaintext).None? then Malformed
    else parse(plaintext[|PREFIX|..|PREFIX| + HeaderEnd(plaintext).value])
  }

  function Decode(parse: Parser, plaintext: Bytes): (Bytes, Option<string>) {
    var doc := HeaderDoc(parse, plaintext);
    if !doc.Object? then (plaintext, None)
    else
      var body := plaintext[|PREFIX| + HeaderEnd(plaintext).value + 1..];
      if "from" !in doc.fields || !doc.fields["from"].Str? then (body, None)
      else (body, CanonicalizeAddress(doc.fields["from"].s))
  }

  /** The input is an envelope as far as the receiver is concerned. */
  predicate IsEnvelope(parse: Parser, plaintext: Bytes) {
    HeaderDoc(parse, plaintext).Object?
  }

  /** The first newline of the input, with its position. */
  ghost predicate FirstNewline(s: Bytes, i: nat) {
    i < |s| && s[i] == '\n' && '\n' !in s[..i]
  }

  lemma HeaderEndIsFirst(plaintext: Bytes)
    requires HeaderEnd(plaintext).Some?
    ensures FirstNewline(plaintext, |PREFIX| + HeaderEnd(plaintext).value)
  {
    var n := HeaderEnd(plaintext).value;
    var i := |PREFIX| + n;
    var rest := plaintext[|PREFIX|..];
    assert plaintext[..i] == PREFIX + rest[..n];
    var limit := if MAX_HEADER_BYTES + 1 <= |rest| then MAX_HEADER_BYTES + 1 else |rest|;
    assert rest[..limit][..n] == rest[..n];
    assert '\n' !in PREFIX;
  }

  /** The input is the prefix, one line of at most 256 bytes that reads as a JSON object, and
      the body. */
  ghost predicate ReadsAs(parse: Parser, plaintext: Bytes, header: Bytes, body: Bytes) {
    && plaintext == "DMPV2:" + header + "\n" + body
    && '\n' !in header && |header| <= 256
    && parse(header).Object?
  }

  /** What is taken for an envelope, and what is read from one. */
  lemma DecodeIff(parse: Parser, plaintext: Bytes)
    ensures IsEnvelope(parse, plaintext) <==>
      exists header: Bytes, body: Bytes :: ReadsAs(parse, plaintext, header, body)
    ensures forall header: Bytes, body: Bytes :: ReadsAs(parse, plaintext, header, body) ==>
      var fields := parse(header).fields;
      Decode(parse, plaintext)
      == (body, if "from" in fields && fields["from"].Str? then CanonicalizeAddress(fields["from"].s) else None)
    ensures !IsEnvelope(parse, plaintext) ==> Decode(parse, plaintext) == (plaintext, None)
  {
    if IsEnvelope(parse, plaintext) {
      var n := HeaderEnd(plaintext).value;
      HeaderEndIsFirst(plaintext);
      var header, body := plaintext[|PREFIX|..|PREFIX| + n], plaintext[|PREFIX| + n + 1..];
      HeaderFits(plaintext);
      assert plaintext == PREFIX + header + "\n" + body;
      assert ReadsAs(parse, plaintext, header, body);
    }
    forall header: Bytes, body: Bytes | ReadsAs(parse, plaintext, header, body)
      ensures IsEnvelope(parse, plaintext)
      ensures var fields := parse(header).fields;
        Decode(parse, plaintext)
        == (body, if "from" in fields && fields["from"].Str? then CanonicalizeAddress(fields["from"].s) else None)
    {
      FindsHeaderEnd(header, body);
      assert plaintext[|PREFIX|..|PREFIX| + |header|] == header;
      assert plaintext[|PREFIX| + |header| + 1..] == body;
    }
  }

  lemma HeaderFits(plaintext: Bytes)
    requires HeaderEnd(plaintext).Some?
    ensures HeaderEnd(plaintext).value <= MAX_HEADER_BYTES
    ensures '\n' !in plaintext[|PREFIX|..|PREFIX| + HeaderEnd(plaintext).value]
  {
    var n := HeaderEnd(plaintext).value;
    var rest := plaintext[|PREFIX|..];
    var limit := if MAX_HEADER_BYTES + 1 <= |rest| then MAX_HEADER_BYTES + 1 else |rest|;
    assert rest[..limit][..n] == rest[..n] == plaintext[|PREFIX|..|PREFIX| + n];
  }

  /** Whatever the input and whatever the JSON reader: the result is the whole
      input without a claim, or exactly what follows the first newline, with a
      canonical claim or none. */
  lemma DecodeSplits(parse: Parser, plaintext: Bytes)
    ensures var (body, claim) := Decode(parse, plaintext);
      if !IsEnvelope(parse, plaintext) then body == plaintext && claim == None
      else
        && (exists i :: FirstNewline(plaintext, i) && body == plaintext[i + 1..])
        && |body| < |plaintext|
        && (claim.Some? ==> CanonicalizeAddress(claim.value) == claim)
  {
    var (body, claim) := Decode(parse, plaintext);
    if IsEnvelope(parse, plaintext) {
      HeaderEndIsFirst(plaintext);
      assert FirstNewline(plaintext, |PREFIX| + HeaderEnd(plaintext).value);
      if claim.Some? {
        CanonicalizeIdempotent(HeaderDoc(parse, plaintext).fields["from"].s);
      }
    }
  }

  lemma FindsHeaderEnd(header: Bytes, body: Bytes)
    requires |header| <= MAX_HEADER_BYTES && '\n' !in header
    ensures HeaderEnd(PREFIX + header + "\n" + body) == Some(|header|)
  {
    var wire: Bytes := PREFIX + header + "\n" + body;
    var rest := wire[|PREFIX|..];
    assert rest == header + ['\n'] + body;
    var limit := if MAX_HEADER_BYTES + 1 <= |rest| then MAX_HEADER_BYTES + 1 else |rest|;
    var seen := body[..limit - |header| - 1];
    assert rest[..limit] == header + ['\n'] + seen;
    FindFirst(header, '\n', seen);
  }

  lemma DecodesFrom(parse: Parser, header: Bytes, body: Bytes, c: string)
    requires |header| <= MAX_HEADER_BYTES && '\n' !in header
    requires parse(header) == Object(FieldsOf([("from", Str(c))]))
    ensures Decode(parse, PREFIX + header + "\n" + body) == (body, CanonicalizeAddress(c))
  {
    FindsHeaderEnd(header, body);
    var wire: Bytes := PREFIX + header + "\n" + body;
    assert wire[|PREFIX|..|PREFIX| + |header|] == header;
    assert wire[|PREFIX| + |header| + 1..] == body;
    FieldLookup([("from", Str(c))], 0);
  }

  /** An envelope for a canonical address round-trips exactly when the address has
      at most 245 bytes; above that the sender falls back to the bare body. */
  lemma EnvelopeRoundTrip(parse: Parser, body: Bytes, addr: string)
    requires ReadsBack(parse) && CanonicalizeAddress(addr).Some?
    ensures var c := CanonicalizeAddress(addr).value;
            && (Decode(parse, Encode(body, Some(addr))) == (body, Some(c)) <==> |c| <= MAX_CLAIM)
            && (|c| > MAX_CLAIM ==> Encode(body, Some(addr)) == body)
  {
    var c := CanonicalizeAddress(addr).value;
    ResultIsCanonical(addr);
    HeaderForm(c);
    if |c| <= MAX_CLAIM {
      DecodesFrom(parse, AsBytes(HeaderOf(c)), body, c);
      CanonicalizeIdempotent(addr);
    } else {
      DecodeSplits(parse, body);
    }
  }

  lemma HeaderText(c: string)
    ensures HeaderOf(c) == "{\"from\":\"" + c + "\"}"
  {
    var ms: Members := [("from", Str(c))];
    assert PrintMembers(ms) == PrintMember(ms[0]) == Quote("from") + ":" + Quote(c);
    assert Quote("from") + ":" + "\"" == "\"from\":\"";
    Regroup("{", Quote("from") + ":", "\"", c, "\"", "}");
    assert "{" + (Quote("from") + ":") + "\"" == "{\"from\":\"" && "\"" + "}" == "\"}";
  }

  lemma Regroup(a: string, b: string, c: string, d: string, e: string, f: string)
    ensures a + (b + (c + d + e)) + f == (a + b + c) + d + (e + f)
  {
  }

  lemma Framed(a: string, b: string, c: string, d: string, e: string, f: string)
    ensures a + (b + c + d) + e + f == (a + b) + c + (d + e) + f
  {
  }

  /** An envelope as text. */
  lemma EnvelopeText(body: Bytes, addr: string)
    requires CanonicalizeAddress(addr).Some? && |CanonicalizeAddress(addr).value| <= MAX_CLAIM
    ensures Encode(body, Some(addr)) == "DMPV2:{\"from\":\"" + CanonicalizeAddress(addr).value + "\"}\n" + body
  {
    var c := CanonicalizeAddress(addr).value;
    ResultIsCanonical(addr);
    HeaderForm(c);
    HeaderText(c);
    Framed(PREFIX, "{\"from\":\"", c, "\"}", "\n", body);
    assert PREFIX + "{\"from\":\"" == "DMPV2:{\"from\":\"" && "\"}" + "\n" == "\"}\n";
  }

  /** The receiver recovers the sender's bytes exactly when they were wrapped, or
      were sent bare and do not happen to read as an envelope. */
  lemma BodySurvivesIff(parse: Parser, body: Bytes, senderAddr: Option<string>)
    requires ReadsBack(parse)
    ensures Decode(parse, Encode(body, senderAddr)).0 == body <==>
            Encode(body, senderAddr) != body || !IsEnvelope(parse, body)
  {
    DecodeSplits(parse, body);
    if senderAddr.Some? && CanonicalizeAddress(senderAddr.value).Some? {
      EnvelopeRoundTrip(parse, body, senderAddr.value);
      ResultIsCanonical(senderAddr.value);
      HeaderForm(CanonicalizeAddress(senderAddr.value).value);
    }
  }
}
