/**
 The hypotheses of delivery by claim can be met: a provider lists one claim, and the
 claim leads to the message.
 */
module ClaimWitness {
  import opened Prelude
  import opened DnsReader
  import opened SlotManifest
  import opened Addressing
  import opened MemoryDns
  import opened Delivery
  import opened Send
  import opened SendCut
  import opened SendAmongOthers
  import opened Witness
  import Journey
  import Library
  import Toy = ToyLibrary
  import TextCodec
  import Envelope

  /** A provider's zone, which lists one claim. */
  const PROVIDER := "p"

  function Board(lib: Library.Library): Table {
    map[ClaimName(lib, KEY, 0, PROVIDER) := [Entry(Toy.CLAIM_TXT, 1000)]]
  }

  /** The claim of the toy library. */
  ghost predicate Claims(lib: Library.Library) {
    lib.claim(Toy.CLAIM_TXT) == Some(Toy.CLAIM)
  }

  lemma ToyClaims(lib: Library.Library)
    requires lib == Toy.Toy()
    ensures Claims(lib)
  {
  }

  lemma ClaimNamesDiffer(a: Account, k: nat)
    requires 0 < k < SLOT_COUNT
    ensures ClaimName(a.lib, a.UserId(), k, PROVIDER) != ClaimName(a.lib, a.UserId(), 0, PROVIDER)
  {
    assert ClaimName(a.lib, a.UserId(), k, PROVIDER)[6] == TextCodec.DigitOf(k);
    assert ClaimName(a.lib, a.UserId(), 0, PROVIDER)[6] == TextCodec.DigitOf(0);
  }

  /** The letter's writes leave claim names alone. */
  lemma ClaimsUndisturbed(d: Dispatch, a: Account, k: nat)
    requires d.sender.lib == a.lib && d.cut <= |d.Writes()|
    ensures var name := ClaimName(a.lib, a.UserId(), k, PROVIDER);
      EntriesAt(d.Table(), name) == EntriesAt(d.before, name)
  {
    var name, writes := ClaimName(a.lib, a.UserId(), k, PROVIDER), d.Writes();
    WritesAreDistinct(d.sender, d.letter);
    forall j | 0 <= j < |writes| ensures writes[j].name != name {
      NoClaimName(d, a, j, k);
    }
    WrittenEntries(d.before, writes, d.cut, d.clock, name);
  }

  lemma NoClaimName(d: Dispatch, a: Account, j: nat, k: nat)
    requires d.sender.lib == a.lib && j < |d.Writes()|
    ensures d.Writes()[j].name != ClaimName(a.lib, a.UserId(), k, PROVIDER)
  {
    WriteNames(d, j);
    ChunkNamesAreNoSlots(a.lib, d.letter.key, j, d.sender.domain, a.UserId(), k, PROVIDER);
    SlotIsNoClaim(a.lib, d.letter.manifest.recipientId, SlotForMsgId(d.letter.manifest.msgId), d.sender.domain,
                  a.UserId(), k);
  }

  lemma WriteNames(d: Dispatch, j: nat)
    requires j < |d.Writes()|
    ensures d.Writes()[j].name == if j < |d.letter.blocks| then ChunkDomain(d.letter.key, j, d.sender.domain)
                                  else SlotName(d.sender, d.letter)
  {
    assert j < |d.letter.blocks| ==> d.Writes()[j] == ChunkWrite(d.sender, d.letter, j);
  }

  lemma SlotIsNoClaim(lib: Library.Library, recipientId: Key32, slot: nat, zone: string, recipientId': Key32, k: nat)
    ensures SlotDomain(lib, recipientId, slot, zone) != ClaimName(lib, recipientId', k, PROVIDER)
  {
    assert SlotDomain(lib, recipientId, slot, zone)[0] == 's';
    assert ClaimName(lib, recipientId', k, PROVIDER)[0] == 'c';
  }

  /** The names the letter uses were free. */
  lemma BoardLeavesFree(d: Dispatch, a: Account)
    requires d.before == Board(a.lib) && d.sender.lib == a.lib && a.UserId() == KEY
    ensures ChunkNamesFree(d) && MailboxFree(d, a) && WellFormed(d.before)
  {
    forall i | 0 <= i < |d.letter.blocks|
      ensures EntriesAt(d.before, ChunkDomain(d.letter.key, i, d.sender.domain)) == []
    {
      ChunkNamesAreNoSlots(a.lib, d.letter.key, i, d.sender.domain, KEY, 0, PROVIDER);
    }
    forall slot, zone | 0 <= slot < SLOT_COUNT
      ensures EntriesAt(d.before, SlotDomain(a.lib, a.UserId(), slot, zone)) == []
    {
      SlotIsNoClaim(a.lib, a.UserId(), slot, zone, KEY, 0);
    }
  }

  /** What the provider lists in its slot `k`. */
  lemma BoardEntries(d: Dispatch, a: Account, k: nat)
    requires d.before == Board(a.lib) && d.sender.lib == a.lib && a.UserId() == KEY && d.cut <= |d.Writes()|
    requires k < SLOT_COUNT
    ensures EntriesAt(d.Table(), ClaimName(a.lib, a.UserId(), k, PROVIDER))
         == if k == 0 then [Entry(Toy.CLAIM_TXT, 1000)] else []
  {
    ClaimsUndisturbed(d, a, k);
    if k > 0 {
      ClaimNamesDiffer(a, k);
    }
  }

  lemma BoardListed(d: Dispatch, a: Account, reader: Reader, now: u64, k: nat)
    requires d.before == Board(a.lib) && d.sender.lib == a.lib && a.UserId() == KEY && d.cut <= |d.Writes()|
    requires k < SLOT_COUNT && now < 1000
    requires reader(ClaimName(a.lib, a.UserId(), k, PROVIDER))
      == Lookup(d.Table(), ClaimName(a.lib, a.UserId(), k, PROVIDER), now)
    ensures reader(ClaimName(a.lib, a.UserId(), k, PROVIDER)) == if k == 0 then Records([Toy.CLAIM_TXT]) else NoRecord
  {
    BoardEntries(d, a, k);
    ServedWhileLive([Entry(Toy.CLAIM_TXT, 1000)], Entry(Toy.CLAIM_TXT, 1000), now);
  }

  lemma ItemsListed(a: Account, reader: Reader, k: nat)
    requires reader(ClaimName(a.lib, a.UserId(), k, PROVIDER)) == if k == 0 then Records([Toy.CLAIM_TXT]) else NoRecord
    ensures ClaimItems(a, reader, PROVIDER, k) == if k == 0 then [ClaimRecord(Toy.CLAIM_TXT, 0)] else []
  {
  }

  lemma {:induction false} OneClaimOnly(a: Account, reader: Reader, n: nat, item: Item)
    requires forall k: nat :: k < n ==> ClaimItems(a, reader, PROVIDER, k) == if k == 0 then [item] else []
    ensures ProviderItems(a, reader, PROVIDER, n) == if n > 0 then [item] else []
  {
    if n > 0 {
      OneClaimOnly(a, reader, n - 1, item);
      assert ClaimItems(a, reader, PROVIDER, n - 1) == if n - 1 == 0 then [item] else [];
    }
  }

  lemma ProviderLists(d: Dispatch, a: Account, reader: Reader, now: u64)
    requires d.before == Board(a.lib) && d.sender.lib == a.lib && a.UserId() == KEY && d.cut <= |d.Writes()|
    requires now < 1000 && forall name :: reader(name) == Lookup(d.Table(), name, now)
    ensures ProviderItems(a, reader, PROVIDER, SLOT_COUNT) == [ClaimRecord(Toy.CLAIM_TXT, 0)]
    ensures TxtsAt(reader, ClaimName(a.lib, a.UserId(), 0, PROVIDER)) == [Toy.CLAIM_TXT]
  {
    var item := ClaimRecord(Toy.CLAIM_TXT, 0);
    forall k: nat | k < SLOT_COUNT ensures ClaimItems(a, reader, PROVIDER, k) == if k == 0 then [item] else [] {
      BoardListed(d, a, reader, now, k);
      ItemsListed(a, reader, k);
    }
    BoardListed(d, a, reader, now, 0);
    OneClaimOnly(a, reader, SLOT_COUNT, item);
  }

  /** The letter's slot lists its manifest and nothing else. */
  lemma SlotAlone(d: Dispatch, a: Account, reader: Reader, now: u64)
    requires d.Proper() && d.sender.lib == a.lib && Valid(d.letter.manifest)
    requires d.letter.manifest.recipientId == a.UserId()
    requires MailboxFree(d, a) && d.cut <= |d.Writes()| && d.Announced(now) && d.letter.manifest.msgId == ZEROS16
    requires var name := SlotDomain(a.lib, a.UserId(), 0, d.sender.domain); reader(name) == Lookup(d.Table(), name, now)
    ensures OnlyOurs(a, TxtsAt(reader, SlotDomain(a.lib, a.UserId(), 0, d.sender.domain)), d.letter.manifest)
  {
    var record := Sign(a.lib, d.sender.seed, d.letter.manifest).value;
    ZeroSlot();
    SlotListed(d, a, now, d.sender.domain, 0);
    assert TxtsAt(reader, SlotDomain(a.lib, a.UserId(), 0, d.sender.domain)) == [record];
    SignedManifestVerifies(a.lib, d.sender.seed, d.letter.manifest);
    OneIsOurs(a, record, d.letter.manifest);
  }

  lemma OneIsOurs(a: Account, record: string, m: Manifest)
    requires MailboxManifest(a, record) == Some(m)
    ensures OnlyOurs(a, [record], m)
  {
  }

  lemma ClaimIsFor(d: Dispatch, a: Account, now: u64)
    requires Claims(a.lib) && d.sender.domain == "a" && now < 1000
    requires d.letter.manifest.msgId == ZEROS16 && d.letter.manifest.spk == KEY
    ensures ClaimFor(d, a, now, Toy.CLAIM_TXT)
  {
    ZeroSlot();
  }

  /** The provider's one item is about the message. */
  lemma OnlyAbout(d: Dispatch, a: Account, poll: Poll)
    requires d.Proper() && WellFormed(d.before) && d.Announced(poll.now) && ChunksReach(d, a, poll.reader, poll.now)
    requires ClaimListed(d, a, poll, PROVIDER, Toy.CLAIM_TXT) && poll.now <= d.letter.manifest.exp
    requires |ProviderItems(a, poll.reader, PROVIDER, SLOT_COUNT)| == 1
    ensures AmongOthers(d, a, poll, map[], ProviderItems(a, poll.reader, PROVIDER, SLOT_COUNT))
  {
    var item := ProviderAnnounces(d, a, poll, PROVIDER, Toy.CLAIM_TXT);
    OneAbout(d, a, poll, ProviderItems(a, poll.reader, PROVIDER, SLOT_COUNT), item);
  }

  lemma OneAbout(d: Dispatch, a: Account, poll: Poll, items: seq<Item>, item: Item)
    requires |items| == 1 && item in items && About(d, a, poll, item)
    ensures AmongOthers(d, a, poll, map[], items)
  {
    assert AboutOrHarmless(d, a, poll, map[], item);
    forall i | 0 <= i < |items| ensures items[i] == item {
    }
  }

  /** What the claim path needs to know of the letter. */
  ghost predicate SentBesideBoard(d: Dispatch, a: Account) {
    && d.Proper() && Undisturbed(d, Board(a.lib), 0) && d.sender.lib == a.lib && Claims(a.lib)
    && a.UserId() == KEY && d.sender.domain == "a"
    && Valid(d.letter.manifest) && d.letter.manifest.recipientId == KEY && d.letter.manifest.exp == 300
    && d.letter.manifest.msgId == ZEROS16 && d.letter.manifest.spk == KEY
  }

  /** A call after the send, at a provider that lists the claim. */
  lemma ClaimCall(d: Dispatch, a: Account, poll: Poll)
    requires SentBesideBoard(d, a) && poll.now < 300 && d.cut <= |d.Writes()|
    requires forall name :: poll.reader(name) == Lookup(d.Table(), name, poll.now)
    ensures WellFormed(d.before) && d.Announced(poll.now) && ChunksReach(d, a, poll.reader, poll.now)
    ensures ClaimListed(d, a, poll, PROVIDER, Toy.CLAIM_TXT)
    ensures |ProviderItems(a, poll.reader, PROVIDER, SLOT_COUNT)| == 1
  {
    AllWritten(d);
    BoardLeavesFree(d, a);
    AllThere(d, Board(a.lib), 0, poll.now);
    ReachesWith(d, 0, Board(a.lib), a, poll.reader, poll.now);
    ClaimSeen(d, a, poll);
  }

  lemma ClaimSeen(d: Dispatch, a: Account, poll: Poll)
    requires d.before == Board(a.lib) && d.sender.lib == a.lib && a.UserId() == KEY && d.cut <= |d.Writes()|
    requires Claims(a.lib) && poll.now < 1000 && forall name :: poll.reader(name) == Lookup(d.Table(), name, poll.now)
    requires d.Proper() && Valid(d.letter.manifest) && d.letter.manifest.recipientId == a.UserId()
    requires d.Announced(poll.now)
    requires d.letter.manifest.msgId == ZEROS16 && d.letter.manifest.spk == KEY && d.sender.domain == "a"
    ensures ClaimListed(d, a, poll, PROVIDER, Toy.CLAIM_TXT)
    ensures |ProviderItems(a, poll.reader, PROVIDER, SLOT_COUNT)| == 1
  {
    ProviderLists(d, a, poll.reader, poll.now);
    BoardLeavesFree(d, a);
    SlotAlone(d, a, poll.reader, poll.now);
    ClaimIsFor(d, a, poll.now);
  }

  lemma ClaimedJustSent(d: Dispatch, a: Account, plaintext: Bytes, poll: Poll)
    requires Sent(d, a, DRAW, None, plaintext, Board(a.lib), 0) && !(Envelope.PREFIX <= plaintext) && poll.now < 300
    requires poll == CallWith(poll.reader, poll.now)
    ensures JustSent(d, a, DRAW, plaintext, NO_PREKEYS, poll)
  {
    AllThere(d, Board(a.lib), 0, poll.now);
    TrustsEverybody(a, poll.reader, poll.now, NEW_STORES.(pool := NO_PREKEYS), d.sender.Spk());
    LooksUpNothing(a, d.sender);
    WasJustSent(d, a, DRAW, None, plaintext, Board(a.lib), NO_PREKEYS, poll);
  }

  /** The hypotheses of `ReceivedByClaim` can be met. */
  lemma ClaimJourneyCanBeMade(plaintext: Bytes, now: u64) returns (d: Dispatch, a: Account, poll: Poll)
    requires |plaintext| <= MAX_PLAINTEXT && !(Envelope.PREFIX <= plaintext) && now < 300
    ensures Journey.OnItsWay(d, CONTACT, plaintext, DRAW, a, CodecOf(a), Receiver(NO_PREKEYS), [], poll)
    ensures poll.now == now
    ensures ChunksReach(d, a, poll.reader, poll.now) && WellFormed(d.before)
    ensures ClaimListed(d, a, poll, PROVIDER, Toy.CLAIM_TXT)
    ensures AmongOthers(d, a, poll, map[], ProviderItems(a, poll.reader, PROVIDER, SLOT_COUNT))
  {
    d, a, poll := ClaimedThere(plaintext, now);
    JustSentIsOnItsWay(d, a, DRAW, plaintext, NO_PREKEYS, poll);
    OnlyAbout(d, a, poll);
  }

  lemma ClaimedThere(plaintext: Bytes, now: u64) returns (d: Dispatch, a: Account, poll: Poll)
    requires |plaintext| <= MAX_PLAINTEXT && !(Envelope.PREFIX <= plaintext) && now < 300
    ensures JustSent(d, a, DRAW, plaintext, NO_PREKEYS, poll) && poll.now == now
    ensures d.Proper() && WellFormed(d.before) && d.Announced(now) && ChunksReach(d, a, poll.reader, now)
    ensures ClaimListed(d, a, poll, PROVIDER, Toy.CLAIM_TXT)
    ensures |ProviderItems(a, poll.reader, PROVIDER, SLOT_COUNT)| == 1
  {
    d, a, poll := ClaimedNow(plaintext, now);
    ClaimCall(d, a, poll);
  }

  lemma ClaimedNow(plaintext: Bytes, now: u64) returns (d: Dispatch, a: Account, poll: Poll)
    requires |plaintext| <= MAX_PLAINTEXT && !(Envelope.PREFIX <= plaintext) && now < 300
    ensures JustSent(d, a, DRAW, plaintext, NO_PREKEYS, poll) && poll.now == now
    ensures SentBesideBoard(d, a) && d.cut <= |d.Writes()|
    ensures forall name :: poll.reader(name) == Lookup(d.Table(), name, poll.now)
  {
    d, a := SentBeside(plaintext);
    AllWritten(d);
    poll := CallWith(TableReader(d.Table(), now), now);
    ClaimedJustSent(d, a, plaintext, poll);
  }

  lemma SentBeside(plaintext: Bytes) returns (d: Dispatch, a: Account)
    requires |plaintext| <= MAX_PLAINTEXT
    ensures Sent(d, a, DRAW, None, plaintext, Board(a.lib), 0) && Claims(a.lib)
  {
    var s := TheSender();
    DrawsNothing(s);
    ToyClaims(s.lib);
    d, a := Dispatched(s, DRAW, None, plaintext, Board(s.lib), 0);
  }
}
