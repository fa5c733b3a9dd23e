/**
 The hypotheses of the delivery theorems can be met by a receiver that has pinned the
 sender, with the rotation chain off and on.
 */
module ContactWitness {
  import opened Prelude
  import opened MemoryDns
  import opened Delivery
  import opened Admission
  import opened Send
  import opened EndToEnd
  import opened SendCut
  import opened Witness
  import Journey
  import Envelope
  import Pool = PrekeyPool
  import RC = RotationChain

  /** The same call by a client that has pinned the sender. */
  function Pinning(poll: Poll): Poll {
    poll.(contacts := [CONTACT])
  }

  lemma ContactIsKnown(a: Account, poll: Poll, st: Stores)
    requires Calm(poll)
    ensures ForInbox(a, Pinning(poll), KEY) && LetIn(a, Pinning(poll), st, KEY)
  {
    assert CONTACT in Pinning(poll).contacts;
    assert !RC.Unreadable(poll.reader, poll.verifier, CONTACT);
    assert !RC.RevokedFor(poll.reader, poll.verifier, CONTACT, KEY);
  }

  lemma SameZones(a: Account, poll: Poll)
    requires Calm(poll) && a.domain == "a"
    ensures Zones(a.domain, Pinning(poll).contacts) == Zones(a.domain, poll.contacts)
  {
    assert [CONTACT][..0] == [];
  }

  /** What was just sent was just sent to a client that keeps the chain switch either way. */
  lemma SentToo(d: Dispatch, a: Account, plaintext: Bytes, pool: Pool.State, poll: Poll, chain: bool)
    requires JustSent(d, a, DRAW, plaintext, pool, poll) && d.sender.Spk() == KEY
    requires LetIn(a.(rotationChainEnabled := chain), Pinning(poll), NEW_STORES.(pool := pool), KEY)
    ensures JustSent(d, a.(rotationChainEnabled := chain), DRAW, plaintext, pool, Pinning(poll))
  {
    LooksUpToo(a, d.sender, pool, chain);
  }

  lemma LooksUpToo(a: Account, s: Sender, pool: Pool.State, chain: bool)
    requires LookedUp(a, s, CONTACT, DRAW, pool, CodecOf(a))
    ensures LookedUp(a.(rotationChainEnabled := chain), s, CONTACT, DRAW, pool,
                     CodecOf(a.(rotationChainEnabled := chain)))
  {
  }

  lemma ReachesToo(d: Dispatch, a: Account, poll: Poll, chain: bool)
    requires Reaches(d, a, poll.reader, poll.now)
    ensures Reaches(d, a.(rotationChainEnabled := chain), poll.reader, poll.now)
  {
  }

  /** The hypotheses of `SentIsReceived` can be met with a pinned sender, whose messages
      are then for the inbox. */
  lemma JourneyToContact(plaintext: Bytes, now: u64, chain: bool) returns (d: Dispatch, a: Account, poll: Poll)
    requires |plaintext| <= MAX_PLAINTEXT && !(Envelope.PREFIX <= plaintext) && now < 300
    ensures Journey.OnItsWay(d, CONTACT, plaintext, DRAW, a, CodecOf(a), Receiver(NO_PREKEYS), [], poll)
    ensures poll.now == now && Reaches(d, a, poll.reader, poll.now)
    ensures exists zone :: zone in Zones(a.domain, poll.contacts) && SameZone(zone, d.sender)
    ensures a.rotationChainEnabled == chain && poll.contacts == [CONTACT] && CONTACT.spk == d.sender.Spk()
    ensures ForInbox(a, poll, d.sender.Spk())
  {
    d, a, poll := PinnedJustSent(plaintext, now, chain);
    JustSentIsOnItsWay(d, a, DRAW, plaintext, NO_PREKEYS, poll);
  }

  lemma PinnedJustSent(plaintext: Bytes, now: u64, chain: bool) returns (d: Dispatch, a: Account, poll: Poll)
    requires |plaintext| <= MAX_PLAINTEXT && !(Envelope.PREFIX <= plaintext) && now < 300
    ensures JustSent(d, a, DRAW, plaintext, NO_PREKEYS, poll)
    ensures poll.now == now && Reaches(d, a, poll.reader, poll.now)
    ensures exists zone :: zone in Zones(a.domain, poll.contacts) && SameZone(zone, d.sender)
    ensures a.rotationChainEnabled == chain && poll.contacts == [CONTACT] && CONTACT.spk == d.sender.Spk()
    ensures ForInbox(a, poll, d.sender.Spk())
  {
    var a0, poll0;
    d, a0, poll0 := JustSentPlainly(plaintext, now);
    a, poll := PinnedToo(d, a0, plaintext, poll0, chain);
  }

  lemma PinnedToo(d: Dispatch, a0: Account, plaintext: Bytes, poll0: Poll, chain: bool) returns (a: Account, poll: Poll)
    requires JustSent(d, a0, DRAW, plaintext, NO_PREKEYS, poll0) && Reaches(d, a0, poll0.reader, poll0.now)
    requires Calm(poll0) && a0.domain == "a" && d.sender.Spk() == KEY
    requires exists zone :: zone in Zones(a0.domain, poll0.contacts) && SameZone(zone, d.sender)
    ensures JustSent(d, a, DRAW, plaintext, NO_PREKEYS, poll) && Reaches(d, a, poll.reader, poll.now)
    ensures exists zone :: zone in Zones(a.domain, poll.contacts) && SameZone(zone, d.sender)
    ensures a.rotationChainEnabled == chain && poll.contacts == [CONTACT] && poll.now == poll0.now
    ensures ForInbox(a, poll, KEY)
  {
    a, poll := a0.(rotationChainEnabled := chain), Pinning(poll0);
    ContactIsKnown(a, poll0, NEW_STORES.(pool := NO_PREKEYS));
    SentToo(d, a0, plaintext, NO_PREKEYS, poll0, chain);
    ReachesToo(d, a0, poll0, chain);
    SameZones(a0, poll0);
  }
}
