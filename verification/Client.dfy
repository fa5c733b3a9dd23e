/**
 The receiving client: its stores as objects, and the two receive paths as the
 loops the program runs. Each path is proved to do exactly what `Delivery`
 describes.
 */
module Client {
  import opened Prelude
  import opened DnsReader
  import opened Library
  import opened SlotManifest
  import opened Addressing
  import opened Delivery
  import Message
  import Envelope
  import Admission
  import RC = RotationChain
  import R = ReplayCache
  import Pool = PrekeyPool
  import Q = IntroQueue
  import MemoryDns

  class Client {
    const account: Account
    const replayCache: R.ReplayCache
    const publisher: Pool.PrekeyPublisher
    const introQueue: Q.IntroQueue

    ghost function Current(): Stores
      reads replayCache, publisher, publisher.store, publisher.dns, introQueue
    {
      Stores(replayCache.rows, publisher.Current(), introQueue.Contents())
    }

    /** The stores are sound. */
    ghost predicate Valid()
      reads publisher, publisher.store, publisher.dns, introQueue
    {
      && introQueue.Valid()
      && MemoryDns.WellFormed(publisher.dns.records)
      && publisher.name == account.poolName
    }

    constructor (account: Account, replayCache: R.ReplayCache, publisher: Pool.PrekeyPublisher,
                 introQueue: Q.IntroQueue)
      requires introQueue.Valid() && MemoryDns.WellFormed(publisher.dns.records)
      requires publisher.name == account.poolName
      ensures Valid()
      ensures this.account == account && this.replayCache == replayCache
      ensures this.publisher == publisher && this.introQueue == introQueue
    {
      this.account := account;
      this.replayCache := replayCache;
      this.publisher := publisher;
      this.introQueue := introQueue;
    }

    method GatherShares(reader: Reader, key: string, zone: string, n: nat, k: nat) returns (shares: map<nat, Bytes>)
      ensures shares == Gather(ChunksAt(account.lib, reader, key, zone), 0, n, k, map[])
    {
      shares := map[];
      ghost var chunks := ChunksAt(account.lib, reader, key, zone);
      for i := 0 to n
        invariant Gather(chunks, 0, n, k, map[]) == Gather(chunks, i, n, k, shares)
      {
        if |shares| >= k {
          break;
        }
        var answer := reader(ChunkDomain(key, i, zone));
        if !answer.Records? {
          continue;
        }
        var block := ReadBlock(answer.txts);
        if block.Some? {
          shares := shares[i := block.value];
        }
      }
    }

    method ReadBlock(records: seq<string>) returns (block: Option<Bytes>)
      ensures block == FirstBlock(account.lib, records)
    {
      for t := 0 to |records|
        invariant FirstBlock(account.lib, records) == FirstBlock(account.lib, records[t..])
      {
        assert records[t..][0] == records[t] && records[t..][1..] == records[t + 1..];
        var wire := ParseChunkTxt(account.lib, records[t]);
        if wire.None? {
          continue;
        }
        block := account.lib.unwrap(wire.value);
        if block.Some? {
          return;
        }
      }
      block := None;
    }

    /** The chunks of a manifest, from the zone it was found in, to a message. */
    method FetchAndDecrypt(reader: Reader, m: Manifest, zone: string, now: u64) returns (msg: Option<InboxMessage>)
      ensures msg == Decoded(account, reader, publisher.store.rows, m, zone, now)
    {
      var key := MsgKey(account.lib, m.msgId, m.recipientId, m.spk);
      var shares := GatherShares(reader, key, zone, m.totalChunks, m.dataChunks);
      if |shares| < m.dataChunks {
        return None;
      }
      var assembled := account.lib.assemble(shares, m.dataChunks, m.totalChunks);
      if assembled.None? {
        return None;
      }
      var frame := OpenFrame(m, assembled.value, now);
      if frame.None? {
        return None;
      }
      var (header, raw) := frame.value;
      var (plaintext, claim) := Envelope.Decode(account.lib.json, raw);
      var senderLabel := ResolveLabel(account.lib, reader, claim, m.spk);
      return Some(InboxMessage(m.spk, plaintext, header.timestamp, header.messageId, senderLabel));
    }

    method OpenFrame(m: Manifest, assembled: Bytes, now: u64) returns (r: Option<(Message.Header, Bytes)>)
      ensures r == Opened(account, publisher.store.rows, m, assembled, now)
    {
      var parsed := Message.FromBytes(account.lib.json, assembled);
      if parsed.Err? || |parsed.value.payload| < MIN_ENCRYPTED {
        return None;
      }
      var outer := parsed.value;
      if outer.header.messageId != m.msgId || outer.header.recipientId != m.recipientId {
        return None;
      }
      if Message.HeaderExpired(outer.header, now) {
        return None;
      }
      var aad := Aad(outer.header, m.prekeyId);
      var raw;
      if m.prekeyId == NO_PREKEY {
        raw := account.lib.open(account.seed, outer.payload, aad);
      } else {
        var row := publisher.store.GetPrivateKey(m.prekeyId, now);
        if row.None? {
          return None;
        }
        raw := account.lib.open(row.value.secret, outer.payload, aad);
      }
      return if raw.None? then None else Some((outer.header, raw.value));
    }

    /** Whether and where a sender's messages are let in. */
    method CheckSender(poll: Poll, spk: Key32) returns (verdict: Verdict)
      ensures verdict == Gate(account, poll, introQueue.denied, spk)
      ensures verdict.ToInbox? <==> Admission.ForInbox(account, poll, spk)
      ensures verdict.ToQueue? <==> Admission.ForQueue(account, poll, introQueue.denied, spk)
      ensures verdict.Unanswered? <==> Admission.Checked(account, poll, spk) && Admission.Stuck(poll, spk)
    {
      Admission.VerdictIff(account, poll, introQueue.denied, spk);
      var pinned := exists i :: 0 <= i < |poll.contacts| && poll.contacts[i].spk == spk;
      var tofu := poll.contacts == [];
      var rotationAccepted := false;
      if !pinned && !tofu && account.rotationChainEnabled {
        rotationAccepted := RC.RotationManifestAccepted(poll.reader, poll.verifier, poll.contacts, spk);
      }
      var quarantine := !tofu && !pinned && !rotationAccepted;
      if quarantine {
        var blocked := introQueue.IsBlocked(spk);
        if blocked {
          return Drop;
        }
      }
      if pinned && account.rotationChainEnabled {
        var revoked := RC.RotationManifestRevoked(poll.reader, poll.verifier, poll.contacts, spk);
        if revoked.None? {
          return Unanswered;
        }
        if revoked.value {
          return Drop;
        }
      }
      return if quarantine then ToQueue else ToInbox;
    }

    /** Record, consume, route; the message is already decrypted. */
    method Accept(poll: Poll, m: Manifest, msg: InboxMessage, quarantine: bool) returns (ghost event: Event)
      requires Valid()
      modifies replayCache, publisher.store`rows, publisher.dns, introQueue
      ensures Valid()
      ensures (Current(), event) == Commit(account, poll, old(Current()), m, msg, quarantine)
    {
      event := Commit(account, poll, Current(), m, msg, quarantine).1;
      replayCache.Record(R.Pair(m.spk, m.msgId), Some(m.exp), poll.now);
      if m.prekeyId != NO_PREKEY {
        publisher.ConsumePrekeyWithDns(m.prekeyId, poll.deletes(m.prekeyId));
      }
      if quarantine {
        var _ := introQueue.Enqueue(IntroOf(m, msg, poll.now));
      }
    }

    method SettleItem(poll: Poll, m: Manifest, decoded: Option<InboxMessage>, quarantine: bool)
      returns (r: Option<seq<InboxMessage>>, ghost outcome: Outcome)
      requires Valid()
      modifies replayCache, publisher.store`rows, publisher.dns, introQueue
      ensures Valid()
      ensures (Current(), outcome) == Settle(account, poll, old(Current()), m, decoded, quarantine)
      ensures r == Returned(outcome)
    {
      if decoded.None? {
        return Some([]), Skipped;
      }
      ghost var event := Accept(poll, m, decoded.value, quarantine);
      return Some(if quarantine then [] else [decoded.value]), Surfaced(event);
    }

    /** Fetch, decrypt and accept what was located. None is a failed read. */
    method FetchItem(poll: Poll, target: Target, quarantine: bool)
      returns (r: Option<seq<InboxMessage>>, ghost outcome: Outcome)
      requires Valid()
      modifies replayCache, publisher.store`rows, publisher.dns, introQueue
      ensures Valid()
      ensures (Current(), outcome) == Fetch(account, poll, old(Current()), target, quarantine)
      ensures r == Returned(outcome)
    {
      match target {
        case Unavailable => return None, Aborted;
        case Missing => return Some([]), Skipped;
        case Located(m, zone) =>
          var decoded := FetchAndDecrypt(poll.reader, m, zone, poll.now);
          r, outcome := SettleItem(poll, m, decoded, quarantine);
      }
    }

    /** One record of either path. None is a read that failed. */
    method ReceiveItem(poll: Poll, item: Item) returns (r: Option<seq<InboxMessage>>, ghost outcome: Outcome)
      requires Valid()
      modifies replayCache, publisher.store`rows, publisher.dns, introQueue
      ensures Valid()
      ensures (Current(), outcome) == Step(account, poll, old(Current()), item)
      ensures r == Returned(outcome)
    {
      if item.Unreadable? {
        return None, Aborted;
      }
      var pair := Announces(account, poll.now, item);
      if pair.None? {
        return Some([]), Skipped;
      }
      var verdict := CheckSender(poll, pair.value.spk);
      if verdict.Unanswered? {
        return None, Aborted;
      }
      if verdict.Drop? {
        return Some([]), Skipped;
      }
      ghost var before := Current();
      var seen := replayCache.HasSeen(pair.value, poll.now);
      assert Current() == before.(seen := R.Purged(before.seen, poll.now));
      if seen {
        return Some([]), Skipped;
      }
      var target := Locate(account, poll, item, pair.value);
      r, outcome := FetchItem(poll, target, verdict.ToQueue?);
    }

    /** All records of one name, in order. */
    method ReceiveItems(poll: Poll, items: seq<Item>) returns (r: Option<seq<InboxMessage>>, ghost events: seq<Event>)
      requires Valid()
      modifies replayCache, publisher.store`rows, publisher.dns, introQueue
      ensures Valid()
      ensures Pass(Current(), events, r.None?) == Process(account, poll, old(Current()), items)
      ensures r.Some? ==> r.value == Inboxed(events)
    {
      var results: seq<InboxMessage> := [];
      events := [];
      ghost var start := Current();
      for i := 0 to |items|
        invariant Valid()
        invariant Pass(Current(), events, false) == Process(account, poll, start, items[..i])
        invariant results == Inboxed(events)
      {
        ghost var before := Current();
        var got;
        ghost var outcome;
        got, outcome := ReceiveItem(poll, items[i]);
        StepIsPass(account, poll, before, items[i]);
        PassGrows(account, poll, start, items, i, before, events, Pass(Current(), EventsOf(outcome), outcome.Aborted?));
        ReturnedIsInboxed(outcome);
        ghost var more := EventsOf(outcome);
        InboxedAppends(events, more);
        events := events + more;
        if got.None? {
          AbortStays(account, poll, start, items[..i + 1], items);
          return None, events;
        }
        results := results + got.value;
      }
      assert items[..|items|] == items;
      return Some(results), events;
    }

    method ZonesToPoll(contacts: seq<RC.Contact>) returns (zones: seq<string>)
      ensures zones == Zones(account.domain, contacts)
    {
      zones := [account.domain];
      var seen := {account.domain};
      for i := 0 to |contacts|
        invariant zones == Zones(account.domain, contacts[..i])
        invariant seen == Elements(zones)
      {
        assert contacts[..i + 1][..i] == contacts[..i];
        var zone := contacts[i].domain;
        if zone == "" {
          continue;
        }
        if zone !in seen {
          seen := seen + {zone};
          zones := zones + [zone];
        }
      }
      assert contacts[..|contacts|] == contacts;
    }

    /** Poll every slot of every zone. */
    method ReceiveMessages(poll: Poll) returns (r: Option<seq<InboxMessage>>, ghost events: seq<Event>)
      requires Valid()
      modifies replayCache, publisher.store`rows, publisher.dns, introQueue
      ensures Valid()
      ensures Pass(Current(), events, r.None?)
           == Process(account, poll, old(Current()),
                      MailboxItems(account, poll.reader, Zones(account.domain, poll.contacts)))
      ensures r.Some? ==> r.value == Inboxed(events)
    {
      var zones := ZonesToPoll(poll.contacts);
      var results: seq<InboxMessage> := [];
      events := [];
      ghost var start := Current();
      for z := 0 to |zones|
        invariant Valid()
        invariant Pass(Current(), events, false)
          == Process(account, poll, start, MailboxItems(account, poll.reader, zones[..z]))
        invariant results == Inboxed(events)
      {
        ghost var before := Current();
        var got, more := ReceiveZone(poll, zones[z]);
        MailboxPassGrows(account, poll, start, zones, z, before, events, Pass(Current(), more, got.None?));
        InboxedAppends(events, more);
        events := events + more;
        if got.None? {
          return None, events;
        }
        results := results + got.value;
      }
      assert zones[..|zones|] == zones;
      return Some(results), events;
    }

    method ReceiveZone(poll: Poll, zone: string) returns (r: Option<seq<InboxMessage>>, ghost events: seq<Event>)
      requires Valid()
      modifies replayCache, publisher.store`rows, publisher.dns, introQueue
      ensures Valid()
      ensures Pass(Current(), events, r.None?)
           == Process(account, poll, old(Current()), ZoneItems(account, poll.reader, zone, SLOT_COUNT))
      ensures r.Some? ==> r.value == Inboxed(events)
    {
      var results: seq<InboxMessage> := [];
      events := [];
      ghost var start := Current();
      for slot := 0 to SLOT_COUNT
        invariant Valid()
        invariant Pass(Current(), events, false)
          == Process(account, poll, start, ZoneItems(account, poll.reader, zone, slot))
        invariant results == Inboxed(events)
      {
        ghost var done := ZoneItems(account, poll.reader, zone, slot);
        ZoneGrows(account, poll.reader, zone, slot + 1, SLOT_COUNT);
        var got, more := ReceiveItems(poll, SlotItems(account, poll.reader, zone, slot));
        ProcessAppends(account, poll, start, done, SlotItems(account, poll.reader, zone, slot));
        InboxedAppends(events, more);
        events := events + more;
        if got.None? {
          AbortStays(account, poll, start, ZoneItems(account, poll.reader, zone, slot + 1),
                     ZoneItems(account, poll.reader, zone, SLOT_COUNT));
          return None, events;
        }
        results := results + got.value;
      }
      return Some(results), events;
    }

    /** Poll every claim slot of one provider. The provider must be named. */
    method ReceiveViaClaim(poll: Poll, provider: string)
      returns (r: Option<seq<InboxMessage>>, ghost events: seq<Event>)
      requires Valid()
      modifies replayCache, publisher.store`rows, publisher.dns, introQueue
      ensures Valid()
      ensures provider == "" ==> r == None && events == [] && Current() == old(Current())
      ensures provider != "" ==>
                Pass(Current(), events, r.None?)
                  == Process(account, poll, old(Current()), ProviderItems(account, poll.reader, provider, SLOT_COUNT))
      ensures r.Some? ==> r.value == Inboxed(events)
    {
      if provider == "" {
        return None, [];
      }
      var delivered: seq<InboxMessage> := [];
      events := [];
      ghost var start := Current();
      for slot := 0 to SLOT_COUNT
        invariant Valid()
        invariant Pass(Current(), events, false)
          == Process(account, poll, start, ProviderItems(account, poll.reader, provider, slot))
        invariant delivered == Inboxed(events)
      {
        ghost var done := ProviderItems(account, poll.reader, provider, slot);
        ProviderGrows(account, poll.reader, provider, slot + 1, SLOT_COUNT);
        var got, more := ReceiveItems(poll, ClaimItems(account, poll.reader, provider, slot));
        ProcessAppends(account, poll, start, done, ClaimItems(account, poll.reader, provider, slot));
        InboxedAppends(events, more);
        events := events + more;
        if got.None? {
          AbortStays(account, poll, start, ProviderItems(account, poll.reader, provider, slot + 1),
                     ProviderItems(account, poll.reader, provider, SLOT_COUNT));
          return None, events;
        }
        delivered := delivered + got.value;
      }
      return Some(delivered), events;
    }
  }

  /** What one record contributes to the result of the call. */
  function Returned(outcome: Outcome): Option<seq<InboxMessage>> {
    match outcome
    case Aborted => None
    case Skipped => Some([])
    case Surfaced(event) => Some(if event.route.Inbox? then [event.message] else [])
  }

  lemma ReturnedIsInboxed(outcome: Outcome)
    ensures !outcome.Aborted? ==> Returned(outcome) == Some(Inboxed(EventsOf(outcome)))
  {
    if outcome.Surfaced? {
      var alone := if outcome.event.route.Inbox? then [outcome.event.message] else [];
      assert [outcome.event][1..] == [];
      assert Inboxed([outcome.event]) == alone + [] == alone;
    }
  }

  /** One more zone. */
  lemma MailboxPassGrows(a: Account, poll: Poll, start: Stores, zones: seq<string>, z: nat, current: Stores,
                         events: seq<Event>, second: Pass)
    requires z < |zones|
    requires Pass(current, events, false) == Process(a, poll, start, MailboxItems(a, poll.reader, zones[..z]))
    requires second == Process(a, poll, current, ZoneItems(a, poll.reader, zones[z], SLOT_COUNT))
    ensures var all := Pass(second.stores, events + second.events, second.aborted);
      && Process(a, poll, start, MailboxItems(a, poll.reader, zones[..z + 1])) == all
      && (second.aborted ==> Process(a, poll, start, MailboxItems(a, poll.reader, zones)) == all)
  {
    var done, more := MailboxItems(a, poll.reader, zones[..z]), ZoneItems(a, poll.reader, zones[z], SLOT_COUNT);
    assert zones[..z + 1][..z] == zones[..z] && Last(zones[..z + 1]) == zones[z];
    assert MailboxItems(a, poll.reader, zones[..z + 1]) == done + more;
    PassAppends(a, poll, start, done, more, current, events, second);
    MailboxGrows(a, poll.reader, zones, z + 1);
    if second.aborted {
      AbortStays(a, poll, start, done + more, MailboxItems(a, poll.reader, zones));
    }
  }
}
