/**
 The steps of a run are what the client's methods do: each of these calls takes the
 machine of `DeliveryRuns` exactly one step.
 */
module ClientRuns {
  import opened Prelude
  import opened Delivery
  import opened DeliveryRuns
  import opened Client
  import P = Prekeys
  import Pool = PrekeyPool

  ghost function MachineOf(c: Client): Machine
    reads c.replayCache, c.publisher, c.publisher.store, c.publisher.dns, c.introQueue
  {
    Machine(c.Current(), c.publisher.store.nextBorn)
  }

  /** One record of a receive call. */
  method Receive(c: Client, poll: Poll, item: Item) returns (r: Option<seq<InboxMessage>>)
    requires c.Valid()
    modifies c.replayCache, c.publisher.store`rows, c.publisher.dns, c.introQueue
    ensures c.Valid()
    ensures MachineOf(c) == Next(c.account, c.publisher.codec, old(MachineOf(c)), Handle(poll, item)).0
    ensures r.Some? ==>
      r.value == Inboxed(Next(c.account, c.publisher.codec, old(MachineOf(c)), Handle(poll, item)).1)
  {
    ghost var before := MachineOf(c);
    ghost var outcome;
    r, outcome := c.ReceiveItem(poll, item);
    ReturnedIsInboxed(outcome);
  }

  /** A refresh, as a step: nothing at all if sixteen draws in a row were taken. */
  method Refresh(c: Client, count: u32, ttlSeconds: u64, now: u64, draws: nat -> u32, secrets: nat -> Key32,
                 writes: nat -> Pool.Write, clock: Pool.Clock)
    returns (published: Option<nat>, ghost op: Option<Op>)
    requires c.Valid() && c.publisher.Opens(now)
    modifies c.publisher.store, c.publisher.dns
    ensures c.Valid() && c.publisher.Opens(now)
    ensures op.None? ==> published == None && MachineOf(c) == old(MachineOf(c))
    ensures op.Some? ==>
      && op.value.Refresh? && |op.value.pool| == count && P.OwnSecrets(op.value.pool, secrets)
      && Legal(c.publisher.codec, old(MachineOf(c)), op.value, now)
      && MachineOf(c) == Next(c.account, c.publisher.codec, old(MachineOf(c)), op.value).0
  {
    ghost var before := MachineOf(c);
    ghost var pool;
    published, pool := c.publisher.RefreshPrekeys(count, ttlSeconds, now, draws, secrets, writes, clock);
    op := None;
    if pool.Some? {
      ghost var ttl := Pool.EffectiveTtl(ttlSeconds);
      op := Some(Op.Refresh(now, pool.value, SatAdd64(now, ttl), Pool.ClampTtl(ttl), clock, writes));
    }
  }

  /** Cleaning up all three stores. */
  method Cleanup(c: Client, now: u64)
    requires c.Valid()
    modifies c.replayCache, c.publisher.store`rows, c.introQueue`rows
    ensures c.Valid()
    ensures MachineOf(c) == Next(c.account, c.publisher.codec, old(MachineOf(c)), Op.Cleanup(now)).0
  {
    var _ := c.replayCache.CleanupExpired(now);
    var _ := c.publisher.store.CleanupExpired(now);
    var _ := c.introQueue.CleanupExpired(now);
  }

  /** Intro review as far as it changes the queue. */
  method RemoveIntro(c: Client, id: nat) returns (removed: bool)
    requires c.Valid()
    modifies c.introQueue`rows
    ensures c.Valid()
    ensures MachineOf(c) == Next(c.account, c.publisher.codec, old(MachineOf(c)), Op.RemoveIntro(id)).0
  {
    removed := c.introQueue.Reject(id);
  }

  method BlockSender(c: Client, spk: Key32, note: string, now: u64)
    requires c.Valid()
    modifies c.introQueue`denied
    ensures c.Valid()
    ensures MachineOf(c) == Next(c.account, c.publisher.codec, old(MachineOf(c)), Op.BlockSender(spk, note, now)).0
  {
    c.introQueue.BlockSender(spk, note, now);
  }

  method UnblockSender(c: Client, spk: Key32) returns (removed: bool)
    requires c.Valid()
    modifies c.introQueue`denied
    ensures c.Valid()
    ensures MachineOf(c) == Next(c.account, c.publisher.codec, old(MachineOf(c)), Op.UnblockSender(spk)).0
  {
    removed := c.introQueue.UnblockSender(spk);
  }
}
