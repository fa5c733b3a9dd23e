/**
 What one-time prekeys are for: the secret that opened a message is gone, and opens no
 other.
 */
module PrekeySecrets {
  import opened Prelude
  import opened Library
  import opened SlotManifest
  import opened Delivery
  import opened Admission
  import opened DeliverySteps
  import opened DeliveryRuns
  import Message
  import Envelope
  import P = Prekeys
  import Pool = PrekeyPool
  import R = ReplayCache

  function SecretsOf(op: Op): (r: seq<Key32>)
    ensures |r| == if op.Refresh? then |op.pool| else 0
    ensures forall i :: 0 <= i < |r| ==> r[i] == op.pool[i].secret
  {
    if op.Refresh? then seq(|op.pool|, i requires 0 <= i < |op.pool| => op.pool[i].secret) else []
  }

  /** The secrets generated along a run, in order. */
  function Generations(ops: seq<Op>): seq<Key32> {
    if ops == [] then [] else SecretsOf(ops[0]) + Generations(ops[1..])
  }

  ghost predicate AllDistinct(secrets: seq<Key32>) {
    forall i, j :: 0 <= i < j < |secrets| ==> secrets[i] != secrets[j]
  }

  /** Some row has the secret. */
  ghost predicate Stored(mc: Machine, secret: Key32) {
    exists id :: id in mc.stores.pool.rows && mc.stores.pool.rows[id].secret == secret
  }

  ghost predicate OneRowEach(mc: Machine) {
    var rows := mc.stores.pool.rows;
    forall x, y :: x in rows && y in rows && rows[x].secret == rows[y].secret ==> x == y
  }

  /** Secrets are drawn at random: those generated along the run differ from each other
      and from the stored ones. */
  ghost predicate NewSecrets(mc: Machine, secrets: seq<Key32>) {
    AllDistinct(secrets) && forall i :: 0 <= i < |secrets| ==> !Stored(mc, secrets[i])
  }

  /** The `i`th prekey of the pool is the one under `id`. */
  ghost predicate Generated(op: Op, id: u32, secret: Key32, i: int)
    requires op.Refresh?
  {
    0 <= i < |op.pool| && op.pool[i].prekey.id == id && op.pool[i].secret == secret
  }

  lemma GrownSecrets(mc: Machine, mc': Machine, op: Op)
    requires op.Refresh? && OneRowEach(mc) && NewSecrets(mc, SecretsOf(op))
    requires var rows, rows' := mc.stores.pool.rows, mc'.stores.pool.rows;
      && (forall id :: id in rows ==> id in rows' && rows'[id].secret == rows[id].secret)
      && (forall id :: id in rows' && id !in rows ==> exists i :: Generated(op, id, rows'[id].secret, i))
    ensures OneRowEach(mc') && forall s :: Stored(mc', s) ==> Stored(mc, s) || s in SecretsOf(op)
  {
    var rows, rows', secrets := mc.stores.pool.rows, mc'.stores.pool.rows, SecretsOf(op);
    forall id | id in rows' ensures Stored(mc, rows'[id].secret) || rows'[id].secret in secrets {
      if id !in rows {
        var i :| Generated(op, id, rows'[id].secret, i);
        assert secrets[i] == rows'[id].secret;
      }
    }
    forall x, y | x in rows' && y in rows' && rows'[x].secret == rows'[y].secret ensures x == y {
      assert x in rows ==> Stored(mc, rows'[x].secret);
      assert y in rows ==> Stored(mc, rows'[y].secret);
      assert forall i :: Generated(op, x, rows'[x].secret, i) ==> secrets[i] == rows'[x].secret;
      assert forall i :: Generated(op, y, rows'[y].secret, i) ==> secrets[i] == rows'[y].secret;
    }
  }

  lemma RefreshedSecrets(a: Account, codec: Pool.Codec, mc: Machine, op: Op)
    requires op.Refresh? && Legal(codec, mc, op, op.now) && OneRowEach(mc) && NewSecrets(mc, SecretsOf(op))
    ensures var next := Next(a, codec, mc, op).0;
      OneRowEach(next) && forall s :: Stored(next, s) ==> Stored(mc, s) || s in SecretsOf(op)
  {
    RefreshedRows(a, codec, mc, op);
    var rows, rows' := mc.stores.pool.rows, Refreshed(a, codec, mc.stores.pool, op).rows;
    forall id | id in rows' && id !in rows ensures exists i :: Generated(op, id, rows'[id].secret, i) {
      assert FromPool(mc, op, id, rows'[id]);
      var i :| 0 <= i < |op.pool| && op.pool[i].prekey.id == id && rows'[id].secret == op.pool[i].secret;
      assert Generated(op, id, rows'[id].secret, i);
    }
    GrownSecrets(mc, Next(a, codec, mc, op).0, op);
  }

  /** One step: no two rows share a secret, none appears that was not generated, and the
      secret that opens a message was stored and is not any more. */
  lemma NextSecrets(a: Account, codec: Pool.Codec, mc: Machine, op: Op, since: u64)
    requires Legal(codec, mc, op, since) && OneRowEach(mc) && NewSecrets(mc, SecretsOf(op))
    ensures var (next, events) := Next(a, codec, mc, op);
      && OneRowEach(next)
      && (forall s :: Stored(next, s) ==> Stored(mc, s) || s in SecretsOf(op))
      && |events| <= 1
      && (events != [] && events[0].opener.Some? ==>
          Stored(mc, events[0].opener.value) && !Stored(next, events[0].opener.value))
  {
    match op {
      case Handle(poll, item) =>
        SurfacedAccounted(a, poll, mc.stores, item);
        UnsurfacedLeavesNoTrace(a, poll, mc.stores, item);
      case Refresh(_, _, _, _, _, _) =>
        RefreshedSecrets(a, codec, mc, op);
      case _ =>
    }
  }

  lemma NewSecretsSplit(mc: Machine, first: seq<Key32>, rest: seq<Key32>)
    requires NewSecrets(mc, first + rest)
    ensures NewSecrets(mc, first) && NewSecrets(mc, rest)
    ensures forall s :: s in rest ==> s !in first && !Stored(mc, s)
  {
    var all := first + rest;
    assert forall i :: 0 <= i < |first| ==> all[i] == first[i];
    assert forall i :: 0 <= i < |rest| ==> all[|first| + i] == rest[i];
  }

  predicate NoneOpenedBy(events: seq<Event>, s: Key32) {
    forall i :: 0 <= i < |events| ==> events[i].opener != Some(s)
  }

  lemma NoneOpenedAppends(first: seq<Event>, rest: seq<Event>, s: Key32)
    requires NoneOpenedBy(first, s) && NoneOpenedBy(rest, s)
    ensures NoneOpenedBy(first + rest, s)
  {
  }

  lemma {:induction false} SpentStays(a: Account, codec: Pool.Codec, mc: Machine, ops: seq<Op>, since: u64, s: Key32)
    requires LegalRun(a, codec, mc, ops, since) && OneRowEach(mc) && NewSecrets(mc, Generations(ops))
    requires !Stored(mc, s) && s !in Generations(ops)
    ensures !Stored(Final(a, codec, mc, ops), s)
    ensures NoneOpenedBy(Events(a, codec, mc, ops), s)
    decreases |ops|
  {
    if ops != [] {
      var next := Next(a, codec, mc, ops[0]).0;
      NewSecretsSplit(mc, SecretsOf(ops[0]), Generations(ops[1..]));
      NextSecrets(a, codec, mc, ops[0], since);
      SpentStays(a, codec, next, ops[1..], TimeAfter(ops[0], since), s);
      EventsStart(a, codec, mc, ops);
      NoneOpenedAppends(Next(a, codec, mc, ops[0]).1, Events(a, codec, next, ops[1..]), s);
    }
  }

  predicate OpenedDifferently(events: seq<Event>) {
    forall i, j :: 0 <= i < j < |events| && events[i].opener.Some? ==> events[i].opener != events[j].opener
  }

  ghost predicate NoneStored(mc: Machine, events: seq<Event>) {
    forall i :: 0 <= i < |events| && events[i].opener.Some? ==> !Stored(mc, events[i].opener.value)
  }

  lemma OpenedFirst(mc: Machine, first: seq<Event>, rest: seq<Event>)
    requires |first| <= 1 && OpenedDifferently(rest) && NoneStored(mc, rest) && NoneStored(mc, first)
    requires first != [] && first[0].opener.Some? ==> NoneOpenedBy(rest, first[0].opener.value)
    ensures OpenedDifferently(first + rest) && NoneStored(mc, first + rest)
  {
  }

  /** Forward secrecy: whatever the client does, no prekey secret opens two messages, and
      once it has opened one, no row of any later state has it. */
  lemma {:induction false} SecretsOpenOnce(a: Account, codec: Pool.Codec, mc: Machine, ops: seq<Op>, since: u64)
    requires LegalRun(a, codec, mc, ops, since) && OneRowEach(mc) && NewSecrets(mc, Generations(ops))
    ensures OpenedDifferently(Events(a, codec, mc, ops))
    ensures NoneStored(Final(a, codec, mc, ops), Events(a, codec, mc, ops))
    decreases |ops|
  {
    if ops != [] {
      var (next, first) := Next(a, codec, mc, ops[0]);
      var since' := TimeAfter(ops[0], since);
      NewSecretsSplit(mc, SecretsOf(ops[0]), Generations(ops[1..]));
      NextSecrets(a, codec, mc, ops[0], since);
      SecretsOpenOnce(a, codec, next, ops[1..], since');
      if first != [] && first[0].opener.Some? {
        SpentStays(a, codec, next, ops[1..], since', first[0].opener.value);
      }
      EventsStart(a, codec, mc, ops);
      OpenedFirst(Final(a, codec, mc, ops), first, Events(a, codec, next, ops[1..]));
    }
  }

  /** The same over runs of whole calls of both receive paths. */
  lemma CallsOpenOnce(a: Account, codec: Pool.Codec, mc: Machine, calls: seq<Call>, since: u64)
    requires LegalCalls(a, codec, mc, calls, since)
    requires OneRowEach(mc) && NewSecrets(mc, Generations(AllSteps(a, codec, mc, calls)))
    ensures OpenedDifferently(CallsEvents(a, codec, mc, calls))
    ensures NoneStored(CallsFinal(a, codec, mc, calls), CallsEvents(a, codec, mc, calls))
  {
    CallsAreSteps(a, codec, mc, calls, since);
    SecretsOpenOnce(a, codec, mc, AllSteps(a, codec, mc, calls), since);
  }

  /** The payload of a frame decrypts under `secret` to an envelope or bare body with this
      plaintext. */
  ghost predicate OpensTo(lib: Library, secret: Key32, prekeyId: u32, frame: Bytes, plaintext: Bytes) {
    exists outer, raw ::
      && Message.FromBytes(lib.json, frame) == Ok(outer)
      && lib.open(secret, outer.payload, Aad(outer.header, prekeyId)) == Some(raw)
      && Envelope.Decode(lib.json, raw).0 == plaintext
  }

  /** The secret a message was opened with, if not recorded the account's own. */
  function SecretUsed(a: Account, opener: Option<Key32>): Key32 {
    if opener.Some? then opener.value else a.seed
  }

  lemma DecodedOpens(a: Account, poll: Poll, rows: P.Rows, m: Manifest, zone: string)
    requires Decoded(a, poll.reader, rows, m, zone, poll.now).Some?
    ensures Assembled(a.lib, poll.reader, m, zone).Some?
    ensures OpensTo(a.lib, SecretUsed(a, OpenerOf(rows, m.prekeyId)), m.prekeyId,
                    Assembled(a.lib, poll.reader, m, zone).value,
                    Decoded(a, poll.reader, rows, m, zone, poll.now).value.plaintext)
  {
    OpenedIsBound(a, rows, m, Assembled(a.lib, poll.reader, m, zone).value, poll.now);
  }

  /** The secret recorded with a message is the one that opened it; without one it was the
      account's own. */
  lemma OpenerOpened(a: Account, poll: Poll, st: Stores, item: Item)
    requires Step(a, poll, st, item).1.Surfaced?
    ensures var e := Step(a, poll, st, item).1.event;
      exists frame :: OpensTo(a.lib, SecretUsed(a, e.opener), e.prekeyId, frame, e.message.plaintext)
  {
    SurfacedWasLetIn(a, poll, st, item);
    var pair := Announces(a, poll.now, item).value;
    OpenStep(a, poll, st, item, pair);
    AdmittedIsCommitted(a, poll, st, item, pair, !Known(a, poll, pair.spk));
    var target := Locate(a, poll, item, pair);
    DecodedOpens(a, poll, st.pool.rows, target.manifest, target.zone);
  }
}
