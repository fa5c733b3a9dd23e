/**
 Review of quarantined messages by several callers at once. Each public call is
 broken into the steps between which another caller can run: a read of the
 queue, a fetch from DNS, a pin, an atomic take.
 */
module IntroReview {
  import opened Prelude
  import Q = IntroQueue
  import R = RotationChain

  /** Where a caller is inside its call. */
  datatype Pc =
    | Idle
    | TrustGot(id: nat, spk: Key32)
    | TrustVerified(id: nat, contact: R.Contact)
    | TrustPinned(id: nat, contact: R.Contact)
    | BlockGot(id: nat, spk: Key32)
    | BlockDenied(id: nat, spk: Key32)

  /** A message handed to the user, and the contact pinned for it if it came out
      of a trust call. */
  datatype Surfaced = Surfaced(id: nat, intro: Q.Intro, trusted: Option<R.Contact>)

  datatype State = State(queue: Q.Queue, contacts: map<string, R.Contact>, pcs: map<nat, Pc>, surfaced: seq<Surfaced>)

  datatype Step =
    | Accept(id: nat)
    | TrustGet(caller: nat, id: nat)
    | TrustFetch(caller: nat, identity: Option<R.Contact>)
    | TrustPin(caller: nat)
    | TrustTake(caller: nat)
    | BlockGet(caller: nat, id: nat)
    | BlockDeny(caller: nat, note: string, now: u64)
    | BlockReject(caller: nat)
    | Unblock(spk: Key32)
    | Receive(intro: Q.Intro)
    | Cleanup(now: u64)

  function PcOf(st: State, caller: nat): Pc {
    if caller in st.pcs then st.pcs[caller] else Idle
  }

  function Goto(st: State, caller: nat, pc: Pc): State {
    st.(pcs := st.pcs[caller := pc])
  }

  /** Take a row: if it is there it leaves the queue and is surfaced. */
  function TakeRow(st: State, id: nat, trusted: Option<R.Contact>): State {
    if id in st.queue.rows
    then st.(queue := Q.Removed(st.queue, id), surfaced := st.surfaced + [Surfaced(id, st.queue.rows[id], trusted)])
    else st
  }

  /** One step; a step its caller is not ready for changes nothing. */
  function Next(st: State, step: Step): State {
    match step
    case Accept(id) => TakeRow(st, id, None)
    case TrustGet(c, id) =>
      if id in st.queue.rows then Goto(st, c, TrustGot(id, st.queue.rows[id].spk)) else Goto(st, c, Idle)
    case TrustFetch(c, identity) =>
      var pc := PcOf(st, c);
      if !pc.TrustGot? then st
      else if identity.Some? && identity.value.spk == pc.spk then Goto(st, c, TrustVerified(pc.id, identity.value))
      else Goto(st, c, Idle)
    case TrustPin(c) =>
      var pc := PcOf(st, c);
      if !pc.TrustVerified? then st
      else Goto(st.(contacts := st.contacts[pc.contact.username := pc.contact]), c, TrustPinned(pc.id, pc.contact))
    case TrustTake(c) =>
      var pc := PcOf(st, c);
      if !pc.TrustPinned? then st else Goto(TakeRow(st, pc.id, Some(pc.contact)), c, Idle)
    case BlockGet(c, id) =>
      if id in st.queue.rows then Goto(st, c, BlockGot(id, st.queue.rows[id].spk)) else Goto(st, c, Idle)
    case BlockDeny(c, note, now) =>
      var pc := PcOf(st, c);
      if !pc.BlockGot? then st
      else Goto(st.(queue := Q.Blocked(st.queue, pc.spk, note, now)), c, BlockDenied(pc.id, pc.spk))
    case BlockReject(c) =>
      var pc := PcOf(st, c);
      if !pc.BlockDenied? then st else Goto(st.(queue := Q.Removed(st.queue, pc.id)), c, Idle)
    case Unblock(spk) => st.(queue := Q.Unblocked(st.queue, spk))
    case Receive(intro) => st.(queue := Q.Enqueued(st.queue, intro).0)
    case Cleanup(now) => st.(queue := Q.Cleaned(st.queue, now))
  }

  function Run(st: State, steps: seq<Step>): State
    decreases |steps|
  {
    if steps == [] then st else Run(Next(st, steps[0]), steps[1..])
  }

  /** The sender key a caller believes the row `id` has. */
  function BelievedSpk(pc: Pc): Option<(nat, Key32)> {
    match pc
    case Idle => None
    case TrustGot(id, spk) => Some((id, spk))
    case TrustVerified(id, contact) => Some((id, contact.spk))
    case TrustPinned(id, contact) => Some((id, contact.spk))
    case BlockGot(id, spk) => Some((id, spk))
    case BlockDenied(id, spk) => Some((id, spk))
  }

  ghost predicate Sound(s: Surfaced) {
    s.trusted.Some? ==> s.trusted.value.spk == s.intro.spk
  }

  ghost predicate BeliefHolds(q: Q.Queue, pc: Pc) {
    BelievedSpk(pc).Some? ==>
      var (id, spk) := BelievedSpk(pc).value;
      id < q.nextId && (id in q.rows ==> q.rows[id].spk == spk)
  }

  ghost predicate Inv(st: State) {
    && Q.WellFormed(st.queue)
    && (forall c :: c in st.pcs ==> BeliefHolds(st.queue, st.pcs[c]))
    && (forall s :: s in st.surfaced ==> s.id < st.queue.nextId && s.id !in st.queue.rows && Sound(s))
    && (forall i, j :: 0 <= i < j < |st.surfaced| ==> st.surfaced[i].id != st.surfaced[j].id)
  }

  /** A queue operation that adds no row under an old id and changes none. */
  ghost predicate OldRowsOnlyShrink(q: Q.Queue, q': Q.Queue) {
    && q.nextId <= q'.nextId
    && (forall id :: id in q'.rows && id < q.nextId ==> id in q.rows && q'.rows[id] == q.rows[id])
  }

  lemma QueueStepKeepsInv(st: State, q': Q.Queue)
    requires Inv(st) && Q.WellFormed(q') && OldRowsOnlyShrink(st.queue, q')
    ensures Inv(st.(queue := q'))
  {
    forall c | c in st.pcs ensures BeliefHolds(q', st.pcs[c]) {
      assert BeliefHolds(st.queue, st.pcs[c]);
    }
  }

  lemma TakeKeepsInv(st: State, id: nat, trusted: Option<R.Contact>)
    requires Inv(st)
    requires id in st.queue.rows && trusted.Some? ==> trusted.value.spk == st.queue.rows[id].spk
    ensures Inv(TakeRow(st, id, trusted))
  {
    if id in st.queue.rows {
      QueueStepKeepsInv(st, Q.Removed(st.queue, id));
      forall s | s in st.surfaced ensures s.id != id {
      }
    }
  }

  lemma GotoKeepsInv(st: State, caller: nat, pc: Pc)
    requires Inv(st) && BeliefHolds(st.queue, pc)
    ensures Inv(Goto(st, caller, pc))
  {
    var st' := Goto(st, caller, pc);
    forall c | c in st'.pcs ensures BeliefHolds(st'.queue, st'.pcs[c]) {
      assert c != caller ==> c in st.pcs;
    }
  }

  /** The steps of one caller's trust call. */
  lemma TrustStepKeepsInv(st: State, step: Step)
    requires Inv(st) && (step.TrustGet? || step.TrustFetch? || step.TrustPin? || step.TrustTake?)
    ensures Inv(Next(st, step))
  {
    var c := step.caller;
    var pc := PcOf(st, c);
    assert BeliefHolds(st.queue, pc);
    match step {
      case TrustGet(_, id) =>
        GotoKeepsInv(st, c, Idle);
        if id in st.queue.rows {
          GotoKeepsInv(st, c, TrustGot(id, st.queue.rows[id].spk));
        }
      case TrustFetch(_, identity) =>
        GotoKeepsInv(st, c, Idle);
        if pc.TrustGot? && identity.Some? && identity.value.spk == pc.spk {
          GotoKeepsInv(st, c, TrustVerified(pc.id, identity.value));
        }
      case TrustPin(_) =>
        if pc.TrustVerified? {
          var pinned := st.(contacts := st.contacts[pc.contact.username := pc.contact]);
          assert Inv(pinned);
          GotoKeepsInv(pinned, c, TrustPinned(pc.id, pc.contact));
        }
      case TrustTake(_) =>
        if pc.TrustPinned? {
          TakeKeepsInv(st, pc.id, Some(pc.contact));
          GotoKeepsInv(TakeRow(st, pc.id, Some(pc.contact)), c, Idle);
        }
    }
  }

  /** The steps of one caller's block call. */
  lemma BlockStepKeepsInv(st: State, step: Step)
    requires Inv(st) && (step.BlockGet? || step.BlockDeny? || step.BlockReject?)
    ensures Inv(Next(st, step))
  {
    var c := step.caller;
    var pc := PcOf(st, c);
    assert BeliefHolds(st.queue, pc);
    match step {
      case BlockGet(_, id) =>
        GotoKeepsInv(st, c, Idle);
        if id in st.queue.rows {
          GotoKeepsInv(st, c, BlockGot(id, st.queue.rows[id].spk));
        }
      case BlockDeny(_, note, now) =>
        if pc.BlockGot? {
          var q := Q.Blocked(st.queue, pc.spk, note, now);
          QueueStepKeepsInv(st, q);
          GotoKeepsInv(st.(queue := q), c, BlockDenied(pc.id, pc.spk));
        }
      case BlockReject(_) =>
        if pc.BlockDenied? {
          var q := Q.Removed(st.queue, pc.id);
          QueueStepKeepsInv(st, q);
          GotoKeepsInv(st.(queue := q), c, Idle);
        }
    }
  }

  lemma StepKeepsInv(st: State, step: Step)
    requires Inv(st)
    ensures Inv(Next(st, step))
  {
    match step {
      case Accept(id) =>
        TakeKeepsInv(st, id, None);
      case Receive(intro) =>
        Q.EnqueueKeepsPairsDistinct(st.queue, intro);
        QueueStepKeepsInv(st, Q.Enqueued(st.queue, intro).0);
      case Unblock(spk) =>
        QueueStepKeepsInv(st, Q.Unblocked(st.queue, spk));
      case Cleanup(now) =>
        QueueStepKeepsInv(st, Q.Cleaned(st.queue, now));
      case TrustGet(_, _) => TrustStepKeepsInv(st, step);
      case TrustFetch(_, _) => TrustStepKeepsInv(st, step);
      case TrustPin(_) => TrustStepKeepsInv(st, step);
      case TrustTake(_) => TrustStepKeepsInv(st, step);
      case BlockGet(_, _) => BlockStepKeepsInv(st, step);
      case BlockDeny(_, _, _) => BlockStepKeepsInv(st, step);
      case BlockReject(_) => BlockStepKeepsInv(st, step);
    }
  }

  lemma {:induction false} RunKeepsInv(st: State, steps: seq<Step>)
    requires Inv(st)
    ensures Inv(Run(st, steps))
    decreases |steps|
  {
    if steps != [] {
      StepKeepsInv(st, steps[0]);
      RunKeepsInv(Next(st, steps[0]), steps[1..]);
    }
  }

  const START := State(Q.EMPTY, map[], map[], [])

  /** Over any interleaving: a row is surfaced at most once, a surfaced row is no
      longer pending, a trust call surfaces only a message signed by the key it
      pinned, and pending rows have distinct (sender, message id) pairs. */
  lemma ReviewIsSafe(steps: seq<Step>)
    ensures var st := Run(START, steps);
      && (forall i, j :: 0 <= i < j < |st.surfaced| ==> st.surfaced[i].id != st.surfaced[j].id)
      && (forall s :: s in st.surfaced ==> s.id !in st.queue.rows)
      && (forall s :: s in st.surfaced && s.trusted.Some? ==> s.trusted.value.spk == s.intro.spk)
      && (forall a, b :: a in st.queue.rows && b in st.queue.rows && a != b ==>
            Q.PairOf(st.queue.rows[a]) != Q.PairOf(st.queue.rows[b]))
  {
    RunKeepsInv(START, steps);
    assert forall s :: s in Run(START, steps).surfaced ==> Sound(s);
  }

  lemma {:induction false} RunAppends(st: State, steps: seq<Step>, step: Step)
    ensures Run(st, steps + [step]) == Next(Run(st, steps), step)
    decreases |steps|
  {
    if steps == [] {
      assert ([] + [step])[1..] == [];
    } else {
      assert (steps + [step])[0] == steps[0] && (steps + [step])[1..] == steps[1..] + [step];
      RunAppends(Next(st, steps[0]), steps[1..], step);
    }
  }

  /** After the first `k` steps the contact is stored under its name. */
  ghost predicate StoredAfter(steps: seq<Step>, k: nat, contact: R.Contact) {
    k <= |steps| && contact.username in Run(START, steps[..k]).contacts
    && Run(START, steps[..k]).contacts[contact.username] == contact
  }

  ghost predicate WasStored(steps: seq<Step>, contact: R.Contact) {
    exists k: nat :: StoredAfter(steps, k, contact)
  }

  lemma StoredEarlier(steps: seq<Step>, step: Step, contact: R.Contact)
    requires WasStored(steps, contact)
    ensures WasStored(steps + [step], contact)
  {
    var k: nat :| StoredAfter(steps, k, contact);
    assert (steps + [step])[..k] == steps[..k];
    assert StoredAfter(steps + [step], k, contact);
  }

  lemma StoredNow(steps: seq<Step>, contact: R.Contact)
    requires contact.username in Run(START, steps).contacts && Run(START, steps).contacts[contact.username] == contact
    ensures WasStored(steps, contact)
  {
    assert steps[..|steps|] == steps;
    assert StoredAfter(steps, |steps|, contact);
  }

  ghost predicate PinsStored(st: State, steps: seq<Step>) {
    && (forall c :: c in st.pcs && st.pcs[c].TrustPinned? ==> WasStored(steps, st.pcs[c].contact))
    && (forall s :: s in st.surfaced && s.trusted.Some? ==> WasStored(steps, s.trusted.value))
  }

  lemma PinsStoredEarlier(st: State, steps: seq<Step>, step: Step)
    requires PinsStored(st, steps)
    ensures PinsStored(st, steps + [step])
  {
    forall c | c in st.pcs && st.pcs[c].TrustPinned? ensures WasStored(steps + [step], st.pcs[c].contact) {
      StoredEarlier(steps, step, st.pcs[c].contact);
    }
    forall s | s in st.surfaced && s.trusted.Some? ensures WasStored(steps + [step], s.trusted.value) {
      StoredEarlier(steps, step, s.trusted.value);
    }
  }

  /** What a step adds: a caller that has pinned, a message that was trusted. */
  lemma NewPins(st: State, step: Step)
    ensures var next := Next(st, step);
      && (forall c :: c in next.pcs && next.pcs[c].TrustPinned? ==>
            || (c in st.pcs && st.pcs[c] == next.pcs[c])
            || (next.pcs[c].contact.username in next.contacts
                && next.contacts[next.pcs[c].contact.username] == next.pcs[c].contact))
      && (forall s :: s in next.surfaced && s.trusted.Some? ==>
            || s in st.surfaced
            || (step.TrustTake? && PcOf(st, step.caller).TrustPinned?
                && s.trusted.value == PcOf(st, step.caller).contact))
  {
  }

  /** Over any interleaving: a trust call that has got as far as pinning, and every message
      surfaced by one, had its contact stored under its name. */
  lemma {:induction false} TrustStoresContact(steps: seq<Step>)
    ensures PinsStored(Run(START, steps), steps)
    decreases |steps|
  {
    if steps != [] {
      var init, step := steps[..|steps| - 1], Last(steps);
      assert steps == init + [step];
      TrustStoresContact(init);
      RunAppends(START, init, step);
      var st := Run(START, init);
      var next := Next(st, step);
      PinsStoredEarlier(st, init, step);
      NewPins(st, step);
      forall c | c in next.pcs && next.pcs[c].TrustPinned? ensures WasStored(steps, next.pcs[c].contact) {
        if !(c in st.pcs && st.pcs[c] == next.pcs[c]) {
          StoredNow(steps, next.pcs[c].contact);
        }
      }
    }
  }

  /** The pending rows of one sender. */
  function RowsFrom(q: Q.Queue, spk: Key32): set<nat> {
    set id | id in q.rows && q.rows[id].spk == spk
  }

  lemma DeniedSenderStep(st: State, step: Step, spk: Key32)
    requires spk in st.queue.denied && step != Unblock(spk)
    ensures spk in Next(st, step).queue.denied
    ensures RowsFrom(Next(st, step).queue, spk) <= RowsFrom(st.queue, spk)
  {
  }

  /** While a sender is on the denylist no row of that sender appears, until the
      sender is unblocked. */
  lemma {:induction false} DeniedSenderStaysOut(st: State, steps: seq<Step>, spk: Key32)
    requires spk in st.queue.denied && Unblock(spk) !in steps
    ensures spk in Run(st, steps).queue.denied
    ensures RowsFrom(Run(st, steps).queue, spk) <= RowsFrom(st.queue, spk)
    decreases |steps|
  {
    if steps != [] {
      DeniedSenderStep(st, steps[0], spk);
      DeniedSenderStaysOut(Next(st, steps[0]), steps[1..], spk);
    }
  }

  /** A completed block leaves the sender denied, and the row is gone no matter
      what other callers did between the steps. */
  lemma BlockTakesHold(st: State, between: seq<Step>, caller: nat, note: string, now: u64)
    requires PcOf(st, caller).BlockGot?
    requires Unblock(PcOf(st, caller).spk) !in between
    requires var st1 := Run(Next(st, BlockDeny(caller, note, now)), between);
             PcOf(st1, caller) == BlockDenied(PcOf(st, caller).id, PcOf(st, caller).spk)
    ensures var st1 := Run(Next(st, BlockDeny(caller, note, now)), between);
            var st2 := Next(st1, BlockReject(caller));
            && PcOf(st, caller).spk in st2.queue.denied
            && PcOf(st, caller).id !in st2.queue.rows
  {
    DeniedSenderStaysOut(Next(st, BlockDeny(caller, note, now)), between, PcOf(st, caller).spk);
  }

  // ---- the calls as the program makes them ----

  /** What a caller that runs on its own does, as steps of the machine. */
  function Alone(q: Q.Queue, contacts: map<string, R.Contact>, steps: seq<Step>): State {
    Run(State(q, contacts, map[], []), steps)
  }

  function TrustSteps(id: nat, identity: Option<R.Contact>): seq<Step> {
    [TrustGet(0, id), TrustFetch(0, identity), TrustPin(0), TrustTake(0)]
  }

  function BlockSteps(id: nat, note: string, now: u64): seq<Step> {
    [BlockGet(0, id), BlockDeny(0, note, now), BlockReject(0)]
  }

  lemma RunSteps(st: State, steps: seq<Step>, step: Step)
    ensures Run(st, [step] + steps) == Run(Next(st, step), steps)
  {
    assert ([step] + steps)[1..] == steps;
  }

  lemma TrustAlone(st: State, id: nat, identity: Option<R.Contact>)
    ensures Run(st, TrustSteps(id, identity))
         == Next(Next(Next(Next(st, TrustGet(0, id)), TrustFetch(0, identity)), TrustPin(0)), TrustTake(0))
  {
    var a, b, c, d := TrustGet(0, id), TrustFetch(0, identity), TrustPin(0), TrustTake(0);
    assert TrustSteps(id, identity) == [a] + ([b] + ([c] + ([d] + [])));
    RunSteps(st, [b] + ([c] + ([d] + [])), a);
    RunSteps(Next(st, a), [c] + ([d] + []), b);
    RunSteps(Next(Next(st, a), b), [d] + [], c);
    RunSteps(Next(Next(Next(st, a), b), c), [], d);
  }

  lemma BlockAlone(st: State, id: nat, note: string, now: u64)
    ensures Run(st, BlockSteps(id, note, now))
         == Next(Next(Next(st, BlockGet(0, id)), BlockDeny(0, note, now)), BlockReject(0))
  {
    var a, b, c := BlockGet(0, id), BlockDeny(0, note, now), BlockReject(0);
    assert BlockSteps(id, note, now) == [a] + ([b] + ([c] + []));
    RunSteps(st, [b] + ([c] + []), a);
    RunSteps(Next(st, a), [c] + [], b);
    RunSteps(Next(Next(st, a), b), [], c);
  }

  datatype TrustError = VerifyFailed

  class Intros {
    const queue: Q.IntroQueue
    var contacts: map<string, R.Contact>

    constructor (queue: Q.IntroQueue, contacts: map<string, R.Contact>)
      ensures this.queue == queue && this.contacts == contacts
    {
      this.queue := queue;
      this.contacts := contacts;
    }

    /** Hand out a message without pinning its sender. */
    method AcceptIntro(id: nat) returns (r: Option<Q.Intro>)
      requires queue.Valid()
      modifies queue`rows
      ensures queue.Valid() && queue.Contents() == Q.Removed(old(queue.Contents()), id)
      ensures r == Q.Lookup(old(queue.Contents()), id)
    {
      r := queue.Take(id);
    }

    /** Pin the sender of a message and hand the message out. `identity` is what the
        given address resolves to, if it resolves. */
    method TrustIntro(id: nat, identity: Option<R.Contact>) returns (r: Result<Option<Q.Intro>, TrustError>)
      requires queue.Valid()
      modifies queue`rows, this`contacts
      ensures queue.Valid()
      ensures var after := Alone(old(queue.Contents()), old(contacts), TrustSteps(id, identity));
              && queue.Contents() == after.queue && contacts == after.contacts
              && after.surfaced == if r.Ok? && r.value.Some? then [Surfaced(id, r.value.value, identity)] else []
      ensures r.Err? <==> id in old(queue.rows) && !(identity.Some? && identity.value.spk == old(queue.rows)[id].spk)
      ensures r.Ok? ==> r.value == if id in old(queue.rows) then Some(old(queue.rows)[id]) else None
      ensures queue.rows == if r.Ok? then old(queue.rows) - {id} else old(queue.rows)
      ensures contacts
           == if r.Ok? && r.value.Some? then old(contacts)[identity.value.username := identity.value] else old(contacts)
    {
      TrustAlone(State(queue.Contents(), contacts, map[], []), id, identity);
      var intro := queue.Get(id);
      if intro.None? {
        return Ok(None);
      }
      if identity.None? || identity.value.spk != intro.value.spk {
        return Err(VerifyFailed);
      }
      contacts := contacts[identity.value.username := identity.value];
      var taken := queue.Take(id);
      return Ok(taken);
    }

    /** Drop a message and everything else its sender may send. */
    method BlockIntro(id: nat, note: string, now: u64) returns (removed: bool)
      requires queue.Valid()
      modifies queue`rows, queue`denied
      ensures queue.Valid()
      ensures queue.Contents() == Alone(old(queue.Contents()), contacts, BlockSteps(id, note, now)).queue
      ensures removed <==> id in old(queue.rows)
      ensures queue.rows == old(queue.rows) - {id}
      ensures queue.denied
           == if removed then old(queue.denied)[old(queue.rows)[id].spk := Q.Denial(I64Secs(now), note)]
              else old(queue.denied)
    {
      BlockAlone(State(queue.Contents(), contacts, map[], []), id, note, now);
      var intro := queue.Get(id);
      if intro.None? {
        return false;
      }
      queue.BlockSender(intro.value.spk, note, now);
      removed := queue.Reject(id);
    }
  }
}
