/**
 A pool of upstream resolvers tried in an order that depends on their recent
 health. Hosts are the positions 0, 1, ... of the configuration; what each
 upstream answers to the current query is a parameter.
 */
module ResolverPool {
  import opened Prelude
  import opened StableSort

  datatype Health = Health(failures: u32, lastFailure: Option<nat>)

  const HEALTHY := Health(0, None)

  /** One upstream's answer; the instant is when it had been dealt with. */
  datatype Outcome =
    | Found(values: seq<string>, at: nat)
    | NotFound
    | Transport(at: nat)
    | BadName(reason: string)

  datatype Reply = Answer(values: seq<string>) | Absent | InvalidName

  function Failed(h: Health, at: nat): Health {
    Health(if h.failures < U32_LIMIT - 1 then h.failures + 1 else h.failures, Some(at))
  }

  /** A host that never failed, or recovered, has no failure on record. */
  predicate Coherent(h: Health) {
    h.failures == 0 <==> h.lastFailure.None?
  }

  function Elapsed(since: nat, now: nat): nat {
    if now >= since then now - since else 0
  }

  predicate IsCooledDown(h: Health, threshold: u32, cooldown: nat, now: nat) {
    h.failures >= threshold && h.lastFailure.Some? && Elapsed(h.lastFailure.value, now) < cooldown
  }

  /** Sorts the oldest failure first, and no failure at all before that. */
  function AgeKey(h: Health, now: nat): int {
    var age: int := if h.lastFailure.None? then now + 1 else Elapsed(h.lastFailure.value, now);
    -age
  }

  type Hosts = seq<Health>

  /** The hosts below `n` that are, or are not, cooling down, in order. */
  function Tier(hosts: Hosts, n: nat, cooled: bool, threshold: u32, cooldown: nat, now: nat): (r: seq<nat>)
    requires n <= |hosts|
    ensures forall h :: h in r <==> 0 <= h < n && IsCooledDown(hosts[h], threshold, cooldown, now) == cooled
    ensures forall i, j :: 0 <= i < j < |r| ==> r[i] < r[j]
  {
    if n == 0 then []
    else
      var init := Tier(hosts, n - 1, cooled, threshold, cooldown, now);
      assert forall i :: 0 <= i < |init| ==> init[i] in init;
      if IsCooledDown(hosts[n - 1], threshold, cooldown, now) == cooled then init + [n - 1] else init
  }

  function KeyFor(hosts: Hosts, now: nat): nat -> int {
    (h: nat) => if h < |hosts| then AgeKey(hosts[h], now) else 0
  }

  /** Healthy hosts as configured, then the cooling ones, oldest failure first. */
  function Order(hosts: Hosts, threshold: u32, cooldown: nat, now: nat): seq<nat> {
    Tier(hosts, |hosts|, false, threshold, cooldown, now)
    + Sort(Tier(hosts, |hosts|, true, threshold, cooldown, now), KeyFor(hosts, now))
  }

  /** `order` lists every host once. */
  ghost predicate IsPermutation(order: seq<nat>, n: nat) {
    && (forall h :: 0 <= h < n <==> h in order)
    && (forall i, j :: 0 <= i < j < |order| ==> order[i] != order[j])
  }

  lemma TiersCover(hosts: Hosts, threshold: u32, cooldown: nat, now: nat, deferred: seq<nat>)
    requires multiset(deferred) == multiset(Tier(hosts, |hosts|, true, threshold, cooldown, now))
    ensures IsPermutation(Tier(hosts, |hosts|, false, threshold, cooldown, now) + deferred, |hosts|)
  {
    var preferred := Tier(hosts, |hosts|, false, threshold, cooldown, now);
    var cooling := Tier(hosts, |hosts|, true, threshold, cooldown, now);
    DistinctInMultiset(cooling, deferred);
    forall h: nat ensures h in deferred <==> h in cooling {
      assert h in deferred <==> h in multiset(deferred);
      assert h in cooling <==> h in multiset(cooling);
    }
    var order := preferred + deferred;
    forall i, j | 0 <= i < j < |order| ensures order[i] != order[j] {
      assert i < |preferred| ==> order[i] in preferred;
      assert j >= |preferred| ==> order[j] in deferred;
    }
  }

  /** The order asks every configured host once: first the healthy ones in
      configuration order, then the cooling ones, stably sorted by how long ago
      they failed. */
  lemma OrderSpec(hosts: Hosts, threshold: u32, cooldown: nat, now: nat)
    ensures var order := Order(hosts, threshold, cooldown, now);
            var preferred := Tier(hosts, |hosts|, false, threshold, cooldown, now);
      && IsPermutation(order, |hosts|)
      && preferred <= order
      && IsStableSort(Tier(hosts, |hosts|, true, threshold, cooldown, now), KeyFor(hosts, now), order[|preferred|..])
  {
    var preferred := Tier(hosts, |hosts|, false, threshold, cooldown, now);
    var cooling := Tier(hosts, |hosts|, true, threshold, cooldown, now);
    var deferred := Sort(cooling, KeyFor(hosts, now));
    SortSpec(cooling, KeyFor(hosts, now));
    TiersCover(hosts, threshold, cooldown, now, deferred);
    assert (preferred + deferred)[|preferred|..] == deferred;
  }

  /** The host has failed at least `threshold` times in a row, and the last time less than
      the cooldown ago. */
  predicate Cooling(h: Health, threshold: u32, cooldown: nat, now: nat) {
    h.failures >= threshold && h.lastFailure.Some? && cooldown > 0 && now < h.lastFailure.value + cooldown
  }

  /** When it last failed; a clock reading ahead of `now` counts as `now`. */
  function FailedAt(h: Health, now: nat): nat
    requires h.lastFailure.Some?
  {
    if h.lastFailure.value < now then h.lastFailure.value else now
  }

  /** Host `g` is to be asked before host `h`: it is not cooling and `h` is; or neither is,
      and it was configured first; or both are, and it failed first, or at the same
      time and was configured first. */
  predicate Precedes(hosts: Hosts, g: nat, h: nat, threshold: u32, cooldown: nat, now: nat)
    requires g < |hosts| && h < |hosts|
  {
    var (a, b) := (hosts[g], hosts[h]);
    if Cooling(b, threshold, cooldown, now) then
      Cooling(a, threshold, cooldown, now) ==>
        FailedAt(a, now) < FailedAt(b, now) || (FailedAt(a, now) == FailedAt(b, now) && g < h)
    else !Cooling(a, threshold, cooldown, now) && g < h
  }

  ghost predicate AskedBefore(order: seq<nat>, g: nat, h: nat) {
    exists p, q :: 0 <= p < q < |order| && order[p] == g && order[q] == h
  }

  lemma CoolingIff(h: Health, threshold: u32, cooldown: nat, now: nat)
    ensures IsCooledDown(h, threshold, cooldown, now) <==> Cooling(h, threshold, cooldown, now)
    ensures Cooling(h, threshold, cooldown, now) ==> AgeKey(h, now) == FailedAt(h, now) - now
  {
  }

  lemma DeferredBefore(hosts: Hosts, threshold: u32, cooldown: nat, now: nat, g: nat, h: nat) returns (p: nat, q: nat)
    requires g < |hosts| && h < |hosts| && Precedes(hosts, g, h, threshold, cooldown, now)
    requires Cooling(hosts[g], threshold, cooldown, now) && Cooling(hosts[h], threshold, cooldown, now)
    ensures var t := Sort(Tier(hosts, |hosts|, true, threshold, cooldown, now), KeyFor(hosts, now));
      p < q < |t| && t[p] == g && t[q] == h
  {
    var tier := Tier(hosts, |hosts|, true, threshold, cooldown, now);
    var key := KeyFor(hosts, now);
    SortSpec(tier, key);
    CoolingIff(hosts[g], threshold, cooldown, now);
    CoolingIff(hosts[h], threshold, cooldown, now);
    if FailedAt(hosts[g], now) < FailedAt(hosts[h], now) {
      p, q := SmallerFirst(tier, key, Sort(tier, key), g, h);
    } else {
      var i :| 0 <= i < |tier| && tier[i] == g;
      var j :| 0 <= j < |tier| && tier[j] == h;
      assert i < j;
      p, q := StableKeepsOrder(tier, key, Sort(tier, key), i, j);
    }
  }

  /** The hosts that are not cooling, and the cooling ones as sorted. */
  lemma OrderParts(hosts: Hosts, threshold: u32, cooldown: nat, now: nat)
    returns (preferred: seq<nat>, deferred: seq<nat>)
    ensures Order(hosts, threshold, cooldown, now) == preferred + deferred
    ensures preferred == Tier(hosts, |hosts|, false, threshold, cooldown, now)
    ensures deferred == Sort(Tier(hosts, |hosts|, true, threshold, cooldown, now), KeyFor(hosts, now))
    ensures forall h :: 0 <= h < |hosts| ==>
      if Cooling(hosts[h], threshold, cooldown, now) then h in deferred else h in preferred
    ensures forall i, j :: 0 <= i < j < |preferred| ==> preferred[i] < preferred[j]
  {
    preferred := Tier(hosts, |hosts|, false, threshold, cooldown, now);
    var cooling := Tier(hosts, |hosts|, true, threshold, cooldown, now);
    deferred := Sort(cooling, KeyFor(hosts, now));
    SortElements(cooling, KeyFor(hosts, now));
    forall h | 0 <= h < |hosts|
      ensures if Cooling(hosts[h], threshold, cooldown, now) then h in deferred else h in preferred
    {
      CoolingIff(hosts[h], threshold, cooldown, now);
      assert h in cooling ==> h in multiset(deferred);
    }
  }

  lemma InFirst(first: seq<nat>, rest: seq<nat>, g: nat, h: nat)
    requires g in first && h in rest
    ensures AskedBefore(first + rest, g, h)
  {
    var p :| 0 <= p < |first| && first[p] == g;
    var q :| 0 <= q < |rest| && rest[q] == h;
    assert (first + rest)[p] == g && (first + rest)[|first| + q] == h;
  }

  lemma BothFirst(first: seq<nat>, rest: seq<nat>, g: nat, h: nat)
    requires g in first && h in first && g < h && forall i, j :: 0 <= i < j < |first| ==> first[i] < first[j]
    ensures AskedBefore(first + rest, g, h)
  {
    var p :| 0 <= p < |first| && first[p] == g;
    var q :| 0 <= q < |first| && first[q] == h;
    assert (first + rest)[p] == g && (first + rest)[q] == h;
  }

  lemma InRest(first: seq<nat>, rest: seq<nat>, p: nat, q: nat)
    requires p < q < |rest|
    ensures AskedBefore(first + rest, rest[p], rest[q])
  {
    assert (first + rest)[|first| + p] == rest[p] && (first + rest)[|first| + q] == rest[q];
  }

  /** Which of two hosts is asked first, if it comes to both. */
  lemma OrderMeans(hosts: Hosts, threshold: u32, cooldown: nat, now: nat, g: nat, h: nat)
    requires g < |hosts| && h < |hosts| && Precedes(hosts, g, h, threshold, cooldown, now)
    ensures AskedBefore(Order(hosts, threshold, cooldown, now), g, h)
  {
    var preferred, deferred := OrderParts(hosts, threshold, cooldown, now);
    if !Cooling(hosts[h], threshold, cooldown, now) {
      BothFirst(preferred, deferred, g, h);
    } else if !Cooling(hosts[g], threshold, cooldown, now) {
      InFirst(preferred, deferred, g, h);
    } else {
      var p, q := DeferredBefore(hosts, threshold, cooldown, now, g, h);
      InRest(preferred, deferred, p, q);
    }
  }

  /** Of two hosts one precedes the other, so the order is settled. */
  lemma PrecedesIsTotal(hosts: Hosts, threshold: u32, cooldown: nat, now: nat, g: nat, h: nat)
    requires g < |hosts| && h < |hosts| && g != h
    ensures Precedes(hosts, g, h, threshold, cooldown, now) <==> !Precedes(hosts, h, g, threshold, cooldown, now)
  {
  }

  /** The first position at or after `i` whose answer ends the query. */
  function Decisive(order: seq<nat>, outcomes: nat -> Outcome, i: nat): (d: nat)
    requires i <= |order|
    ensures i <= d <= |order|
    ensures d < |order| ==> outcomes(order[d]).Found? || outcomes(order[d]).BadName?
    ensures forall p :: i <= p < d ==> outcomes(order[p]).NotFound? || outcomes(order[p]).Transport?
    decreases |order| - i
  {
    if i == |order| || outcomes(order[i]).Found? || outcomes(order[i]).BadName? then i
    else Decisive(order, outcomes, i + 1)
  }

  /** The health that the host at position `p` should have after a query that was
      decided at position `d`. */
  function After(h: Health, order: seq<nat>, outcomes: nat -> Outcome, p: nat, d: nat): Health
    requires p < |order| && d <= |order|
  {
    if p > d then h
    else if p == d then (if outcomes(order[d]).Found? then HEALTHY else h)
    else match outcomes(order[p])
      case Transport(at) => Failed(h, at)
      case NotFound =>
        if d == |order| then HEALTHY
        else (match outcomes(order[d])
              case Found(_, at) => Failed(h, at)
              case _ => h)
      case _ => h
  }

  /** Every host has the health it should have. */
  ghost predicate Settled(before: Hosts, after: Hosts, order: seq<nat>, outcomes: nat -> Outcome, d: nat)
    requires d <= |order|
  {
    && |after| == |before|
    && forall p :: 0 <= p < |order| ==>
         order[p] < |before| && after[order[p]] == After(before[order[p]], order, outcomes, p, d)
  }

  /** The health table before position `i` is asked: only transport failures have
      been recorded. */
  ghost predicate Scanned(before: Hosts, current: Hosts, order: seq<nat>, outcomes: nat -> Outcome, i: nat) {
    && |current| == |before|
    && forall p :: 0 <= p < |order| ==>
         order[p] < |before|
         && current[order[p]] == if p < i && outcomes(order[p]).Transport?
                                 then Failed(before[order[p]], outcomes(order[p]).at) else before[order[p]]
  }

  ghost predicate AllCoherent(hosts: Hosts) {
    forall h :: 0 <= h < |hosts| ==> Coherent(hosts[h])
  }

  lemma ScanTransport(before: Hosts, current: Hosts, order: seq<nat>, outcomes: nat -> Outcome, i: nat)
    requires IsPermutation(order, |before|) && i < |order| && Scanned(before, current, order, outcomes, i)
    requires outcomes(order[i]).Transport?
    ensures order[i] < |current|
    ensures var next := current[order[i] := Failed(current[order[i]], outcomes(order[i]).at)];
      Scanned(before, next, order, outcomes, i + 1)
  {
  }

  lemma NothingScanned(before: Hosts, order: seq<nat>, outcomes: nat -> Outcome)
    requires IsPermutation(order, |before|)
    ensures Scanned(before, before, order, outcomes, 0)
  {
    forall p | 0 <= p < |order| ensures order[p] < |before| {
      assert order[p] in order;
    }
  }

  lemma ScanSkips(before: Hosts, current: Hosts, order: seq<nat>, outcomes: nat -> Outcome, i: nat)
    requires i < |order| && Scanned(before, current, order, outcomes, i) && !outcomes(order[i]).Transport?
    ensures Scanned(before, current, order, outcomes, i + 1)
  {
  }

  /** From the scanned table to the settled one, for the three ways a query ends. */
  lemma ScanSettles(before: Hosts, current: Hosts, after: Hosts, order: seq<nat>, outcomes: nat -> Outcome, i: nat)
    requires IsPermutation(order, |before|) && i <= |order| && Scanned(before, current, order, outcomes, i)
    requires i == |order| || outcomes(order[i]).Found? || outcomes(order[i]).BadName?
    requires forall p :: 0 <= p < i ==> outcomes(order[p]).NotFound? || outcomes(order[p]).Transport?
    requires |after| == |before|
    requires forall p :: 0 <= p < |order| ==>
      after[order[p]] ==
        if p < i && outcomes(order[p]).NotFound? && i == |order| then HEALTHY
        else if p < i && outcomes(order[p]).NotFound? && outcomes(order[i]).Found?
        then Failed(current[order[p]], outcomes(order[i]).at)
        else if p == i && outcomes(order[i]).Found? then HEALTHY
        else current[order[p]]
    ensures Settled(before, after, order, outcomes, i)
  {
    forall p | 0 <= p < |order|
      ensures order[p] < |before| && after[order[p]] == After(before[order[p]], order, outcomes, p, i)
    {
      assert order[p] in order;
    }
  }

  /** The reply of a query that was decided at position `d`. */
  function ReplyAt(order: seq<nat>, outcomes: nat -> Outcome, d: nat): Reply
    requires d <= |order|
  {
    if d == |order| then Absent
    else match outcomes(order[d])
      case Found(values, _) => Answer(values)
      case _ => InvalidName
  }

  class ResolverPool {
    var hosts: Hosts
    const threshold: u32
    const cooldown: nat

    ghost predicate Valid()
      reads this
    {
      && 1 <= threshold
      && hosts != []
      && AllCoherent(hosts)
    }

    constructor (n: nat, threshold: u32, cooldown: nat)
      requires n > 0 && threshold >= 1
      ensures Valid() && |hosts| == n && (forall h :: 0 <= h < n ==> hosts[h] == HEALTHY)
      ensures this.threshold == threshold && this.cooldown == cooldown
    {
      hosts := AllHealthy(n);
      this.threshold := threshold;
      this.cooldown := cooldown;
    }

    method RecordSuccess(h: nat)
      requires h < |hosts|
      modifies this`hosts
      ensures hosts == old(hosts)[h := HEALTHY]
    {
      hosts := hosts[h := HEALTHY];
    }

    method RecordFailure(h: nat, at: nat)
      requires h < |hosts|
      modifies this`hosts
      ensures hosts == old(hosts)[h := Failed(old(hosts)[h], at)]
    {
      hosts := hosts[h := Failed(hosts[h], at)];
    }

    method OrderedHosts(now: nat) returns (order: seq<nat>)
      ensures order == Order(hosts, threshold, cooldown, now)
    {
      var preferred: seq<nat> := [];
      var deferred: seq<nat> := [];
      for h := 0 to |hosts|
        invariant preferred == Tier(hosts, h, false, threshold, cooldown, now)
        invariant deferred == Tier(hosts, h, true, threshold, cooldown, now)
      {
        if IsCooledDown(hosts[h], threshold, cooldown, now) {
          deferred := deferred + [h];
        } else {
          preferred := preferred + [h];
        }
      }
      order := preferred + Sort(deferred, KeyFor(hosts, now));
    }

    /** Ask the hosts in the given order until one of them settles the matter. */
    method AskInOrder(order: seq<nat>, outcomes: nat -> Outcome) returns (reply: Reply, ghost asked: seq<nat>)
      requires AllCoherent(hosts) && IsPermutation(order, |hosts|)
      modifies this`hosts
      ensures AllCoherent(hosts)
      ensures var d := Decisive(order, outcomes, 0);
        && asked == order[..if d < |order| then d + 1 else d]
        && reply == ReplyAt(order, outcomes, d)
        && Settled(old(hosts), hosts, order, outcomes, d)
    {
      ghost var before := hosts;
      var notFoundBuffer: seq<nat> := [];
      asked := [];
      NothingScanned(hosts, order, outcomes);
      for i := 0 to |order|
        invariant asked == order[..i]
        invariant Decisive(order, outcomes, 0) == Decisive(order, outcomes, i)
        invariant notFoundBuffer == Missed(order, outcomes, i)
        invariant Scanned(before, hosts, order, outcomes, i) && AllCoherent(hosts)
      {
        var h := order[i];
        asked := asked + [h];
        assert asked == order[..i + 1];
        match outcomes(h) {
          case Found(values, at) =>
            SettleFound(notFoundBuffer, order, outcomes, i, before);
            return Answer(values), asked;
          case NotFound =>
            ScanSkips(before, hosts, order, outcomes, i);
            notFoundBuffer := notFoundBuffer + [h];
          case Transport(at) =>
            SettleTransport(order, outcomes, i, at, before);
          case BadName(reason) =>
            ScanSettles(before, hosts, hosts, order, outcomes, i);
            return InvalidName, asked;
        }
      }
      SettleAbsent(notFoundBuffer, order, outcomes, before);
      return Absent, asked;
    }

    /** The host at position `i` could not be reached. */
    method SettleTransport(order: seq<nat>, outcomes: nat -> Outcome, i: nat, at: nat, ghost before: Hosts)
      requires i < |order| && outcomes(order[i]) == Transport(at)
      requires AllCoherent(hosts) && IsPermutation(order, |before|) && Scanned(before, hosts, order, outcomes, i)
      modifies this`hosts
      ensures AllCoherent(hosts) && Scanned(before, hosts, order, outcomes, i + 1)
    {
      ScanTransport(before, hosts, order, outcomes, i);
      RecordFailure(order[i], at);
    }

    /** The host at position `i` answered. */
    method SettleFound(buffer: seq<nat>, order: seq<nat>, outcomes: nat -> Outcome, i: nat, ghost before: Hosts)
      requires i < |order| && outcomes(order[i]).Found? && Decisive(order, outcomes, 0) == i
      requires AllCoherent(hosts) && IsPermutation(order, |before|) && Scanned(before, hosts, order, outcomes, i)
      requires buffer == Missed(order, outcomes, i)
      modifies this`hosts
      ensures AllCoherent(hosts) && Settled(before, hosts, order, outcomes, i)
    {
      ghost var scanned := hosts;
      RecordSuccess(order[i]);
      FailAll(buffer, outcomes(order[i]).at, order, outcomes, i);
      ScanSettles(before, scanned, hosts, order, outcomes, i);
    }

    /** Everyone was asked and nobody answered. */
    method SettleAbsent(buffer: seq<nat>, order: seq<nat>, outcomes: nat -> Outcome, ghost before: Hosts)
      requires Decisive(order, outcomes, 0) == |order|
      requires AllCoherent(hosts) && IsPermutation(order, |before|) && Scanned(before, hosts, order, outcomes, |order|)
      requires buffer == Missed(order, outcomes, |order|)
      modifies this`hosts
      ensures AllCoherent(hosts) && Settled(before, hosts, order, outcomes, |order|)
    {
      ghost var scanned := hosts;
      ResetAll(buffer, order, outcomes, |order|);
      ScanSettles(before, scanned, hosts, order, outcomes, |order|);
    }

    /** One query. `asked` records which hosts were asked, in order. */
    method QueryTxtRecord(name: string, now: nat, outcomes: nat -> Outcome)
      returns (reply: Reply, ghost asked: seq<nat>)
      requires Valid()
      modifies this`hosts
      ensures Valid() && |hosts| == |old(hosts)|
      ensures name == "" ==> reply == InvalidName && asked == [] && hosts == old(hosts)
      ensures name != "" ==>
        var order := Order(old(hosts), threshold, cooldown, now);
        var d := Decisive(order, outcomes, 0);
        && IsPermutation(order, |hosts|)
        && asked == order[..if d < |order| then d + 1 else d]
        && reply == ReplyAt(order, outcomes, d)
        && Settled(old(hosts), hosts, order, outcomes, d)
    {
      if name == "" {
        return InvalidName, [];
      }
      var order := OrderedHosts(now);
      OrderSpec(hosts, threshold, cooldown, now);
      reply, asked := AskInOrder(order, outcomes);
    }

    /** The oracle rule: a real answer convicts every host that had denied the
        name. */
    method FailAll(buffer: seq<nat>, at: nat, ghost order: seq<nat>, ghost outcomes: nat -> Outcome, ghost i: nat)
      requires IsPermutation(order, |hosts|) && i <= |order| && buffer == Missed(order, outcomes, i)
      requires AllCoherent(hosts)
      modifies this`hosts
      ensures |hosts| == |old(hosts)| && AllCoherent(hosts)
      ensures forall p :: 0 <= p < |order| ==>
        order[p] < |hosts|
        && hosts[order[p]] == if p < i && outcomes(order[p]).NotFound? then Failed(old(hosts)[order[p]], at)
                              else old(hosts)[order[p]]
    {
      MissedSpec(order, outcomes, i);
      assert forall p :: 0 <= p < |order| ==> order[p] in order;
      for b := 0 to |buffer|
        invariant |hosts| == |old(hosts)| && AllCoherent(hosts)
        invariant forall h :: 0 <= h < |hosts| ==>
          hosts[h] == if h in buffer[..b] then Failed(old(hosts)[h], at) else old(hosts)[h]
      {
        assert buffer[b] in buffer;
        assert buffer[..b + 1] == buffer[..b] + [buffer[b]];
        assert buffer[b] !in buffer[..b];
        RecordFailure(buffer[b], at);
      }
      assert buffer[..|buffer|] == buffer;
    }

    /** Nobody had an answer: for the hosts that said so this counts as health. */
    method ResetAll(buffer: seq<nat>, ghost order: seq<nat>, ghost outcomes: nat -> Outcome, ghost i: nat)
      requires IsPermutation(order, |hosts|) && i <= |order| && buffer == Missed(order, outcomes, i)
      requires AllCoherent(hosts)
      modifies this`hosts
      ensures |hosts| == |old(hosts)| && AllCoherent(hosts)
      ensures forall p :: 0 <= p < |order| ==>
        order[p] < |hosts|
        && hosts[order[p]] == if p < i && outcomes(order[p]).NotFound? then HEALTHY else old(hosts)[order[p]]
    {
      MissedSpec(order, outcomes, i);
      assert forall p :: 0 <= p < |order| ==> order[p] in order;
      for b := 0 to |buffer|
        invariant |hosts| == |old(hosts)| && AllCoherent(hosts)
        invariant forall h :: 0 <= h < |hosts| ==> hosts[h] == if h in buffer[..b] then HEALTHY else old(hosts)[h]
      {
        assert buffer[b] in buffer;
        assert buffer[..b + 1] == buffer[..b] + [buffer[b]];
        RecordSuccess(buffer[b]);
      }
      assert buffer[..|buffer|] == buffer;
    }
  }

  /** The hosts before position `i` that said the name does not exist. */
  function Missed(order: seq<nat>, outcomes: nat -> Outcome, i: nat): seq<nat>
    requires i <= |order|
  {
    if i == 0 then []
    else Missed(order, outcomes, i - 1) + if outcomes(order[i - 1]).NotFound? then [order[i - 1]] else []
  }

  lemma {:induction false} MissedSpec(order: seq<nat>, outcomes: nat -> Outcome, i: nat)
    requires i <= |order|
    requires forall p, q :: 0 <= p < q < |order| ==> order[p] != order[q]
    ensures var m := Missed(order, outcomes, i);
      && (forall p :: 0 <= p < |order| ==> (order[p] in m <==> p < i && outcomes(order[p]).NotFound?))
      && (forall h :: h in m ==> h in order)
      && (forall a, b :: 0 <= a < b < |m| ==> m[a] != m[b])
  {
    if i > 0 {
      MissedSpec(order, outcomes, i - 1);
    }
  }

  /** Reading of `Decisive`: a query answers with the first real answer in order unless a
      bad name comes first, and finds nothing only if every host in the order denied
      the name or failed. */
  lemma FirstAnswerWins(order: seq<nat>, outcomes: nat -> Outcome)
    ensures var d := Decisive(order, outcomes, 0);
      && (d < |order| && outcomes(order[d]).Found? <==>
            exists p :: 0 <= p < |order| && outcomes(order[p]).Found?
                     && forall q :: 0 <= q < p ==> !outcomes(order[q]).Found? && !outcomes(order[q]).BadName?)
      && (d == |order| <==> forall p :: 0 <= p < |order| ==>
          outcomes(order[p]).NotFound? || outcomes(order[p]).Transport?)
  {
    var d := Decisive(order, outcomes, 0);
    forall p | 0 <= p < |order| && outcomes(order[p]).Found?
            && forall q :: 0 <= q < p ==> !outcomes(order[q]).Found? && !outcomes(order[q]).BadName?
      ensures p == d
    {
    }
  }

  /** Reading of `After`, the oracle rule in terms of the counters: an answer clears the host that gave
      it, counts against every host asked before it, and leaves the rest alone; if
      nobody answers, hosts that denied the name are cleared and hosts that failed
      are counted; a bad name clears and convicts nobody. */
  lemma OracleRule(before: Hosts, after: Hosts, order: seq<nat>, outcomes: nat -> Outcome, p: nat)
    requires p < |order| && Settled(before, after, order, outcomes, Decisive(order, outcomes, 0))
    ensures order[p] < |before| == |after|
    ensures var d := Decisive(order, outcomes, 0);
      var b, h, o := before[order[p]], after[order[p]], outcomes(order[p]);
      var found := d < |order| && outcomes(order[d]).Found?;
      && (p > d ==> h == b)
      && (p == d && found ==> h.failures == 0 && h.lastFailure.None?)
      && (p < d && (o.Transport? || found) ==>
          h.lastFailure.Some? && (h.failures == b.failures + 1 || h.failures == b.failures == U32_LIMIT - 1))
      && (p < d && o.Transport? ==> h.lastFailure == Some(o.at))
      && (p < d && o.NotFound? && found ==> h.lastFailure == Some(outcomes(order[d]).at))
      && (d == |order| && o.NotFound? ==> h.failures == 0 && h.lastFailure.None?)
      && (d < |order| && !found && o.NotFound? ==> h == b)
      && (p == d && !found ==> h == b)
  {
  }

  /** One query takes the health table from `before` to `after`, whatever the hosts
      answer and whenever it is made. */
  ghost predicate QueryStep(before: Hosts, after: Hosts, threshold: u32, cooldown: nat) {
    exists now: nat, outcomes: nat -> Outcome ::
      var order := Order(before, threshold, cooldown, now);
      Settled(before, after, order, outcomes, Decisive(order, outcomes, 0))
  }

  lemma QueryKeepsCoherent(before: Hosts, after: Hosts, threshold: u32, cooldown: nat)
    requires AllCoherent(before) && QueryStep(before, after, threshold, cooldown)
    ensures AllCoherent(after) && |after| == |before|
  {
    var now: nat, outcomes: nat -> Outcome :|
      var order := Order(before, threshold, cooldown, now);
      Settled(before, after, order, outcomes, Decisive(order, outcomes, 0));
    OrderSpec(before, threshold, cooldown, now);
    var order := Order(before, threshold, cooldown, now);
    SettledCoherent(before, after, order, outcomes, Decisive(order, outcomes, 0));
  }

  lemma SettledCoherent(before: Hosts, after: Hosts, order: seq<nat>, outcomes: nat -> Outcome, d: nat)
    requires d <= |order| && IsPermutation(order, |before|) && AllCoherent(before)
    requires Settled(before, after, order, outcomes, d)
    ensures AllCoherent(after)
  {
    forall h: nat | 0 <= h < |after| ensures Coherent(after[h]) {
      assert h in order;
      var p :| 0 <= p < |order| && order[p] == h;
      AfterCoherent(before[order[p]], order, outcomes, p, d);
    }
  }

  lemma AfterCoherent(h: Health, order: seq<nat>, outcomes: nat -> Outcome, p: nat, d: nat)
    requires p < |order| && d <= |order| && Coherent(h)
    ensures Coherent(After(h, order, outcomes, p, d))
  {
  }

  /** In every reachable state a host has a failure count exactly if it has a failure
      time. */
  lemma {:induction false} RunsStayCoherent(states: seq<Hosts>, threshold: u32, cooldown: nat)
    requires states != [] && AllCoherent(states[0])
    requires forall i :: 0 <= i < |states| - 1 ==> QueryStep(states[i], states[i + 1], threshold, cooldown)
    ensures forall i :: 0 <= i < |states| ==> AllCoherent(states[i]) && |states[i]| == |states[0]|
  {
    if |states| > 1 {
      assert QueryStep(states[0], states[0 + 1], threshold, cooldown);
      QueryKeepsCoherent(states[0], states[1], threshold, cooldown);
      forall i | 0 <= i < |states[1..]| - 1 ensures QueryStep(states[1..][i], states[1..][i + 1], threshold, cooldown) {
        assert QueryStep(states[i + 1], states[i + 1 + 1], threshold, cooldown);
      }
      RunsStayCoherent(states[1..], threshold, cooldown);
      assert forall i :: 1 <= i < |states| ==> states[i] == states[1..][i - 1];
    }
  }

  // Queries at the same time

  /** One query takes a host's lock and records how the host did. Queries that run at the
      same time interleave these steps in any way. */
  datatype Update = Success(host: nat) | Failure(host: nat, at: nat)

  function Updated(hosts: Hosts, u: Update): (r: Hosts)
    ensures |r| == |hosts|
  {
    if u.host >= |hosts| then hosts
    else hosts[u.host := if u.Success? then HEALTHY else Failed(hosts[u.host], u.at)]
  }

  function AfterUpdates(hosts: Hosts, updates: seq<Update>): (r: Hosts)
    ensures |r| == |hosts|
  {
    if updates == [] then hosts else Updated(AfterUpdates(hosts, updates[..|updates| - 1]), Last(updates))
  }

  function AllHealthy(n: nat): (r: Hosts)
    ensures |r| == n && forall h :: 0 <= h < n ==> r[h] == HEALTHY
  {
    seq(n, i => HEALTHY)
  }

  /** When the host failed since it last succeeded. */
  function Streak(updates: seq<Update>, h: nat): seq<nat> {
    if updates == [] then []
    else
      var before, last := Streak(updates[..|updates| - 1], h), Last(updates);
      if last.host != h then before else if last.Success? then [] else before + [last.at]
  }

  /** However the updates of concurrent queries interleave: a host's failure count is the
      number of its failures since it last succeeded, as far as the counter goes,
      and its failure time is that of the last of them. */
  lemma {:induction false} HealthIsStreak(n: nat, updates: seq<Update>, h: nat)
    requires h < n
    ensures var streak := Streak(updates, h);
      AfterUpdates(AllHealthy(n), updates)[h]
      == Health(if |streak| < U32_LIMIT then |streak| else U32_LIMIT - 1,
                if streak == [] then None else Some(Last(streak)))
    decreases |updates|
  {
    if updates != [] {
      HealthIsStreak(n, updates[..|updates| - 1], h);
    }
  }

  /** So it has a failure count exactly if it has a failure time, at every moment. */
  lemma InterleavedStaysCoherent(n: nat, updates: seq<Update>)
    ensures AllCoherent(AfterUpdates(AllHealthy(n), updates))
  {
    var hosts := AfterUpdates(AllHealthy(n), updates);
    forall h: nat | h < |hosts| ensures Coherent(hosts[h]) {
      HealthIsStreak(n, updates, h);
    }
  }
}
