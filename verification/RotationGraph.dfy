/**
 The rotation chain as a graph problem: keys are nodes, a verified rotation is
 an edge carrying a sequence number, a verified revocation marks a node. This
 module has the walk as a function, the declarative meaning of "the current
 key", and the theorems that connect the two.
 */
module RotationGraph {
  import opened Prelude

  const MAX_ROTATION_HOPS := 4

  datatype Edge = Edge(oldSpk: Key32, newSpk: Key32, seqNo: u64)

  datatype Graph = Graph(edges: set<Edge>, revoked: set<Key32>)

  function Successors(g: Graph, k: Key32): set<Key32> {
    set e | e in g.edges && e.oldSpk == k :: e.newSpk
  }

  function Seqs(g: Graph, k: Key32): set<u64> {
    set e | e in g.edges && e.oldSpk == k :: e.seqNo
  }

  ghost predicate IsLeast(m: u64, s: set<u64>) {
    m in s && forall x :: x in s ==> m <= x
  }

  lemma {:induction false} LeastExists(s: set<u64>)
    requires s != {}
    ensures exists m :: IsLeast(m, s)
  {
    var m :| m in s;
    if s == {m} {
      assert IsLeast(m, s);
    } else {
      LeastExists(s - {m});
      var n :| IsLeast(n, s - {m});
      var r := if n < m then n else m;
      forall x | x in s ensures r <= x {
        assert x == m || x in s - {m};
      }
      assert IsLeast(r, s);
    }
  }

  /** The lowest sequence number among the rotations away from `k`. */
  ghost function LeastSeq(g: Graph, k: Key32): (m: u64)
    requires Successors(g, k) != {}
    ensures IsLeast(m, Seqs(g, k))
  {
    var next :| next in Successors(g, k);
    var e :| e in g.edges && e.oldSpk == k && e.newSpk == next;
    assert e.seqNo in Seqs(g, k);
    LeastExists(Seqs(g, k));
    var m :| IsLeast(m, Seqs(g, k));
    m
  }

  /** Every rotation away from `k` goes to `next`, and there is one. */
  ghost predicate OnlySuccessor(g: Graph, k: Key32, next: Key32) {
    Successors(g, k) == {next}
  }

  ghost predicate Distinct(p: seq<Key32>) {
    forall i, j :: 0 <= i < j < |p| ==> p[i] != p[j]
  }

  ghost predicate LinkedUp(g: Graph, p: seq<Key32>) {
    forall i :: 0 <= i < |p| - 1 ==> OnlySuccessor(g, p[i], p[i + 1])
  }

  /** Both keys were rotated away from, `b` with a higher number than `a`. */
  ghost predicate SeqBelow(g: Graph, a: Key32, b: Key32) {
    && Successors(g, a) != {}
    && Successors(g, b) != {}
    && LeastSeq(g, a) < LeastSeq(g, b)
  }

  ghost predicate SeqsRise(g: Graph, p: seq<Key32>) {
    forall i :: 0 <= i < |p| - 2 ==> SeqBelow(g, p[i], p[i + 1])
  }

  /** A path of at most four hops on which nothing is suspicious. */
  ghost predicate IsPath(g: Graph, p: seq<Key32>) {
    && 1 <= |p| <= MAX_ROTATION_HOPS + 1
    && LinkedUp(g, p)
    && SeqsRise(g, p)
    && Distinct(p)
    && (forall k :: k in p ==> k !in g.revoked)
  }

  /** A path of at least one hop that cannot be continued: the chain of custody
      from a pinned key to the key that replaced it. */
  ghost predicate IsChain(g: Graph, p: seq<Key32>) {
    IsPath(g, p) && 2 <= |p| && Successors(g, Last(p)) == {}
  }

  ghost predicate IsChainFromTo(g: Graph, p: seq<Key32>, pinned: Key32, head: Key32) {
    IsChain(g, p) && p[0] == pinned && Last(p) == head
  }

  /** The hop loop from a given head. With `guarded` false the visited-set test
      is left out. */
  ghost function Walk(g: Graph, guarded: bool, head: Key32, visited: set<Key32>, lastSeq: Option<u64>, hop: nat)
    : Option<Key32>
    requires hop <= MAX_ROTATION_HOPS
    decreases MAX_ROTATION_HOPS - hop
  {
    if Successors(g, head) == {} then
      if hop == 0 then None else Some(head)
    else if hop == MAX_ROTATION_HOPS then None
    else if !(exists next :: OnlySuccessor(g, head, next)) then None
    else
      var next :| OnlySuccessor(g, head, next);
      var m := LeastSeq(g, head);
      if lastSeq.Some? && m <= lastSeq.value then None
      else if next in g.revoked then None
      else if guarded && next in visited then None
      else Walk(g, guarded, next, visited + {next}, Some(m), hop + 1)
  }

  ghost function Resolve(g: Graph, pinned: Key32): Option<Key32> {
    if pinned in g.revoked then None else Walk(g, true, pinned, {pinned}, None, 0)
  }

  /** The same walk without the visited set. */
  ghost function ResolveUnguarded(g: Graph, pinned: Key32): Option<Key32> {
    if pinned in g.revoked then None else Walk(g, false, pinned, {pinned}, None, 0)
  }

  /** The walk resumed at the end of a path it has already taken. */
  ghost function WalkOn(g: Graph, guarded: bool, p: seq<Key32>): Option<Key32>
    requires IsPath(g, p)
  {
    var lastSeq := if |p| == 1 then None
                   else (assert OnlySuccessor(g, p[|p| - 2], p[|p| - 1]); Some(LeastSeq(g, p[|p| - 2])));
    Walk(g, guarded, Last(p), Elements(p), lastSeq, |p| - 1)
  }

  /** One turn of the loop. */
  lemma WalkTurn(g: Graph, guarded: bool, head: Key32, visited: set<Key32>, lastSeq: Option<u64>, hop: nat, next: Key32)
    requires hop < MAX_ROTATION_HOPS && OnlySuccessor(g, head, next)
    ensures next in Successors(g, head)
    ensures Walk(g, guarded, head, visited, lastSeq, hop)
         == if lastSeq.Some? && LeastSeq(g, head) <= lastSeq.value then None
            else if next in g.revoked || (guarded && next in visited) then None
            else Walk(g, guarded, next, visited + {next}, Some(LeastSeq(g, head)), hop + 1)
  {
    assert next in Successors(g, head);
    forall other | OnlySuccessor(g, head, other) ensures other == next {
      assert other in Successors(g, head);
    }
  }

  lemma DistinctGrows(p: seq<Key32>, next: Key32)
    requires Distinct(p)
    ensures Distinct(p + [next]) <==> next !in p
  {
    var q := p + [next];
    if Distinct(q) {
      forall j | 0 <= j < |p| ensures p[j] != next {
        assert q[j] != q[|p|];
      }
    }
  }

  lemma SeqsGrow(g: Graph, p: seq<Key32>, next: Key32)
    requires LinkedUp(g, p) && SeqsRise(g, p) && p != [] && OnlySuccessor(g, Last(p), next)
    ensures LinkedUp(g, p + [next])
    ensures |p| >= 2 ==> OnlySuccessor(g, p[|p| - 2], Last(p))
    ensures SeqsRise(g, p + [next]) <==> (|p| >= 2 ==> LeastSeq(g, p[|p| - 2]) < LeastSeq(g, Last(p)))
  {
    var q := p + [next];
    assert LinkedUp(g, q);
    if |p| >= 2 {
      assert OnlySuccessor(g, p[|p| - 2], p[|p| - 1]);
      assert q[|q| - 3] == p[|p| - 2] && q[|q| - 2] == Last(p);
      assert SeqBelow(g, p[|p| - 2], Last(p)) <==> LeastSeq(g, p[|p| - 2]) < LeastSeq(g, Last(p));
      if SeqsRise(g, q) {
        assert SeqBelow(g, q[|q| - 3], q[|q| - 3 + 1]);
      }
      forall i | 0 <= i < |p| - 2 ensures SeqBelow(g, q[i], q[i + 1]) {
        assert SeqBelow(g, p[i], p[i + 1]);
      }
    }
  }

  /** When a path goes on with one more key. */
  lemma PathGrows(g: Graph, p: seq<Key32>, next: Key32)
    requires IsPath(g, p) && |p| <= MAX_ROTATION_HOPS && OnlySuccessor(g, Last(p), next)
    ensures |p| >= 2 ==> OnlySuccessor(g, p[|p| - 2], Last(p))
    ensures IsPath(g, p + [next]) <==>
      next !in g.revoked && next !in p && (|p| >= 2 ==> LeastSeq(g, p[|p| - 2]) < LeastSeq(g, Last(p)))
  {
    DistinctGrows(p, next);
    SeqsGrow(g, p, next);
    assert next in p + [next];
  }

  /** One turn of the loop either stops or lengthens the path by one key. */
  lemma WalkStep(g: Graph, guarded: bool, p: seq<Key32>, next: Key32)
    requires IsPath(g, p) && |p| <= MAX_ROTATION_HOPS
    requires OnlySuccessor(g, Last(p), next)
    ensures IsPath(g, p + [next]) ==> WalkOn(g, guarded, p) == WalkOn(g, guarded, p + [next])
    ensures !IsPath(g, p + [next]) && (guarded || next !in p) ==> WalkOn(g, guarded, p) == None
  {
    assert Elements(p + [next]) == Elements(p) + {next};
    PathGrows(g, p, next);
    var lastSeq := if |p| == 1 then None else Some(LeastSeq(g, p[|p| - 2]));
    WalkTurn(g, guarded, Last(p), Elements(p), lastSeq, |p| - 1, next);
  }

  /** A chain is walked to its end. */
  lemma WalkEnds(g: Graph, c: seq<Key32>)
    requires IsChain(g, c)
    ensures WalkOn(g, true, c) == Some(Last(c))
  {
  }

  lemma {:induction false} WalkFindsChain(g: Graph, p: seq<Key32>)
    requires IsPath(g, p) && WalkOn(g, true, p).Some?
    ensures exists c :: IsChainFromTo(g, c, p[0], WalkOn(g, true, p).value)
    decreases MAX_ROTATION_HOPS + 1 - |p|
  {
    if Successors(g, Last(p)) == {} {
      assert IsChainFromTo(g, p, p[0], Last(p));
    } else {
      var next :| OnlySuccessor(g, Last(p), next);
      WalkStep(g, true, p, next);
      WalkFindsChain(g, p + [next]);
    }
  }

  lemma PathPrefix(g: Graph, p: seq<Key32>, n: nat)
    requires IsPath(g, p) && 1 <= n <= |p|
    ensures IsPath(g, p[..n])
  {
    var q := p[..n];
    forall i | 0 <= i < |q| - 1 ensures OnlySuccessor(g, q[i], q[i + 1]) {
      assert OnlySuccessor(g, p[i], p[i + 1]);
    }
    forall i | 0 <= i < |q| - 2 ensures SeqBelow(g, q[i], q[i + 1]) {
      assert SeqBelow(g, p[i], p[i + 1]);
    }
  }

  lemma ChainStep(g: Graph, c: seq<Key32>, n: nat)
    requires IsChain(g, c) && 1 <= n < |c|
    ensures IsPath(g, c[..n]) && OnlySuccessor(g, Last(c[..n]), c[n]) && c[..n] + [c[n]] == c[..n + 1]
  {
    PathPrefix(g, c, n);
    assert OnlySuccessor(g, c[n - 1], c[n]);
  }

  lemma {:induction false} WalkFollowsChain(g: Graph, c: seq<Key32>, n: nat)
    requires IsChain(g, c) && 1 <= n <= |c|
    ensures IsPath(g, c[..n]) && WalkOn(g, true, c[..n]) == Some(Last(c))
    decreases |c| - n
  {
    PathPrefix(g, c, n);
    if n == |c| {
      assert c[..n] == c;
      WalkEnds(g, c);
    } else {
      ChainStep(g, c, n);
      WalkFollowsChain(g, c, n + 1);
      WalkStep(g, true, c[..n], c[n]);
    }
  }

  lemma ResolveIsWalk(g: Graph, pinned: Key32)
    requires pinned !in g.revoked
    ensures IsPath(g, [pinned])
    ensures Resolve(g, pinned) == WalkOn(g, true, [pinned])
    ensures ResolveUnguarded(g, pinned) == WalkOn(g, false, [pinned])
  {
    assert Elements([pinned]) == {pinned};
  }

  /** The walk answers `head` exactly when a chain of custody leads from the
      pinned key to `head`. */
  lemma ResolveIffChain(g: Graph, pinned: Key32, head: Key32)
    ensures Resolve(g, pinned) == Some(head) <==> exists c :: IsChainFromTo(g, c, pinned, head)
  {
    if Resolve(g, pinned) == Some(head) {
      ResolveIsWalk(g, pinned);
      WalkFindsChain(g, [pinned]);
    }
    forall c | IsChainFromTo(g, c, pinned, head) ensures Resolve(g, pinned) == Some(head) {
      assert c[0] in c;
      ResolveIsWalk(g, pinned);
      WalkFollowsChain(g, c, 1);
      assert c[..1] == [pinned];
    }
  }

  /** A path in a graph is the start of every chain from the same key in any
      larger graph. */
  lemma {:induction false} ChainsAgree(g: Graph, p: seq<Key32>, g': Graph, c: seq<Key32>, n: nat)
    requires g.edges <= g'.edges
    requires IsPath(g, p) && IsChain(g', c) && p[0] == c[0] && 1 <= n <= |p|
    ensures n <= |c| && c[..n] == p[..n]
  {
    if n > 1 {
      ChainsAgree(g, p, g', c, n - 1);
      assert OnlySuccessor(g, p[n - 2], p[n - 1]);
      SuccessorKept(g, g', p[n - 2], p[n - 1]);
      assert c[n - 2] == c[..n - 1][n - 2] == p[..n - 1][n - 2] == p[n - 2];
      assert n - 1 < |c|;
      assert OnlySuccessor(g', c[n - 2], c[n - 1]);
    }
  }

  lemma SuccessorKept(g: Graph, g': Graph, x: Key32, y: Key32)
    requires g.edges <= g'.edges && OnlySuccessor(g, x, y)
    ensures y in Successors(g', x)
  {
    assert y in Successors(g, x);
    var e :| e in g.edges && e.oldSpk == x && e.newSpk == y;
    assert e in g'.edges;
  }

  lemma ChainUnique(g: Graph, c: seq<Key32>, d: seq<Key32>)
    requires IsChain(g, c) && IsChain(g, d) && c[0] == d[0]
    ensures c == d
  {
    ChainsAgree(g, c, g, d, |c|);
    ChainsAgree(g, d, g, c, |d|);
    assert c == c[..|c|] && d == d[..|d|];
  }

  /** Sequence numbers rise over any number of hops, not just over one. */
  lemma {:induction false} SeqsRiseFar(g: Graph, p: seq<Key32>, i: nat, j: nat)
    requires LinkedUp(g, p) && SeqsRise(g, p) && i <= j < |p| - 1
    ensures OnlySuccessor(g, p[i], p[i + 1]) && OnlySuccessor(g, p[j], p[j + 1])
    ensures LeastSeq(g, p[i]) <= LeastSeq(g, p[j])
  {
    if i < j {
      SeqsRiseFar(g, p, i, j - 1);
      assert SeqBelow(g, p[j - 1], p[j]);
    }
  }

  lemma WalkBlocked(g: Graph, head: Key32, visited: set<Key32>, lastSeq: u64, hop: nat)
    requires hop <= MAX_ROTATION_HOPS && Successors(g, head) != {} && LeastSeq(g, head) <= lastSeq
    ensures Walk(g, false, head, visited, Some(lastSeq), hop) == None
  {
  }

  /** Re-entering an earlier key always fails: at the hop limit because that key
      has a successor, before it because that key's sequence number is not
      above the last one. */
  lemma ReentryFails(g: Graph, p: seq<Key32>, next: Key32)
    requires IsPath(g, p) && |p| <= MAX_ROTATION_HOPS
    requires OnlySuccessor(g, Last(p), next) && next in p
    ensures WalkOn(g, false, p) == None
  {
    var q := p + [next];
    var j :| 0 <= j < |p| && p[j] == next;
    assert LinkedUp(g, q);
    if |p| >= 2 {
      assert OnlySuccessor(g, p[|p| - 2], p[|p| - 1]);
      assert q[|q| - 3] == p[|p| - 2];
    }
    var lastSeq := if |p| == 1 then None else Some(LeastSeq(g, p[|p| - 2]));
    WalkTurn(g, false, Last(p), Elements(p), lastSeq, |p| - 1, next);
    if |p| == 1 || LeastSeq(g, p[|p| - 2]) < LeastSeq(g, Last(p)) {
      assert SeqsRise(g, q);
      SeqsRiseFar(g, q, j, |p| - 1);
      assert q[j + 1] in Successors(g, next);
      WalkBlocked(g, next, Elements(p) + {next}, LeastSeq(g, Last(p)), |p|);
    }
  }

  lemma {:induction false} GuardRedundantFrom(g: Graph, p: seq<Key32>)
    requires IsPath(g, p)
    ensures WalkOn(g, true, p) == WalkOn(g, false, p)
    decreases MAX_ROTATION_HOPS + 1 - |p|
  {
    if |p| <= MAX_ROTATION_HOPS && exists next :: OnlySuccessor(g, Last(p), next) {
      var next :| OnlySuccessor(g, Last(p), next);
      WalkStep(g, true, p, next);
      WalkStep(g, false, p, next);
      if IsPath(g, p + [next]) {
        GuardRedundantFrom(g, p + [next]);
      } else if next in p {
        ReentryFails(g, p, next);
      }
    }
  }

  /** Deleting the visited-set test changes no answer. */
  lemma VisitedSetRedundant(g: Graph, pinned: Key32)
    ensures Resolve(g, pinned) == ResolveUnguarded(g, pinned)
  {
    if pinned !in g.revoked {
      ResolveIsWalk(g, pinned);
      GuardRedundantFrom(g, [pinned]);
    }
  }

  ghost predicate SubGraph(g: Graph, g': Graph) {
    g.edges <= g'.edges && g.revoked <= g'.revoked
  }

  /** Learning more rotations and revocations never diverts trust to another
      branch: the answer is withdrawn, or it moves further along the same
      chain. */
  lemma GrowthNeverDiverts(g: Graph, g': Graph, pinned: Key32)
    requires SubGraph(g, g') && Resolve(g, pinned).Some? && Resolve(g', pinned).Some?
    ensures exists c, c' ::
      && IsChainFromTo(g, c, pinned, Resolve(g, pinned).value)
      && IsChainFromTo(g', c', pinned, Resolve(g', pinned).value)
      && c <= c'
  {
    ResolveIffChain(g, pinned, Resolve(g, pinned).value);
    ResolveIffChain(g', pinned, Resolve(g', pinned).value);
    var c :| IsChainFromTo(g, c, pinned, Resolve(g, pinned).value);
    var c' :| IsChainFromTo(g', c', pinned, Resolve(g', pinned).value);
    ChainsAgree(g, c, g', c', |c|);
    assert c == c[..|c|];
    assert c <= c';
  }

  /** Extra revocations alone keep the answer or withdraw it, and they withdraw
      it exactly when they hit a key of the chain. */
  lemma RevocationOnlyWithdraws(g: Graph, g': Graph, c: seq<Key32>)
    requires g.edges == g'.edges && g.revoked <= g'.revoked && IsChain(g, c)
    ensures Resolve(g', c[0]) == (if exists k :: k in c && k in g'.revoked then None else Some(Last(c)))
  {
    if exists k :: k in c && k in g'.revoked {
      RevocationWithdraws(g, g', c);
    } else {
      RevocationKeeps(g, g', c);
    }
  }

  lemma RevocationWithdraws(g: Graph, g': Graph, c: seq<Key32>)
    requires g.edges == g'.edges && g.revoked <= g'.revoked && IsChain(g, c)
    requires exists k :: k in c && k in g'.revoked
    ensures Resolve(g', c[0]) == None
  {
    assert forall k :: Successors(g, k) == Successors(g', k) && Seqs(g, k) == Seqs(g', k);
    var k :| k in c && k in g'.revoked;
    var i :| 0 <= i < |c| && c[i] == k;
    assert c[..|c|] == c;
    if Resolve(g', c[0]).Some? {
      ResolveIffChain(g', c[0], Resolve(g', c[0]).value);
      var c' :| IsChainFromTo(g', c', c[0], Resolve(g', c[0]).value);
      ChainsAgree(g, c, g', c', |c|);
      assert false;
    }
  }

  lemma RevocationKeeps(g: Graph, g': Graph, c: seq<Key32>)
    requires g.edges == g'.edges && g.revoked <= g'.revoked && IsChain(g, c)
    requires forall k :: k in c ==> k !in g'.revoked
    ensures Resolve(g', c[0]) == Some(Last(c))
  {
    assert forall k :: Successors(g, k) == Successors(g', k) && Seqs(g, k) == Seqs(g', k);
    forall i | 0 <= i < |c| - 1 ensures OnlySuccessor(g', c[i], c[i + 1]) {
      assert OnlySuccessor(g, c[i], c[i + 1]);
    }
    forall i | 0 <= i < |c| - 2 ensures SeqBelow(g', c[i], c[i + 1]) {
      assert SeqBelow(g, c[i], c[i + 1]);
      assert OnlySuccessor(g, c[i], c[i + 1]) && OnlySuccessor(g, c[i + 1], c[i + 2]);
    }
    assert IsChainFromTo(g', c, c[0], Last(c));
    ResolveIffChain(g', c[0], Last(c));
  }
}
