/**
 The stable sort behind `sort_by_key`, as a function, with the three facts that
 characterise it: it is a permutation, it is sorted, and elements with equal
 keys keep their order.
 */
module StableSort {

  ghost predicate SortedBy<T>(s: seq<T>, key: T -> int) {
    forall i, j :: 0 <= i < j < |s| ==> key(s[i]) <= key(s[j])
  }

  /** The elements of `s` whose key is `k`, in their order in `s`. */
  ghost function WithKey<T>(s: seq<T>, key: T -> int, k: int): seq<T> {
    if s == [] then []
    else (if key(s[0]) == k then [s[0]] else []) + WithKey(s[1..], key, k)
  }

  /** `t` is what a stable sort of `s` returns. */
  ghost predicate IsStableSort<T>(s: seq<T>, key: T -> int, t: seq<T>) {
    && multiset(t) == multiset(s)
    && SortedBy(t, key)
    && forall k :: WithKey(t, key, k) == WithKey(s, key, k)
  }

  function Insert<T>(x: T, s: seq<T>, key: T -> int): (r: seq<T>)
    ensures |r| == |s| + 1
  {
    if s == [] || key(x) <= key(s[0]) then [x] + s
    else [s[0]] + Insert(x, s[1..], key)
  }

  function Sort<T>(s: seq<T>, key: T -> int): (r: seq<T>)
    ensures |r| == |s|
  {
    if s == [] then [] else Insert(s[0], Sort(s[1..], key), key)
  }

  lemma {:induction false} InsertElements<T>(x: T, s: seq<T>, key: T -> int)
    ensures multiset(Insert(x, s, key)) == multiset{x} + multiset(s)
  {
    if s == [] || key(x) <= key(s[0]) {
    } else {
      InsertElements(x, s[1..], key);
      assert s == [s[0]] + s[1..];
    }
  }

  lemma {:induction false} InsertSorted<T>(x: T, s: seq<T>, key: T -> int)
    requires SortedBy(s, key)
    ensures SortedBy(Insert(x, s, key), key)
  {
    if s == [] || key(x) <= key(s[0]) {
    } else {
      InsertSorted(x, s[1..], key);
      InsertElements(x, s[1..], key);
      var r := Insert(x, s[1..], key);
      forall j | 0 <= j < |r| ensures key(s[0]) <= key(r[j]) {
        assert r[j] in multiset(r);
        assert r[j] == x || r[j] in s[1..];
      }
    }
  }

  lemma {:induction false} InsertKeepsOrder<T>(x: T, s: seq<T>, key: T -> int, k: int)
    ensures WithKey(Insert(x, s, key), key, k) == WithKey([x] + s, key, k)
  {
    assert ([x] + s)[1..] == s;
    if s == [] || key(x) <= key(s[0]) {
    } else {
      InsertKeepsOrder(x, s[1..], key, k);
      assert ([x] + s[1..])[1..] == s[1..];
      var r := Insert(x, s[1..], key);
      assert ([s[0]] + r)[1..] == r;
    }
  }

  lemma {:induction false} SortSpec<T>(s: seq<T>, key: T -> int)
    ensures IsStableSort(s, key, Sort(s, key))
  {
    if s != [] {
      var r := Sort(s[1..], key);
      SortSpec(s[1..], key);
      InsertElements(s[0], r, key);
      InsertSorted(s[0], r, key);
      assert s == [s[0]] + s[1..];
      forall k ensures WithKey(Sort(s, key), key, k) == WithKey(s, key, k) {
        InsertKeepsOrder(s[0], r, key, k);
        assert ([s[0]] + r)[1..] == r;
      }
    }
  }

  /** The first element decides the start of its own key class. */
  lemma SameHead<T>(s: seq<T>, t: seq<T>, key: T -> int)
    requires s != [] && t != [] && multiset(s) == multiset(t)
    requires SortedBy(s, key) && SortedBy(t, key)
    requires forall k :: WithKey(s, key, k) == WithKey(t, key, k)
    ensures s[0] == t[0]
  {
    assert s[0] in multiset(t) && t[0] in multiset(s);
    assert s[0] in t && t[0] in s;
    assert key(s[0]) == key(t[0]);
    assert WithKey(s, key, key(s[0]))[0] == s[0];
    assert WithKey(t, key, key(s[0]))[0] == t[0];
  }

  /** Nothing else is a stable sort of `s`. */
  lemma {:induction false} StableSortUnique<T>(s: seq<T>, t: seq<T>, key: T -> int)
    requires multiset(s) == multiset(t)
    requires SortedBy(s, key) && SortedBy(t, key)
    requires forall k :: WithKey(s, key, k) == WithKey(t, key, k)
    ensures s == t
    decreases |s|
  {
    assert |s| == |multiset(s)| == |multiset(t)| == |t|;
    if s != [] {
      SameHead(s, t, key);
      TailElements(s);
      TailElements(t);
      TailSorted(s, key);
      TailSorted(t, key);
      forall k ensures WithKey(s[1..], key, k) == WithKey(t[1..], key, k) {
        TailWithKey(s, key, k);
        TailWithKey(t, key, k);
      }
      StableSortUnique(s[1..], t[1..], key);
      assert s == [s[0]] + s[1..] && t == [t[0]] + t[1..];
    }
  }

  lemma TailElements<T>(s: seq<T>)
    requires s != []
    ensures multiset(s[1..]) == multiset(s) - multiset{s[0]}
  {
    assert s == [s[0]] + s[1..];
  }

  lemma TailSorted<T>(s: seq<T>, key: T -> int)
    requires s != [] && SortedBy(s, key)
    ensures SortedBy(s[1..], key)
  {
  }

  lemma TailWithKey<T>(s: seq<T>, key: T -> int, k: int)
    requires s != []
    ensures WithKey(s, key, k) == (if key(s[0]) == k then [s[0]] else []) + WithKey(s[1..], key, k)
    ensures WithKey(s[1..], key, k) == WithKey(s, key, k)[if key(s[0]) == k then 1 else 0..]
  {
  }

  /** Sorting a sorted sequence changes nothing. */
  lemma SortSorted<T>(s: seq<T>, key: T -> int)
    requires SortedBy(s, key)
    ensures Sort(s, key) == s
  {
    SortSpec(s, key);
    StableSortUnique(Sort(s, key), s, key);
  }

  lemma SortElements<T>(s: seq<T>, key: T -> int)
    ensures forall x :: x in Sort(s, key) <==> x in s
  {
    SortSpec(s, key);
    forall x ensures x in Sort(s, key) <==> x in s {
      assert x in Sort(s, key) <==> x in multiset(Sort(s, key));
      assert x in s <==> x in multiset(s);
    }
  }

  ghost predicate Distinct<T>(s: seq<T>) {
    forall i, j :: 0 <= i < j < |s| ==> s[i] != s[j]
  }

  lemma {:induction false} AtMostOnce<T>(s: seq<T>, x: T)
    requires Distinct(s)
    ensures multiset(s)[x] <= 1
  {
    if s != [] {
      assert s == [s[0]] + s[1..];
      AtMostOnce(s[1..], x);
      assert s[0] !in s[1..];
      assert s[0] !in multiset(s[1..]);
    }
  }

  /** Being free of repetitions does not depend on the order. */
  lemma DistinctInMultiset<T>(s: seq<T>, t: seq<T>)
    requires multiset(s) == multiset(t) && Distinct(s)
    ensures Distinct(t)
  {
    forall i, j | 0 <= i < j < |t| ensures t[i] != t[j] {
      if t[i] == t[j] {
        assert t == t[..i] + [t[i]] + t[i + 1..j] + [t[j]] + t[j + 1..];
        assert multiset(t)[t[i]] >= 2;
        AtMostOnce(s, t[i]);
      }
    }
  }

  // ---- positions ----

  lemma {:induction false} WithKeyHas<T>(s: seq<T>, key: T -> int, j: nat) returns (b: nat)
    requires j < |s|
    ensures b < |WithKey(s, key, key(s[j]))| && WithKey(s, key, key(s[j]))[b] == s[j]
  {
    if j == 0 {
      b := 0;
    } else {
      b := WithKeyHas(s[1..], key, j - 1);
      b := if key(s[0]) == key(s[j]) then b + 1 else b;
    }
  }

  lemma {:induction false} WithKeyKeeps<T>(s: seq<T>, key: T -> int, i: nat, j: nat) returns (a: nat, b: nat)
    requires i < j < |s| && key(s[i]) == key(s[j])
    ensures a < b < |WithKey(s, key, key(s[i]))|
    ensures WithKey(s, key, key(s[i]))[a] == s[i] && WithKey(s, key, key(s[i]))[b] == s[j]
  {
    if i == 0 {
      b := WithKeyHas(s[1..], key, j - 1);
      a, b := 0, b + 1;
    } else {
      a, b := WithKeyKeeps(s[1..], key, i - 1, j - 1);
      if key(s[0]) == key(s[i]) {
        a, b := a + 1, b + 1;
      }
    }
  }

  lemma {:induction false} WithKeyFrom<T>(s: seq<T>, key: T -> int, k: int, b: nat) returns (j: nat)
    requires b < |WithKey(s, key, k)|
    ensures j < |s| && s[j] == WithKey(s, key, k)[b] && key(s[j]) == k
  {
    if key(s[0]) == k && b == 0 {
      j := 0;
    } else {
      j := WithKeyFrom(s[1..], key, k, if key(s[0]) == k then b - 1 else b);
      j := j + 1;
    }
  }

  lemma {:induction false} WithKeyOrdered<T>(s: seq<T>, key: T -> int, k: int, a: nat, b: nat)
    returns (i: nat, j: nat)
    requires a < b < |WithKey(s, key, k)|
    ensures i < j < |s| && s[i] == WithKey(s, key, k)[a] && s[j] == WithKey(s, key, k)[b]
  {
    if key(s[0]) == k && a == 0 {
      j := WithKeyFrom(s[1..], key, k, b - 1);
      i, j := 0, j + 1;
    } else {
      var d := if key(s[0]) == k then 1 else 0;
      i, j := WithKeyOrdered(s[1..], key, k, a - d, b - d);
      i, j := i + 1, j + 1;
    }
  }

  /** Elements with equal keys come out in the order they came in. */
  lemma StableKeepsOrder<T>(s: seq<T>, key: T -> int, t: seq<T>, i: nat, j: nat) returns (p: nat, q: nat)
    requires IsStableSort(s, key, t) && i < j < |s| && key(s[i]) == key(s[j])
    ensures p < q < |t| && t[p] == s[i] && t[q] == s[j]
  {
    var a, b := WithKeyKeeps(s, key, i, j);
    assert WithKey(t, key, key(s[i])) == WithKey(s, key, key(s[i]));
    p, q := WithKeyOrdered(t, key, key(s[i]), a, b);
  }

  /** Elements with different keys come out by key. */
  lemma SmallerFirst<T>(s: seq<T>, key: T -> int, t: seq<T>, x: T, y: T) returns (p: nat, q: nat)
    requires IsStableSort(s, key, t) && x in s && y in s && key(x) < key(y)
    ensures p < q < |t| && t[p] == x && t[q] == y
  {
    assert x in multiset(t) && y in multiset(t);
    p :| p < |t| && t[p] == x;
    q :| q < |t| && t[q] == y;
  }
}
