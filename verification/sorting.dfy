/** The library's stable sort. */
module Sorting {

  ghost predicate SortedBy<T(!new)>(xs: seq<T>, key: T -> int) {
    forall i, j :: 0 <= i < j < |xs| ==> key(xs[i]) <= key(xs[j])
  }

  function InsertAt<T>(xs: seq<T>, k: nat, x: T): (r: seq<T>)
    requires k <= |xs|
    ensures |r| == |xs| + 1
    ensures forall j :: 0 <= j < |r| ==> r[j] == if j < k then xs[j] else if j == k then x else xs[j - 1]
    ensures multiset(r) == multiset(xs) + multiset{x}
  {
    assert xs == xs[..k] + xs[k..];
    xs[..k] + [x] + xs[k..]
  }

  lemma InsertAtSorted<T(!new)>(xs: seq<T>, k: nat, x: T, key: T -> int)
    requires SortedBy(xs, key) && k <= |xs|
    requires k > 0 ==> key(xs[k - 1]) <= key(x)
    requires k < |xs| ==> key(xs[k]) > key(x)
    ensures SortedBy(InsertAt(xs, k, x), key)
  {
    var r := InsertAt(xs, k, x);
    forall i, j | 0 <= i < j < |r| ensures key(r[i]) <= key(r[j]) {
      assert r[i] == if i < k then xs[i] else if i == k then x else xs[i - 1];
      assert r[j] == if j < k then xs[j] else if j == k then x else xs[j - 1];
    }
  }

  /** The elements with a given key, in order. */
  ghost function WithKey<T>(xs: seq<T>, key: T -> int, v: int): seq<T> {
    if xs == [] then []
    else
      var n := |xs| - 1;
      WithKey(xs[..n], key, v) + if key(xs[n]) == v then [xs[n]] else []
  }

  lemma {:induction false} WithKeyJoin<T>(a: seq<T>, b: seq<T>, key: T -> int, v: int)
    ensures WithKey(a + b, key, v) == WithKey(a, key, v) + WithKey(b, key, v)
  {
    if b == [] {
      assert a + b == a;
    } else {
      var n := |b| - 1;
      WithKeyJoin(a, b[..n], key, v);
      assert (a + b)[..|a + b| - 1] == a + b[..n];
    }
  }

  lemma {:induction false} NoneWithKey<T>(xs: seq<T>, key: T -> int, v: int)
    requires forall i :: 0 <= i < |xs| ==> key(xs[i]) != v
    ensures WithKey(xs, key, v) == []
  {
    if xs != [] {
      NoneWithKey(xs[..|xs| - 1], key, v);
    }
  }

  lemma PassesGreater<T>(b: seq<T>, x: T, key: T -> int, v: int)
    requires forall i :: 0 <= i < |b| ==> key(b[i]) > key(x)
    ensures WithKey([x] + b, key, v) == WithKey(b + [x], key, v)
  {
    WithKeyJoin([x], b, key, v);
    WithKeyJoin(b, [x], key, v);
    if key(x) == v {
      NoneWithKey(b, key, v);
    } else {
      NoneWithKey([x], key, v);
    }
  }

  /** Equal elements stay in order: inserting before greater ones only is appending, key by key. */
  lemma InsertIsStable<T>(a: seq<T>, b: seq<T>, x: T, key: T -> int, v: int)
    requires forall i :: 0 <= i < |b| ==> key(b[i]) > key(x)
    ensures WithKey(a + ([x] + b), key, v) == WithKey(a + (b + [x]), key, v)
  {
    WithKeyJoin(a, [x] + b, key, v);
    PassesGreater(b, x, key, v);
    WithKeyJoin(a, b + [x], key, v);
  }

  /** Elements with equal keys come out in the order they went in. */
  ghost predicate SameOrder<T(!new)>(r: seq<T>, xs: seq<T>, key: T -> int) {
    forall v :: WithKey(r, key, v) == WithKey(xs, key, v)
  }

  lemma InsertKeepsOrder<T(!new)>(r: seq<T>, xs: seq<T>, k: nat, x: T, key: T -> int)
    requires SameOrder(r, xs, key) && SortedBy(r, key) && k <= |r| && (k < |r| ==> key(r[k]) > key(x))
    ensures SameOrder(InsertAt(r, k, x), xs + [x], key)
  {
    var a, b := r[..k], r[k..];
    assert InsertAt(r, k, x) == a + ([x] + b) && r + [x] == a + (b + [x]);
    forall v
      ensures WithKey(InsertAt(r, k, x), key, v) == WithKey(xs + [x], key, v)
    {
      InsertIsStable(a, b, x, key, v);
      WithKeyJoin(r, [x], key, v);
      WithKeyJoin(xs, [x], key, v);
    }
  }

  /** Put `x` behind every element that is not greater. */
  method InsertSorted<T(!new)>(r: seq<T>, x: T, key: T -> int, ghost xs: seq<T>) returns (next: seq<T>)
    requires multiset(r) == multiset(xs) && SortedBy(r, key) && SameOrder(r, xs, key)
    ensures multiset(next) == multiset(xs + [x]) && SortedBy(next, key) && SameOrder(next, xs + [x], key)
  {
    var k := |r|;
    while k > 0 && key(r[k - 1]) > key(x)
      invariant 0 <= k <= |r|
      invariant k < |r| ==> key(r[k]) > key(x)
    {
      k := k - 1;
    }
    InsertAtSorted(r, k, x, key);
    InsertKeepsOrder(r, xs, k, x, key);
    next := InsertAt(r, k, x);
  }

  method SortBy<T(!new)>(xs: seq<T>, key: T -> int) returns (r: seq<T>)
    ensures multiset(r) == multiset(xs)
    ensures SortedBy(r, key)
    ensures SameOrder(r, xs, key)
  {
    r := [];
    for n := 0 to |xs|
      invariant multiset(r) == multiset(xs[..n])
      invariant SortedBy(r, key)
      invariant SameOrder(r, xs[..n], key)
    {
      var next := InsertSorted(r, xs[n], key, xs[..n]);
      assert xs[..n + 1] == xs[..n] + [xs[n]];
      r := next;
    }
    assert xs[..|xs|] == xs;
  }

  /** Permutations have the same elements and the same length. */
  lemma SameElements<T>(a: seq<T>, b: seq<T>)
    requires multiset(a) == multiset(b)
    ensures |a| == |b|
    ensures forall x :: x in a <==> x in b
  {
    assert |a| == |multiset(a)| == |multiset(b)| == |b|;
    forall x ensures x in a <==> x in b {
      assert x in a <==> x in multiset(a);
    }
  }

  /** Pairwise distinct elements: every element of the multiset has multiplicity one. */
  ghost predicate Distinct<T>(xs: seq<T>) {
    forall i, j :: 0 <= i < j < |xs| ==> xs[i] != xs[j]
  }

  lemma {:induction false} DistinctCount<T>(xs: seq<T>, x: T)
    requires Distinct(xs)
    ensures multiset(xs)[x] == if x in xs then 1 else 0
  {
    if xs != [] {
      DistinctCount(xs[1..], x);
      assert xs == [xs[0]] + xs[1..];
      if x == xs[0] { assert x !in xs[1..]; }
    }
  }

  lemma {:induction false} CountDistinct<T>(xs: seq<T>)
    requires forall x :: multiset(xs)[x] <= 1
    ensures Distinct(xs)
  {
    forall i, j | 0 <= i < j < |xs| ensures xs[i] != xs[j] {
      assert xs == xs[..j] + [xs[j]] + xs[j + 1..];
      assert xs[i] in xs[..j];
      assert multiset(xs)[xs[i]] >= 1 + (if xs[i] == xs[j] then 1 else 0);
    }
  }

  /** Distinctness survives permutation. */
  lemma DistinctPermutation<T>(a: seq<T>, b: seq<T>)
    requires multiset(a) == multiset(b) && Distinct(a)
    ensures Distinct(b)
  {
    forall x ensures multiset(b)[x] <= 1 { DistinctCount(a, x); }
    CountDistinct(b);
  }
}
