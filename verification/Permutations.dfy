/** Reorderings of a list. */
module Permutations {

  ghost predicate Permutes<T>(a: seq<T>, b: seq<T>) {
    multiset(a) == multiset(b)
  }

  ghost predicate SameMembers<T(!new)>(a: seq<T>, b: seq<T>) {
    forall x :: x in a <==> x in b
  }

  lemma PermutesMembers<T(!new)>(a: seq<T>, b: seq<T>)
    requires Permutes(a, b)
    ensures SameMembers(a, b) && SameMembers(b, a)
  {
    forall x ensures x in a <==> x in b {
      assert x in multiset(a) <==> x in multiset(b);
    }
  }

  /** The list with its `i`-th element moved to the end. */
  ghost function MoveLast<T>(a: seq<T>, i: nat): (b: seq<T>)
    requires i < |a|
    ensures Permutes(b, a) && |b| == |a| && b[|b| - 1] == a[i]
  {
    assert a == a[..i] + [a[i]] + a[i + 1..];
    a[..i] + a[i + 1..] + [a[i]]
  }

  /** `rest` is the list without its `i`-th element, which is `x`. */
  ghost predicate TakenOut<T>(a: seq<T>, i: nat, x: T, rest: seq<T>) {
    i < |a| && a[i] == x && rest == a[..i] + a[i + 1..]
  }

  lemma TakenOutCount<T>(a: seq<T>, i: nat, x: T, rest: seq<T>)
    requires TakenOut(a, i, x, rest)
    ensures multiset(a) == multiset(rest) + multiset{x}
  {
    assert a == a[..i] + [a[i]] + a[i + 1..];
  }

  lemma TakeOut<T>(a: seq<T>, x: T) returns (i: nat, rest: seq<T>)
    requires x in a
    ensures TakenOut(a, i, x, rest)
  {
    i :| 0 <= i < |a| && a[i] == x;
    rest := a[..i] + a[i + 1..];
  }

  lemma TakeFirst<T>(a: seq<T>)
    requires a != []
    ensures TakenOut(a, 0, a[0], a[1..])
  {
    assert a[..0] + a[1..] == a[1..];
  }

  lemma PermutesHolds<T>(a: seq<T>, b: seq<T>, x: T)
    requires Permutes(a, b) && x in a
    ensures x in b
  {
    assert x in multiset(a);
  }

  lemma PermutesSym<T>(a: seq<T>, b: seq<T>)
    requires Permutes(a, b)
    ensures Permutes(b, a)
  {
  }

  /** Two lists permute each other exactly when they do after losing the same element. */
  lemma RestPermutes<T>(a: seq<T>, i: nat, b: seq<T>, j: nat, x: T, aRest: seq<T>, bRest: seq<T>)
    requires TakenOut(a, i, x, aRest) && TakenOut(b, j, x, bRest)
    ensures Permutes(a, b) <==> Permutes(aRest, bRest)
  {
    TakenOutCount(a, i, x, aRest);
    TakenOutCount(b, j, x, bRest);
    assert multiset(aRest) == multiset(a) - multiset{x} && multiset(bRest) == multiset(b) - multiset{x};
  }

  function Map<T, U>(f: T -> U, a: seq<T>): (r: seq<U>)
    ensures |r| == |a| && forall i :: 0 <= i < |a| ==> r[i] == f(a[i])
  {
    seq(|a|, i requires 0 <= i < |a| => f(a[i]))
  }

  lemma MapTakenOut<T, U>(f: T -> U, a: seq<T>, i: nat, x: T, rest: seq<T>)
    requires TakenOut(a, i, x, rest)
    ensures TakenOut(Map(f, a), i, f(x), Map(f, rest))
  {
    var r := Map(f, a);
    assert r[..i] + r[i + 1..] == Map(f, rest);
  }

  lemma {:induction false} MapPermutes<T, U>(f: T -> U, a: seq<T>, b: seq<T>)
    requires Permutes(a, b)
    ensures Permutes(Map(f, a), Map(f, b))
    decreases |a|
  {
    PermutesLength(a, b);
    if a != [] {
      hide *;
      var x, rest := a[0], a[1..];
      TakeFirst(a);
      PermutesHolds(a, b, x);
      var i, more := TakeOut(b, x);
      RestPermutes(a, 0, b, i, x, rest, more);
      MapPermutes(f, rest, more);
      MapTakenOut(f, a, 0, x, rest);
      MapTakenOut(f, b, i, x, more);
      RestPermutes(Map(f, a), 0, Map(f, b), i, f(x), Map(f, rest), Map(f, more));
    }
  }

  lemma SwapPermutes<T>(a: seq<T>, i: nat, j: nat)
    requires i < j < |a|
    ensures Permutes(a[i := a[j]][j := a[i]], a)
  {
    var b := a[i := a[j]];
    UpdateCount(a, i, a[j]);
    UpdateCount(b, j, a[i]);
    assert b[j] == a[j];
  }

  lemma UpdateCount<T>(a: seq<T>, i: nat, x: T)
    requires i < |a|
    ensures multiset(a[i := x]) + multiset{a[i]} == multiset(a) + multiset{x}
  {
    TakenOutCount(a, i, a[i], a[..i] + a[i + 1..]);
    var b := a[i := x];
    assert b[..i] + b[i + 1..] == a[..i] + a[i + 1..];
    TakenOutCount(b, i, x, a[..i] + a[i + 1..]);
  }

  // ---- sorting ----

  predicate Ordered<T>(key: T -> int, s: seq<T>) {
    forall i, j :: 0 <= i < j < |s| ==> key(s[i]) <= key(s[j])
  }

  lemma InsertOrdered<T>(key: T -> int, a: seq<T>, x: T, b: seq<T>)
    requires Ordered(key, a) && Ordered(key, b)
    requires a != [] ==> key(a[|a| - 1]) <= key(x)
    requires b != [] ==> key(x) <= key(b[0])
    ensures Ordered(key, a + [x] + b)
  {
    var s := a + [x] + b;
    assert forall i :: 0 <= i < |a| ==> s[i] == a[i] && key(a[i]) <= key(x);
    assert forall i :: |a| < i < |s| ==> s[i] == b[i - |a| - 1] && key(x) <= key(s[i]);
  }

  lemma InsertCount<T>(r: seq<T>, k: nat, x: T)
    requires k <= |r|
    ensures multiset(r[..k] + [x] + r[k..]) == multiset(r) + multiset{x}
  {
    var q := r[..k] + [x] + r[k..];
    assert q[..k] + q[k + 1..] == r;
    TakenOutCount(q, k, x, r);
  }

  method Insert<T>(key: T -> int, r: seq<T>, x: T) returns (q: seq<T>)
    requires Ordered(key, r)
    ensures Ordered(key, q) && multiset(q) == multiset(r) + multiset{x}
  {
    var k := |r|;
    while k > 0 && key(x) < key(r[k - 1])
      invariant 0 <= k <= |r|
      invariant k < |r| ==> key(x) < key(r[k])
    {
      k := k - 1;
    }
    q := r[..k] + [x] + r[k..];
    InsertCount(r, k, x);
    InsertOrdered(key, r[..k], x, r[k..]);
  }

  /** `sort.Slice` by an integer key: all that is used is that it yields some sorted permutation. */
  method SortBy<T>(key: T -> int, s: seq<T>) returns (r: seq<T>)
    ensures Ordered(key, r) && Permutes(r, s)
  {
    r := [];
    for i := 0 to |s|
      invariant Ordered(key, r) && Permutes(r, s[..i])
    {
      assert s[..i + 1] == s[..i] + [s[i]];
      r := Insert(key, r, s[i]);
    }
    assert s[..|s|] == s;
  }

  predicate Ascends(a: seq<int>) {
    forall i, j :: 0 <= i < j < |a| ==> a[i] <= a[j]
  }

  /** Numbers have one sorted order. */
  lemma {:induction false} OneOrder(a: seq<int>, b: seq<int>)
    requires Ascends(a) && Ascends(b) && Permutes(a, b)
    ensures a == b
    decreases |a|
  {
    PermutesLength(a, b);
    if a != [] {
      hide Permutes, TakenOut;
      var n := |a| - 1;
      PermutesHolds(a, b, a[n]);
      PermutesHolds(b, a, b[n]);
      assert a[n] == b[n];
      TakeLast(a);
      TakeLast(b);
      RestPermutes(a, n, b, n, a[n], a[..n], b[..n]);
      OneOrder(a[..n], b[..n]);
      assert a == a[..n] + [a[n]] && b == b[..n] + [b[n]];
    }
  }

  lemma PermutesLength<T>(a: seq<T>, b: seq<T>)
    requires Permutes(a, b)
    ensures |a| == |b|
  {
    assert |a| == |multiset(a)| == |multiset(b)| == |b|;
  }

  lemma TakeLast<T>(a: seq<T>)
    requires a != []
    ensures TakenOut(a, |a| - 1, a[|a| - 1], a[..|a| - 1])
  {
    var n := |a| - 1;
    assert a[..n] + a[n + 1..] == a[..n];
  }
}
