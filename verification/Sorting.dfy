/** A stable sort by an integer key. */
module Sorting {

  function Insert<T>(key: T -> int, x: T, sorted: seq<T>): seq<T> {
    if sorted == [] || key(x) <= key(sorted[0]) then
      [x] + sorted
    else
      [sorted[0]] + Insert(key, x, sorted[1..])
  }

  function SortBy<T>(key: T -> int, xs: seq<T>): seq<T> {
    if xs == [] then [] else Insert(key, xs[0], SortBy(key, xs[1..]))
  }

  ghost predicate SortedBy<T>(key: T -> int, xs: seq<T>) {
    forall i, j :: 0 <= i < j < |xs| ==> key(xs[i]) <= key(xs[j])
  }

  ghost predicate StrictlySortedBy<T>(key: T -> int, xs: seq<T>) {
    forall i, j :: 0 <= i < j < |xs| ==> key(xs[i]) < key(xs[j])
  }

  lemma {:induction false} InsertMembers<T>(key: T -> int, x: T, sorted: seq<T>, y: T)
    ensures y in Insert(key, x, sorted) <==> y == x || y in sorted
  {
    if sorted != [] && key(x) > key(sorted[0]) {
      InsertMembers(key, x, sorted[1..], y);
      assert y in sorted <==> y == sorted[0] || y in sorted[1..];
    }
  }

  lemma {:induction false} InsertSorts<T>(key: T -> int, x: T, sorted: seq<T>)
    requires SortedBy(key, sorted)
    ensures SortedBy(key, Insert(key, x, sorted))
  {
    if sorted != [] && key(x) > key(sorted[0]) {
      var rest := Insert(key, x, sorted[1..]);
      InsertSorts(key, x, sorted[1..]);
      forall i | 0 <= i < |rest|
        ensures key(sorted[0]) <= key(rest[i])
      {
        InsertMembers(key, x, sorted[1..], rest[i]);
      }
    }
  }

  lemma {:induction false} SortSorts<T>(key: T -> int, xs: seq<T>)
    ensures SortedBy(key, SortBy(key, xs))
  {
    if xs != [] {
      SortSorts(key, xs[1..]);
      InsertSorts(key, xs[0], SortBy(key, xs[1..]));
    }
  }

  lemma {:induction false} SortMembers<T>(key: T -> int, xs: seq<T>, y: T)
    ensures y in SortBy(key, xs) <==> y in xs
  {
    if xs != [] {
      SortMembers(key, xs[1..], y);
      InsertMembers(key, xs[0], SortBy(key, xs[1..]), y);
    }
  }

  lemma {:induction false} InsertPermutes<T>(key: T -> int, x: T, sorted: seq<T>)
    ensures multiset(Insert(key, x, sorted)) == multiset{x} + multiset(sorted)
  {
    if sorted != [] && key(x) > key(sorted[0]) {
      InsertPermutes(key, x, sorted[1..]);
      HeadAndTail(sorted);
      assert Insert(key, x, sorted) == [sorted[0]] + Insert(key, x, sorted[1..]);
    }
  }

  lemma HeadAndTail<T>(xs: seq<T>)
    requires xs != []
    ensures multiset(xs) == multiset{xs[0]} + multiset(xs[1..])
  {
    assert xs == [xs[0]] + xs[1..];
  }

  lemma {:induction false} SortPermutes<T>(key: T -> int, xs: seq<T>)
    ensures multiset(SortBy(key, xs)) == multiset(xs)
  {
    if xs != [] {
      SortPermutes(key, xs[1..]);
      InsertPermutes(key, xs[0], SortBy(key, xs[1..]));
      HeadAndTail(xs);
    }
  }

  /** The elements with one key, in order. */
  ghost function WithKey<T>(key: T -> int, xs: seq<T>, k: int): seq<T> {
    if xs == [] then [] else (if key(xs[0]) == k then [xs[0]] else []) + WithKey(key, xs[1..], k)
  }

  lemma {:induction false} WithKeyCons<T>(key: T -> int, x: T, xs: seq<T>, k: int)
    ensures WithKey(key, [x] + xs, k) == (if key(x) == k then [x] else []) + WithKey(key, xs, k)
  {
    assert ([x] + xs)[1..] == xs;
  }

  lemma {:induction false} InsertIsStable<T>(key: T -> int, x: T, sorted: seq<T>, k: int)
    ensures WithKey(key, Insert(key, x, sorted), k) == (if key(x) == k then [x] else []) + WithKey(key, sorted, k)
  {
    if sorted != [] && key(x) > key(sorted[0]) {
      InsertIsStable(key, x, sorted[1..], k);
      WithKeyCons(key, sorted[0], Insert(key, x, sorted[1..]), k);
    } else {
      WithKeyCons(key, x, sorted, k);
    }
  }

  /** Elements with equal keys keep their order. */
  lemma {:induction false} SortIsStable<T>(key: T -> int, xs: seq<T>, k: int)
    ensures WithKey(key, SortBy(key, xs), k) == WithKey(key, xs, k)
  {
    if xs != [] {
      SortIsStable(key, xs[1..], k);
      InsertIsStable(key, xs[0], SortBy(key, xs[1..]), k);
    }
  }

  lemma {:induction false} SortKeepsSorted<T>(key: T -> int, xs: seq<T>)
    requires SortedBy(key, xs)
    ensures SortBy(key, xs) == xs
  {
    if xs != [] {
      SortKeepsSorted(key, xs[1..]);
    }
  }

  lemma SameFirst<T>(key: T -> int, xs: seq<T>, ys: seq<T>)
    requires SortedBy(key, xs) && StrictlySortedBy(key, ys) && xs != [] && ys != []
    requires multiset(xs) == multiset(ys)
    ensures xs[0] == ys[0]
  {
    assert xs[0] in multiset(ys) && ys[0] in multiset(xs);
    var i :| 0 <= i < |ys| && ys[i] == xs[0];
    var j :| 0 <= j < |xs| && xs[j] == ys[0];
    assert key(xs[0]) <= key(ys[0]) <= key(xs[0]);
  }

  /** A sorted sequence is determined by its elements if their keys differ. */
  lemma {:induction false} SortedUnique<T>(key: T -> int, xs: seq<T>, ys: seq<T>)
    requires SortedBy(key, xs) && StrictlySortedBy(key, ys)
    requires multiset(xs) == multiset(ys)
    ensures xs == ys
  {
    assert |multiset(xs)| == |xs| && |multiset(ys)| == |ys|;
    if xs != [] {
      SameFirst(key, xs, ys);
      HeadAndTail(xs);
      HeadAndTail(ys);
      assert multiset(xs[1..]) == multiset(xs) - multiset{xs[0]} == multiset(ys[1..]);
      SortedUnique(key, xs[1..], ys[1..]);
    }
  }
}
