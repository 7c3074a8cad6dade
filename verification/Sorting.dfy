/** Sorting by a key. */
module Sorting {

  predicate SortedBy<T>(xs: seq<T>, key: T -> nat) {
    forall i, j :: 0 <= i < j < |xs| ==> key(xs[i]) <= key(xs[j])
  }

  function InsertBy<T>(x: T, xs: seq<T>, key: T -> nat): (r: seq<T>)
    requires SortedBy(xs, key)
    ensures SortedBy(r, key) && |r| == |xs| + 1
    ensures r[0] == x || (xs != [] && r[0] == xs[0])
  {
    if xs == [] || key(x) <= key(xs[0]) then [x] + xs else [xs[0]] + InsertBy(x, xs[1..], key)
  }

  lemma {:induction false} InsertIsPermutation<T>(x: T, xs: seq<T>, key: T -> nat)
    requires SortedBy(xs, key)
    ensures multiset(InsertBy(x, xs, key)) == multiset(xs) + multiset{x}
  {
    if xs != [] && key(x) > key(xs[0]) {
      InsertIsPermutation(x, xs[1..], key);
      assert xs == [xs[0]] + xs[1..];
    }
  }

  /** Stands for qsort, of which only this is known: a sorted permutation. */
  method SortBy<T>(xs: seq<T>, key: T -> nat) returns (sorted: seq<T>)
    ensures SortedBy(sorted, key) && multiset(sorted) == multiset(xs)
  {
    sorted := [];
    for n := 0 to |xs|
      invariant SortedBy(sorted, key) && multiset(sorted) == multiset(xs[..n])
    {
      assert xs[..n + 1] == xs[..n] + [xs[n]];
      InsertIsPermutation(xs[n], sorted, key);
      sorted := InsertBy(xs[n], sorted, key);
    }
    assert xs[..|xs|] == xs;
  }
}
