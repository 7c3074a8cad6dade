/** Sorted sequences of integers. */
module SortedSequences {

  predicate Sorted(vs: seq<int>) {
    forall i, j :: 0 <= i < j < |vs| ==> vs[i] <= vs[j]
  }

  lemma SortedWithHead(v: int, vs: seq<int>)
    requires Sorted(vs) && (vs != [] ==> v <= vs[0])
    ensures Sorted([v] + vs)
  {
    forall i, j | 0 <= i < j < |[v] + vs|
      ensures ([v] + vs)[i] <= ([v] + vs)[j]
    {
      if i == 0 {
        assert j > 1 ==> vs[0] <= vs[j - 1];
      } else {
        assert vs[i - 1] <= vs[j - 1];
      }
    }
  }
}
