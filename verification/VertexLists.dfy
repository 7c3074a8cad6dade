/** Lists of distinct vertices of a graph. */
module VertexLists {

  predicate IsListOf(n: nat, vs: seq<nat>) {
    && (forall i :: 0 <= i < |vs| ==> vs[i] < n)
    && (forall i, j :: 0 <= i < j < |vs| ==> vs[i] != vs[j])
  }

  lemma {:induction false} ListIsShort(n: nat, vs: seq<nat>)
    requires IsListOf(n, vs)
    ensures |vs| <= n
  {
    if vs != [] {
      assert vs[0] < n;
      if i :| 0 <= i < |vs| && vs[i] == n - 1 {
        ListIsShort(n - 1, vs[..i] + vs[i + 1..]);
      } else {
        ListIsShort(n - 1, vs);
      }
    }
  }

  /** A list of n distinct vertices has them all. */
  lemma FullListHasAll(n: nat, vs: seq<nat>, v: nat)
    requires IsListOf(n, vs) && |vs| == n && v < n
    ensures v in vs
  {
    if v !in vs {
      ListIsShort(n, vs + [v]);
    }
  }

  /** A list that has every vertex is at least as long as there are vertices. */
  lemma {:induction false} ListIsLong(n: nat, vs: seq<nat>)
    requires IsListOf(n, vs) && forall v :: 0 <= v < n ==> v in vs
    ensures |vs| >= n
  {
    if n > 0 {
      assert n - 1 in vs;
      var i :| 0 <= i < |vs| && vs[i] == n - 1;
      var rest := vs[..i] + vs[i + 1..];
      forall v | 0 <= v < n - 1
        ensures v in rest
      {
        assert v in vs;
        var j :| 0 <= j < |vs| && vs[j] == v;
        assert rest[if j < i then j else j - 1] == v;
      }
      ListIsLong(n - 1, rest);
    }
  }
}
