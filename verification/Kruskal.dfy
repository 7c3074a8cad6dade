/** Kruskal's algorithm over a disjoint-set union whose links go in random directions. */
module Kruskal {
  import opened Sorting
  import opened SpanningTrees

  class Dsu {
    const link: array<nat>
    /** The representative of every element. */
    ghost var root: seq<nat>
    /** A height that grows along every link, up to a bound. */
    ghost var rank: seq<nat>
    ghost var bound: nat

    ghost predicate Valid()
      reads this, link
    {
      && link.Length == |root| == |rank|
      && (forall a :: 0 <= a < link.Length ==> ElementOk(a))
    }

    ghost predicate ElementOk(a: int)
      reads this, link
      requires link.Length == |root| == |rank| && 0 <= a < link.Length
    {
      && link[a] < link.Length && root[a] < link.Length && rank[a] <= bound
      && (link[a] == a ==> root[a] == a)
      && (link[a] != a ==> root[link[a]] == root[a] && rank[a] < rank[link[a]])
      && link[root[a]] == root[a]
    }

    constructor (size: nat)
      ensures Valid() && link.Length == size && root == Identity(size) && fresh(link)
    {
      link := new nat[size](a => a);
      root := Identity(size);
      rank := seq(size, _ => 0);
      bound := 0;
    }

    /** -1 stands for an element that is out of range. */
    method Find(a: nat) returns (r: int)
      requires Valid()
      ensures r == if a < link.Length then root[a] else -1
    {
      if a >= link.Length {
        return -1;
      }
      var cur: nat := a;
      while link[cur] != cur
        invariant cur < link.Length && root[cur] == root[a]
        decreases bound - rank[cur]
      {
        assert ElementOk(cur);
        assert ElementOk(link[cur]);
        cur := link[cur];
      }
      assert ElementOk(cur);
      r := cur;
    }

    /** Whichever of the two roots is linked below the other, exactly the two classes become one. */
    method Unite(a: nat, b: nat)
      requires Valid() && a < link.Length && b < link.Length
      modifies this, link
      ensures Valid()
      ensures |root| == |old(root)|
      ensures forall x, y :: 0 <= x < |root| && 0 <= y < |root| ==>
        (root[x] == root[y] <==> JoinedRoots(old(root), a, b, x, y))
    {
      var i := Find(a);
      var j := Find(b);
      var doSwap: bool := *;
      if doSwap {
        i, j := j, i;
      }
      assert ElementOk(a) && ElementOk(b) && ElementOk(i) && ElementOk(j);
      ghost var before := root;
      link[i] := j;
      root := seq(|before|, x requires 0 <= x < |before| => if before[x] == i then j else before[x]);
      if i != j && rank[j] <= rank[i] {
        rank := rank[j := rank[i] + 1];
        bound := bound + 1;
      }
      forall x | 0 <= x < link.Length
        ensures ElementOk(x)
      {
        assert old(ElementOk(x));
        assert old(ElementOk(root[x]));
      }
    }
  }

  /** Two elements are in one class after the classes of a and b are joined. */
  ghost predicate JoinedRoots(root: seq<nat>, a: nat, b: nat, x: nat, y: nat)
    requires a < |root| && b < |root| && x < |root| && y < |root|
  {
    || root[x] == root[y]
    || (root[x] == root[a] && root[y] == root[b])
    || (root[x] == root[b] && root[y] == root[a])
  }

  datatype ExitCode = Success | InvalidArgument | OutOfRange | NoSpanningTree

  class Graph {
    const vertCount: nat
    var edges: seq<Edge>

    ghost predicate Valid()
      reads this
    {
      vertCount > 0 && InRange(vertCount, edges)
    }

    constructor (vertexCount: nat)
      requires vertexCount > 0
      ensures Valid() && vertCount == vertexCount && edges == []
    {
      vertCount := vertexCount;
      edges := [];
    }

    method AddEdge(u: nat, v: nat, length: nat) returns (code: ExitCode)
      requires Valid()
      modifies this
      ensures Valid()
      ensures code == if u < vertCount && v < vertCount then Success else OutOfRange
      ensures edges == if code == Success then old(edges) + [Edge(u, v, length)] else old(edges)
    {
      if u >= vertCount || v >= vertCount {
        return OutOfRange;
      }
      edges := edges + [Edge(u, v, length)];
      return Success;
    }
  }

  // ---------- Sorting ----------

  predicate SortedByLength(es: seq<Edge>) {
    forall i, j :: 0 <= i < j < |es| ==> es[i].length <= es[j].length
  }

  /** qsort by length: any sorted permutation. */
  method SortByLength(es: seq<Edge>) returns (sorted: seq<Edge>)
    ensures SortedByLength(sorted) && multiset(sorted) == multiset(es)
  {
    sorted := SortBy(es, (e: Edge) => e.length);
  }

  lemma SameElements(es: seq<Edge>, fs: seq<Edge>, e: Edge)
    requires multiset(es) == multiset(fs)
    ensures e in es <==> e in fs
  {
    assert e in es <==> e in multiset(es);
    assert e in fs <==> e in multiset(fs);
  }

  // ---------- The main loop ----------

  /** The classes of the disjoint-set union are the components of the chosen edges. */
  ghost predicate SamePartition(n: nat, root: seq<nat>, chosen: seq<Edge>) {
    && |root| == n && InRange(n, chosen)
    && forall x, y :: 0 <= x < n && 0 <= y < n ==> (root[x] == root[y] <==> Same(n, chosen, x, y))
  }

  lemma PartitionAtStart(n: nat)
    ensures SamePartition(n, Identity(n), [])
  {
  }

  lemma PartitionAfterUnite(n: nat, root: seq<nat>, root': seq<nat>, chosen: seq<Edge>, e: Edge)
    requires SamePartition(n, root, chosen) && e.u < n && e.v < n && |root'| == n
    requires forall x :: 0 <= x < n ==> root[x] < n && root[root[x]] == root[x]
    requires forall x, y :: 0 <= x < n && 0 <= y < n ==>
      (root'[x] == root'[y] <==> JoinedRoots(root, root[e.u], root[e.v], x, y))
    ensures SamePartition(n, root', chosen + [e])
  {
    var labels := Labels(n, chosen);
    assert (chosen + [e])[..|chosen|] == chosen;
    assert Labels(n, chosen + [e]) == Merge(labels, e);
    forall x, y | 0 <= x < n && 0 <= y < n
      ensures root'[x] == root'[y] <==> Same(n, chosen + [e], x, y)
    {
      assert root[x] == root[y] <==> Same(n, chosen, x, y);
      assert root[x] == root[e.u] <==> Same(n, chosen, x, e.u);
      assert root[x] == root[e.v] <==> Same(n, chosen, x, e.v);
      assert root[y] == root[e.u] <==> Same(n, chosen, y, e.u);
      assert root[y] == root[e.v] <==> Same(n, chosen, y, e.v);
    }
  }

  /** What the loop knows after some edges of the sorted graph. */
  ghost predicate LoopInv(n: nat, es: seq<Edge>, done: nat, chosen: seq<Edge>) {
    && ChosenFrom(n, es, done, chosen)
    && (forall j :: 0 <= j < done ==> BridgedBy(n, chosen, es[j]))
    && Components(n, chosen) + |chosen| == n
  }

  /** The chosen edges come from the graph and are not longer than any edge still to come. */
  ghost predicate ChosenFrom(n: nat, es: seq<Edge>, done: nat, chosen: seq<Edge>) {
    && InRange(n, es) && SortedByLength(es) && done <= |es|
    && InRange(n, chosen)
    && (forall k :: 0 <= k < |chosen| ==> chosen[k] in es)
    && (forall k, j :: 0 <= k < |chosen| && done <= j < |es| ==> chosen[k].length <= es[j].length)
  }

  lemma {:induction false} UptoAll(es: seq<Edge>, w: nat)
    requires forall i :: 0 <= i < |es| ==> es[i].length <= w
    ensures Upto(es, w) == es
  {
    if es != [] {
      UptoAll(es[1..], w);
    }
  }

  lemma BridgedAfter(n: nat, chosen: seq<Edge>, e: Edge, f: Edge)
    requires InRange(n, chosen) && BridgedBy(n, chosen, f) && e.u < n && e.v < n
    ensures InRange(n, chosen + [e]) && BridgedBy(n, chosen + [e], f)
  {
    var before, after := Upto(chosen, f.length), Upto(chosen + [e], f.length);
    UptoInRange(n, chosen + [e], f.length);
    ConnectedIsSame(n, before, f.u, f.v);
    forall i | 0 <= i < |before|
      ensures before[i] in after
    {
      UptoElements(chosen, f.length, before[i]);
      UptoElements(chosen + [e], f.length, before[i]);
      assert before[i] in chosen + [e];
    }
    ConnectedMonotone(before, after, f.u, f.v);
    ConnectedIsSame(n, after, f.u, f.v);
  }

  /** An edge within a component is bridged as it is. */
  lemma SkipEdge(n: nat, es: seq<Edge>, i: nat, chosen: seq<Edge>)
    requires LoopInv(n, es, i, chosen) && i < |es| && Same(n, chosen, es[i].u, es[i].v)
    ensures LoopInv(n, es, i + 1, chosen)
  {
    UptoAll(chosen, es[i].length);
  }

  lemma TakeComponents(n: nat, chosen: seq<Edge>, e: Edge)
    requires InRange(n, chosen) && e.u < n && e.v < n && !Same(n, chosen, e.u, e.v)
    ensures InRange(n, chosen + [e]) && Components(n, chosen + [e]) + 1 == Components(n, chosen) >= 2
  {
    assert (chosen + [e])[..|chosen|] == chosen;
    MergeComponents(Labels(n, chosen), e);
    OneComponent(n, chosen + [e]);
  }

  lemma TakeBridges(n: nat, es: seq<Edge>, i: nat, chosen: seq<Edge>, j: nat)
    requires ChosenFrom(n, es, i, chosen) && j <= i < |es| && (j < i ==> BridgedBy(n, chosen, es[j]))
    ensures InRange(n, chosen + [es[i]]) && BridgedBy(n, chosen + [es[i]], es[j])
  {
    if j < i {
      BridgedAfter(n, chosen, es[i], es[j]);
    } else {
      NewEdgeBridged(n, chosen, es[i]);
    }
  }

  /** An edge between two components is taken. */
  lemma TakeEdge(n: nat, es: seq<Edge>, i: nat, chosen: seq<Edge>)
    requires LoopInv(n, es, i, chosen) && i < |es| && !Same(n, chosen, es[i].u, es[i].v)
    ensures LoopInv(n, es, i + 1, chosen + [es[i]])
    ensures |chosen| + 2 <= n
  {
    TakeComponents(n, chosen, es[i]);
    assert ChosenFrom(n, es, i + 1, chosen + [es[i]]);
    forall j | 0 <= j < i + 1
      ensures BridgedBy(n, chosen + [es[i]], es[j])
    {
      TakeBridges(n, es, i, chosen, j);
    }
  }

  lemma NewEdgeBridged(n: nat, chosen: seq<Edge>, e: Edge)
    requires InRange(n, chosen) && e.u < n && e.v < n
    requires forall k :: 0 <= k < |chosen| ==> chosen[k].length <= e.length
    ensures InRange(n, chosen + [e]) && BridgedBy(n, chosen + [e], e)
  {
    UptoAll(chosen + [e], e.length);
    EdgesShareLabels(n, chosen + [e], |chosen|);
  }

  /** Once everything is connected the edges left over are bridged too. */
  lemma EnoughEdges(n: nat, es: seq<Edge>, i: nat, chosen: seq<Edge>)
    requires LoopInv(n, es, i, chosen) && |chosen| + 1 == n
    ensures LoopInv(n, es, |es|, chosen)
  {
    OneComponent(n, chosen);
    forall j | i <= j < |es|
      ensures BridgedBy(n, chosen, es[j])
    {
      UptoAll(chosen, es[j].length);
      assert Connected(chosen, es[j].u, es[j].v);
      ConnectedIsSame(n, chosen, es[j].u, es[j].v);
    }
  }

  /** What the result means. */
  lemma LoopResult(n: nat, es: seq<Edge>, chosen: seq<Edge>)
    requires n > 0 && LoopInv(n, es, |es|, chosen)
    ensures |chosen| + 1 == n <==> AllConnected(n, es)
    ensures |chosen| + 1 <= n && Greedy(n, es, chosen)
    ensures |chosen| + 1 == n ==> IsSpanningTree(n, es, chosen)
  {
    OneComponent(n, chosen);
    OneComponent(n, es);
    forall e | e in es
      ensures BridgedBy(n, chosen, e)
    {
      var j :| 0 <= j < |es| && es[j] == e;
    }
    if |chosen| + 1 == n {
      forall x, y | 0 <= x < n && 0 <= y < n
        ensures Connected(es, x, y)
      {
        assert Connected(chosen, x, y);
        ConnectedMonotone(chosen, es, x, y);
      }
    }
    if AllConnected(n, es) {
      forall j | 0 <= j < |es|
        ensures Same(n, chosen, es[j].u, es[j].v)
      {
        assert BridgedBy(n, chosen, es[j]);
        var w := Longest(chosen) + es[j].length;
        MoreSame(n, chosen, es[j].length, w, es[j].u, es[j].v);
        UptoAll(chosen, w);
      }
      BridgedLabels(n, es, chosen);
    }
  }

  method FindSpanningTree(graph: Graph?, spanningTree: array?<Edge>) returns (code: ExitCode)
    requires graph != null ==> graph.Valid()
    requires graph != null && spanningTree != null ==> spanningTree.Length >= graph.vertCount - 1
    modifies graph, spanningTree
    ensures code == InvalidArgument <==> graph == null || spanningTree == null
    ensures graph != null && spanningTree != null ==>
      && multiset(graph.edges) == multiset(old(graph.edges))
      && (code == Success <==> AllConnected(graph.vertCount, old(graph.edges)))
      && (code == Success || code == NoSpanningTree)
    ensures code == Success ==>
      && IsSpanningTree(graph.vertCount, old(graph.edges), spanningTree[..graph.vertCount - 1])
      && forall tree :: IsSpanningTree(graph.vertCount, old(graph.edges), tree) ==>
           TotalLength(spanningTree[..graph.vertCount - 1]) <= TotalLength(tree)
  {
    if graph == null || spanningTree == null {
      return InvalidArgument;
    }
    ghost var given := graph.edges;
    var n := graph.vertCount;
    var sorted := SortByLength(graph.edges);
    graph.edges := sorted;
    SortedInRange(n, given, sorted);
    var spanningEdges, chosen := ChooseEdges(n, sorted, spanningTree);
    LoopResult(n, sorted, chosen);
    Permuted(n, given, sorted, chosen);
    if spanningEdges < n - 1 {
      return NoSpanningTree;
    }
    return Success;
  }

  lemma SortedInRange(n: nat, es: seq<Edge>, fs: seq<Edge>)
    requires InRange(n, es) && multiset(es) == multiset(fs)
    ensures InRange(n, fs)
  {
    forall i | 0 <= i < |fs|
      ensures fs[i].u < n && fs[i].v < n
    {
      SameElements(es, fs, fs[i]);
    }
  }

  /** Sorting changes neither the connectivity nor the spanning trees of a graph. */
  lemma Permuted(n: nat, es: seq<Edge>, fs: seq<Edge>, chosen: seq<Edge>)
    requires InRange(n, es) && InRange(n, fs) && multiset(es) == multiset(fs)
    requires InRange(n, chosen) && Greedy(n, fs, chosen)
    ensures AllConnected(n, es) <==> AllConnected(n, fs)
    ensures IsSpanningTree(n, fs, chosen) ==> IsSpanningTree(n, es, chosen)
    ensures |chosen| + 1 == n ==>
      forall tree :: IsSpanningTree(n, es, tree) ==> TotalLength(chosen) <= TotalLength(tree)
  {
    forall e
      ensures e in es <==> e in fs
    {
      SameElements(es, fs, e);
    }
    forall x, y | 0 <= x < n && 0 <= y < n
      ensures Connected(es, x, y) <==> Connected(fs, x, y)
    {
      if Connected(es, x, y) {
        ConnectedMonotone(es, fs, x, y);
      }
      if Connected(fs, x, y) {
        ConnectedMonotone(fs, es, x, y);
      }
    }
    if |chosen| + 1 == n {
      forall tree | IsSpanningTree(n, es, tree)
        ensures TotalLength(chosen) <= TotalLength(tree)
      {
        GreedyIsShortest(n, fs, chosen, tree);
      }
    }
  }

  /** The test of one edge: its ends are united unless they are in one class already. */
  method JoinEnds(n: nat, subsets: Dsu, curEdge: Edge, ghost chosen: seq<Edge>) returns (joined: bool)
    requires subsets.Valid() && subsets.link.Length == n && SamePartition(n, subsets.root, chosen)
    requires curEdge.u < n && curEdge.v < n
    modifies subsets, subsets.link
    ensures subsets.Valid()
    ensures joined <==> !Same(n, chosen, curEdge.u, curEdge.v)
    ensures SamePartition(n, subsets.root, if joined then chosen + [curEdge] else chosen)
  {
    ghost var root := subsets.root;
    var uRoot := subsets.Find(curEdge.u);
    var vRoot := subsets.Find(curEdge.v);
    RootsOk(subsets);
    joined := uRoot != vRoot;
    if joined {
      subsets.Unite(uRoot, vRoot);
      PartitionAfterUnite(n, root, subsets.root, chosen, curEdge);
    }
  }

  /** The loop over the sorted edges. */
  method ChooseEdges(n: nat, es: seq<Edge>, spanningTree: array<Edge>)
    returns (spanningEdges: nat, ghost chosen: seq<Edge>)
    requires n > 0 && InRange(n, es) && SortedByLength(es) && spanningTree.Length >= n - 1
    modifies spanningTree
    ensures spanningEdges <= n - 1 && chosen == spanningTree[..spanningEdges] && LoopInv(n, es, |es|, chosen)
  {
    spanningEdges, chosen := 0, [];
    var subsets := new Dsu(n);
    PartitionAtStart(n);
    LoopStart(n, es);
    var i := 0;
    while i < |es|
      invariant 0 <= i <= |es| && spanningEdges <= n - 1 && chosen == spanningTree[..spanningEdges]
      invariant fresh(subsets) && fresh(subsets.link) && subsets.Valid() && subsets.link.Length == n
      invariant LoopInv(n, es, i, chosen) && SamePartition(n, subsets.root, chosen)
    {
      var joined := JoinEnds(n, subsets, es[i], chosen);
      if joined {
        TakeEdge(n, es, i, chosen);
        spanningTree[spanningEdges] := es[i];
        spanningEdges := spanningEdges + 1;
        chosen := chosen + [es[i]];
        assert chosen == spanningTree[..spanningEdges];
        if spanningEdges == n - 1 {
          EnoughEdges(n, es, i + 1, chosen);
          return;
        }
      } else {
        SkipEdge(n, es, i, chosen);
      }
      i := i + 1;
    }
  }

  lemma LoopStart(n: nat, es: seq<Edge>)
    requires InRange(n, es) && SortedByLength(es)
    ensures LoopInv(n, es, 0, [])
  {
    IdentityLabels(n);
  }

  lemma RootsOk(d: Dsu)
    requires d.Valid()
    ensures forall x :: 0 <= x < |d.root| ==> d.root[x] < |d.root| && d.root[d.root[x]] == d.root[x]
  {
    forall x | 0 <= x < |d.root|
      ensures d.root[x] < |d.root| && d.root[d.root[x]] == d.root[x]
    {
      assert d.ElementOk(x);
      assert d.ElementOk(d.root[x]);
    }
  }
}
