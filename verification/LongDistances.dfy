/** How often a search improves a distance to one that does not fit an int. */
module LongDistances {
  import opened MachineWords
  import opened PriorityQueue
  import opened ShortestPaths
  import opened VertexLists
  import opened WeightedGraph

  predicate IsLong(d: nat) {
    0x7FFF_FFFF <= d < 0xFFFF_FFFF_FFFF_FFFF
  }

  /** The vertices whose distance is a long one. */
  function LongVertices(dist: seq<nat>): set<nat> {
    set v: nat | v < |dist| && IsLong(dist[v])
  }

  /** The edges over which a long walk leads from a vertex that is reached. */
  function LongEdges(edges: Edges, dist: seq<nat>): set<(nat, nat)> {
    set e | e in edges.Keys && e.0 < |dist| && dist[e.0] < 0xFFFF_FFFF_FFFF_FFFF && IsLong(dist[e.0] + edges[e])
  }

  /** Those of them that the search has looked at. */
  ghost function Seen(a: State): set<(nat, nat)> {
    set e | e in LongEdges(a.search.edges, a.search.dist) && e.0 in a.search.order
            && (e.0 != Last(a.search) || e.1 < a.scanned)
  }

  ghost predicate Counted(a: State) {
    |LongVertices(a.search.dist)| <= a.long <= |Seen(a)|
  }

  // ---------- Vertices ----------

  lemma SubsetSize<T>(a: set<T>, b: set<T>)
    requires a <= b
    ensures |a| <= |b|
  {
    var rest := b - a;
    assert b == a + rest;
  }

  lemma VertexCount(dist: seq<nat>, v: nat, d: nat)
    requires v < |dist|
    ensures |LongVertices(dist[v := d])| <= |LongVertices(dist)| + (if IsLong(d) then 1 else 0)
  {
    var before, after := LongVertices(dist), LongVertices(dist[v := d]);
    if IsLong(d) {
      SubsetSize(after, before + {v});
    } else {
      SubsetSize(after, before);
    }
  }

  // ---------- Steps ----------

  lemma VisitCounted(a: State, x: Node)
    requires StateInv(a) && CanStep(a, Visit(x)) && Counted(a)
    ensures Counted(Next(a, Visit(x)))
  {
    var n := Next(a, Visit(x));
    forall e | e in Seen(a)
      ensures e in Seen(n)
    {
      assert e.0 in a.search.order && e.0 != x.vertex;
      assert e.1 < |a.search.dist|;
    }
    SubsetSize(Seen(a), Seen(n));
  }

  lemma ScanCounted(a: State)
    requires StateInv(a) && CanStep(a, EndScan) && Counted(a)
    ensures Counted(Next(a, EndScan))
  {
    SubsetSize(Seen(a), Seen(Next(a, EndScan)));
  }

  lemma EdgeLength(a: State, v: nat) returns (d: nat)
    requires StateInv(a) && CanStep(a, Edge(v))
    ensures d == a.search.dist[Last(a.search)] + a.search.edges[(Last(a.search), v)] < 0xFFFF_FFFF_FFFF_FFFF
    ensures Next(a, Edge(v)) == AfterEdge(a, v, d)
  {
    d := a.search.dist[Last(a.search)] + a.search.edges[(Last(a.search), v)];
    NoWrap(a.search, v);
    ListIsShort(|a.search.dist|, a.search.order);
  }

  /** Looking at an edge changes no distance of a visited vertex. */
  lemma VisitedStay(a: State, v: nat, d: nat, u: nat)
    requires StateInv(a) && CanStep(a, Edge(v)) && u in a.search.order
    ensures u < |a.search.dist| && var n := AfterEdge(a, v, d);
      && n.search.dist[u] == a.search.dist[u] && n.search.order == a.search.order && n.search.edges == a.search.edges
      && |n.search.dist| == |a.search.dist| && n.scanned == v + 1 > a.scanned
  {
  }

  lemma SeenStays(a: State, v: nat, d: nat, f: (nat, nat))
    requires StateInv(a) && CanStep(a, Edge(v)) && f in Seen(a)
    ensures f in Seen(AfterEdge(a, v, d))
  {
    VisitedStay(a, v, d, f.0);
  }

  lemma EdgeIsSeen(a: State, v: nat, d: nat)
    requires StateInv(a) && CanStep(a, Edge(v)) && IsLong(d)
    requires d == a.search.dist[Last(a.search)] + a.search.edges[(Last(a.search), v)]
    ensures (Last(a.search), v) !in Seen(a) && (Last(a.search), v) in Seen(AfterEdge(a, v, d))
  {
    VisitedStay(a, v, d, Last(a.search));
  }

  lemma EdgeSeen(a: State, v: nat, d: nat)
    requires StateInv(a) && CanStep(a, Edge(v))
    requires d == a.search.dist[Last(a.search)] + a.search.edges[(Last(a.search), v)]
    ensures |Seen(AfterEdge(a, v, d))| >= |Seen(a)| + (if IsLong(d) then 1 else 0)
  {
    var n, e := AfterEdge(a, v, d), (Last(a.search), v);
    forall f | f in Seen(a)
      ensures f in Seen(n)
    {
      SeenStays(a, v, d, f);
    }
    if IsLong(d) {
      EdgeIsSeen(a, v, d);
      SubsetSize(Seen(a) + {e}, Seen(n));
    } else {
      SubsetSize(Seen(a), Seen(n));
    }
  }

  lemma EdgeCounted(a: State, v: nat)
    requires StateInv(a) && CanStep(a, Edge(v)) && Counted(a)
    ensures Counted(Next(a, Edge(v)))
  {
    var d := EdgeLength(a, v);
    EdgeSeen(a, v, d);
    if Improves(a.search, v, d) {
      VertexCount(a.search.dist, v, d);
    }
  }

  lemma StepCounted(a: State, action: Action)
    requires StateInv(a) && CanStep(a, action) && Counted(a)
    ensures Counted(Next(a, action))
  {
    match action
    case Drop(x) =>
    case Visit(x) => VisitCounted(a, x);
    case Edge(v) => EdgeCounted(a, v);
    case EndScan => ScanCounted(a);
  }

  // ---------- Runs ----------

  lemma FirstCounted(edges: Edges, start: nat, n: nat)
    requires start < n
    ensures Counted(First(edges, start, n))
  {
    var a := First(edges, start, n);
    assert LongVertices(a.search.dist) == {};
  }

  lemma {:induction false} RunCounted(run: seq<State>)
    requires IsRun(run) && StateInv(run[0]) && Counted(run[0])
    ensures Counted(run[|run| - 1])
    decreases |run|
  {
    if |run| > 1 {
      RunCounted(Front(run));
      RunInv(Front(run));
      var a, b := run[|run| - 2], run[|run| - 1];
      var action :| CanStep(a, action) && Next(a, action) == b;
      StepCounted(a, action);
    }
  }

  /**
   * However the search goes, it counts at least one improvement for every vertex that is long away, and at most one for
   * every edge over which a long walk leads on.
   */
  lemma LongIsBounded(edges: Edges, start: nat, n: nat, a: State)
    requires start < n < 0x8000_0000 && EdgesOk(n, edges) && Reachable(edges, start, n, a)
    ensures |LongVertices(a.search.dist)| <= a.long <= |LongEdges(edges, a.search.dist)|
  {
    var run :| IsRun(run) && run[0] == First(edges, start, n) && run[|run| - 1] == a;
    BegunInv(edges, start, n);
    FirstCounted(edges, start, n);
    RunCounted(run);
    RunKeepsGraph(run, edges, start, n);
    SubsetSize(Seen(a), LongEdges(edges, a.search.dist));
  }
}
