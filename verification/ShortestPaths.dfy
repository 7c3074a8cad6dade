/** Walks, shortest distances, and what a search with stale queue entries keeps. */
module ShortestPaths {
  import opened MachineWords
  import opened PriorityQueue
  import opened VertexLists
  import opened WeightedGraph

  const UINT64_MAX: nat := 0xFFFF_FFFF_FFFF_FFFF
  const INT_MAX: nat := 0x7FFF_FFFF

  // ---------- Walks ----------

  ghost predicate IsWalk(edges: Edges, walk: seq<nat>) {
    |walk| > 0 && forall i :: 0 <= i < |walk| - 1 ==> (walk[i], walk[i + 1]) in edges
  }

  ghost function WalkLength(edges: Edges, walk: seq<nat>): nat
    requires IsWalk(edges, walk)
  {
    if |walk| == 1 then 0 else WalkLength(edges, walk[..|walk| - 1]) + edges[(walk[|walk| - 2], walk[|walk| - 1])]
  }

  lemma ExtendWalk(edges: Edges, walk: seq<nat>, v: nat)
    requires IsWalk(edges, walk) && (walk[|walk| - 1], v) in edges
    ensures IsWalk(edges, walk + [v])
    ensures WalkLength(edges, walk + [v]) == WalkLength(edges, walk) + edges[(walk[|walk| - 1], v)]
  {
    assert (walk + [v])[..|walk|] == walk;
  }

  ghost predicate Leads(edges: Edges, walk: seq<nat>, from: nat, to: nat) {
    IsWalk(edges, walk) && walk[0] == from && walk[|walk| - 1] == to
  }

  /** d is the length of a shortest walk, or UINT64_MAX when there is no walk. */
  ghost predicate IsDistance(edges: Edges, from: nat, to: nat, d: nat) {
    if d == UINT64_MAX then
      forall walk :: !Leads(edges, walk, from, to)
    else
      && (exists walk :: Leads(edges, walk, from, to) && WalkLength(edges, walk) == d)
      && (forall walk :: Leads(edges, walk, from, to) ==> d <= WalkLength(edges, walk))
  }

  // ---------- The state of a search ----------

  /** The vertices visited so far, in order, with the distances and parents found so far. */
  datatype Search = Search(edges: Edges, start: nat, order: seq<nat>, dist: seq<nat>, parent: seq<nat>)

  function Last(s: Search): nat
    requires s.order != []
  {
    s.order[|s.order| - 1]
  }

  ghost predicate Shape(s: Search) {
    && s.start < |s.dist| == |s.parent| < 0x8000_0000
    && EdgesOk(|s.dist|, s.edges)
    && IsListOf(|s.dist|, s.order)
    && s.dist[s.start] == 0
    && forall i :: 0 <= i < |s.order| ==> s.dist[s.order[i]] != UINT64_MAX
  }

  /** The distance of v is that of its parent, visited before, plus one edge. */
  ghost predicate LinkOk(s: Search, earlier: seq<nat>, v: nat)
    requires v < |s.dist| == |s.parent|
  {
    if v == s.start then
      s.dist[v] == 0 && s.parent[v] == UINT64_MAX
    else
      && s.parent[v] in earlier && s.parent[v] < |s.dist|
      && (s.parent[v], v) in s.edges
      && s.dist[v] == s.dist[s.parent[v]] + s.edges[(s.parent[v], v)]
  }

  ghost predicate Linked(s: Search)
    requires Shape(s)
  {
    && (forall i {:trigger LinkOk(s, s.order[..i], s.order[i])} :: 0 <= i < |s.order| ==> LinkOk(s, s.order[..i], s.order[i]))
    && (forall v {:trigger LinkOk(s, s.order, v)} :: 0 <= v < |s.dist| && s.dist[v] != UINT64_MAX ==> LinkOk(s, s.order, v))
  }

  /** Visited vertices come in the order of their distances. */
  ghost predicate Ascending(s: Search)
    requires Shape(s)
  {
    forall i :: 0 <= i < |s.order| ==> s.dist[s.order[i]] <= s.dist[Last(s)]
  }

  /** No queued node is nearer than the last visited vertex or beats the distance it is for. */
  ghost predicate Queued(s: Search, queue: multiset<Node>)
    requires Shape(s)
  {
    forall x :: x in queue ==>
      && x.vertex < |s.dist| && s.dist[x.vertex] <= x.dist < UINT64_MAX
      && (s.order != [] ==> s.dist[Last(s)] <= x.dist)
  }

  /** A vertex that was reached but not visited is still queued with its distance. */
  ghost predicate Pending(s: Search, queue: multiset<Node>) {
    forall v :: 0 <= v < |s.dist| && s.dist[v] != UINT64_MAX && v !in s.order ==> Node(v, s.dist[v]) in queue
  }

  ghost predicate EdgeRelaxed(s: Search, u: nat, v: nat)
    requires u < |s.dist| && v < |s.dist|
  {
    (u, v) in s.edges ==> s.dist[v] <= s.dist[u] + s.edges[(u, v)]
  }

  /** Every edge from a visited vertex is relaxed, from the last one only those below scanned. */
  ghost predicate Relaxed(s: Search, scanned: nat)
    requires Shape(s)
  {
    && (forall i, v :: 0 <= i < |s.order| - 1 && 0 <= v < |s.dist| ==> EdgeRelaxed(s, s.order[i], v))
    && (s.order != [] ==> forall v :: 0 <= v < scanned && v < |s.dist| ==> EdgeRelaxed(s, Last(s), v))
  }

  /** No distance is long enough for 64-bit sums to wrap around. */
  ghost predicate Bounded(s: Search)
    requires Shape(s)
  {
    && (forall v :: 0 <= v < |s.dist| && s.dist[v] != UINT64_MAX ==> s.dist[v] <= UINT32_MAX * |s.order|)
    && (s.order != [] ==> s.dist[Last(s)] <= UINT32_MAX * (|s.order| - 1))
  }

  ghost predicate Inv(s: Search, scanned: nat, queue: multiset<Node>) {
    && Shape(s) && Linked(s) && Ascending(s) && Relaxed(s, scanned) && Bounded(s)
    && Queued(s, queue) && Pending(s, queue)
  }

  // ---------- Steps ----------

  function Begun(edges: Edges, start: nat, n: nat): Search
    requires start < n
  {
    Search(edges, start, [], seq(n, _ => UINT64_MAX)[start := 0], seq(n, _ => UINT64_MAX))
  }

  lemma BegunInv(edges: Edges, start: nat, n: nat)
    requires start < n < 0x8000_0000 && EdgesOk(n, edges)
    ensures Inv(Begun(edges, start, n), n, multiset{Node(start, 0)})
  {
  }

  /** A node whose vertex was visited before can be dropped. */
  lemma DroppedInv(s: Search, scanned: nat, queue: multiset<Node>, x: Node, rest: multiset<Node>)
    requires Inv(s, scanned, queue) && x.vertex in s.order && queue == rest + multiset{x}
    ensures Inv(s, scanned, rest)
  {
  }

  /** A nearest node of an unvisited vertex carries its distance. */
  lemma NearestIsCurrent(s: Search, queue: multiset<Node>, x: Node)
    requires Shape(s) && Queued(s, queue) && Pending(s, queue) && x in queue && x.vertex !in s.order
    requires forall y :: y in queue ==> x.dist <= y.dist
    ensures x.vertex < |s.dist| && x.dist == s.dist[x.vertex] != UINT64_MAX
  {
    assert Node(x.vertex, s.dist[x.vertex]) in queue;
  }

  function Visited(s: Search, u: nat): Search {
    s.(order := s.order + [u])
  }

  lemma VisitedShape(s: Search, u: nat)
    requires Shape(s) && u < |s.dist| && u !in s.order && s.dist[u] != UINT64_MAX
    ensures Shape(Visited(s, u))
  {
  }

  lemma VisitedLinked(s: Search, u: nat)
    requires Shape(s) && Shape(Visited(s, u)) && Linked(s)
    requires u < |s.dist| && s.dist[u] != UINT64_MAX
    ensures Linked(Visited(s, u))
  {
    var t := Visited(s, u);
    forall i | 0 <= i < |t.order|
      ensures LinkOk(t, t.order[..i], t.order[i])
    {
      if i < |s.order| {
        assert LinkOk(s, s.order[..i], s.order[i]);
        assert t.order[..i] == s.order[..i];
      } else {
        assert LinkOk(s, s.order, u);
        assert t.order[..i] == s.order;
      }
    }
    forall v | 0 <= v < |t.dist| && t.dist[v] != UINT64_MAX
      ensures LinkOk(t, t.order, v)
    {
      assert LinkOk(s, s.order, v);
    }
  }

  lemma VisitedRelaxed(s: Search, u: nat)
    requires Shape(s) && Shape(Visited(s, u)) && Relaxed(s, |s.dist|)
    ensures Relaxed(Visited(s, u), 0)
  {
    var t := Visited(s, u);
    forall i, v | 0 <= i < |t.order| - 1 && 0 <= v < |t.dist|
      ensures EdgeRelaxed(t, t.order[i], v)
    {
      assert i == |s.order| - 1 ==> t.order[i] == Last(s);
      assert EdgeRelaxed(s, s.order[i], v);
    }
  }

  lemma VisitedBounds(s: Search, u: nat)
    requires Shape(s) && Shape(Visited(s, u)) && Ascending(s) && Bounded(s) && u < |s.dist|
    requires s.order != [] ==> s.dist[Last(s)] <= s.dist[u]
    ensures Ascending(Visited(s, u)) && Bounded(Visited(s, u))
  {
  }

  lemma VisitedQueue(s: Search, queue: multiset<Node>, x: Node, rest: multiset<Node>)
    requires Shape(s) && Queued(s, queue) && Pending(s, queue) && queue == rest + multiset{x}
    requires x.vertex < |s.dist| && x.dist == s.dist[x.vertex] && Shape(Visited(s, x.vertex))
    requires forall y :: y in queue ==> x.dist <= y.dist
    ensures Queued(Visited(s, x.vertex), rest) && Pending(Visited(s, x.vertex), rest)
  {
  }

  lemma VisitedInv(s: Search, queue: multiset<Node>, x: Node, rest: multiset<Node>)
    requires Inv(s, |s.dist|, queue) && x.vertex !in s.order && queue == rest + multiset{x}
    requires forall y :: y in queue ==> x.dist <= y.dist
    ensures x.vertex < |s.dist| && x.dist == s.dist[x.vertex]
    ensures Inv(Visited(s, x.vertex), 0, rest)
  {
    assert x in queue;
    NearestIsCurrent(s, queue, x);
    VisitedShape(s, x.vertex);
    VisitedLinked(s, x.vertex);
    VisitedRelaxed(s, x.vertex);
    VisitedBounds(s, x.vertex);
    VisitedQueue(s, queue, x, rest);
  }

  /** The edge from the last visited vertex to v shortens the distance of v. */
  ghost predicate Shortens(s: Search, scanned: nat, v: nat, d: nat)
    requires Shape(s)
  {
    && s.order != [] && scanned <= v < |s.dist| && v !in s.order
    && (Last(s), v) in s.edges && d == s.dist[Last(s)] + s.edges[(Last(s), v)] < s.dist[v]
    && (forall x: nat :: scanned <= x < v ==> (Last(s), x) !in s.edges)
  }

  function Shortened(s: Search, v: nat, d: nat): Search
    requires s.order != [] && v < |s.dist| == |s.parent|
  {
    s.(dist := s.dist[v := d], parent := s.parent[v := Last(s)])
  }

  lemma ShortenedShape(s: Search, scanned: nat, v: nat, d: nat)
    requires Shape(s) && Bounded(s) && Shortens(s, scanned, v, d)
    ensures d <= UINT32_MAX * |s.order| < UINT64_MAX
    ensures Shape(Shortened(s, v, d))
  {
    ListIsShort(|s.dist|, s.order);
  }

  lemma ShortenedLinked(s: Search, scanned: nat, v: nat, d: nat)
    requires Shape(s) && Linked(s) && Shortens(s, scanned, v, d) && Shape(Shortened(s, v, d))
    ensures Linked(Shortened(s, v, d))
  {
    var t := Shortened(s, v, d);
    forall i | 0 <= i < |t.order|
      ensures LinkOk(t, t.order[..i], t.order[i])
    {
      assert LinkOk(s, s.order[..i], s.order[i]);
    }
    forall x | 0 <= x < |t.dist| && t.dist[x] != UINT64_MAX
      ensures LinkOk(t, t.order, x)
    {
      assert x != v ==> LinkOk(s, s.order, x);
    }
  }

  lemma ShortenedRelaxed(s: Search, scanned: nat, v: nat, d: nat)
    requires Shape(s) && Relaxed(s, scanned) && Shortens(s, scanned, v, d) && Shape(Shortened(s, v, d))
    ensures Relaxed(Shortened(s, v, d), v + 1)
  {
    var t := Shortened(s, v, d);
    forall i, x | 0 <= i < |t.order| - 1 && 0 <= x < |t.dist|
      ensures EdgeRelaxed(t, t.order[i], x)
    {
      assert EdgeRelaxed(s, s.order[i], x);
    }
    forall x | 0 <= x < v + 1
      ensures EdgeRelaxed(t, Last(t), x)
    {
      assert x < scanned ==> EdgeRelaxed(s, Last(s), x);
    }
  }

  lemma ShortenedBounds(s: Search, scanned: nat, v: nat, d: nat)
    requires Shape(s) && Ascending(s) && Bounded(s)
    requires Shortens(s, scanned, v, d) && Shape(Shortened(s, v, d)) && d <= UINT32_MAX * |s.order|
    ensures Ascending(Shortened(s, v, d)) && Bounded(Shortened(s, v, d))
  {
  }

  lemma ShortenedQueue(s: Search, scanned: nat, queue: multiset<Node>, v: nat, d: nat)
    requires Shape(s) && Queued(s, queue) && Pending(s, queue)
    requires Shortens(s, scanned, v, d) && Shape(Shortened(s, v, d)) && d < UINT64_MAX
    ensures Queued(Shortened(s, v, d), queue + multiset{Node(v, d)})
    ensures Pending(Shortened(s, v, d), queue + multiset{Node(v, d)})
  {
  }

  lemma ShortenedInv(s: Search, scanned: nat, queue: multiset<Node>, v: nat, d: nat)
    requires Inv(s, scanned, queue) && Shortens(s, scanned, v, d)
    ensures Inv(Shortened(s, v, d), v + 1, queue + multiset{Node(v, d)})
    ensures d < UINT64_MAX
  {
    ShortenedShape(s, scanned, v, d);
    ShortenedLinked(s, scanned, v, d);
    ShortenedRelaxed(s, scanned, v, d);
    ShortenedBounds(s, scanned, v, d);
    ShortenedQueue(s, scanned, queue, v, d);
  }

  /** Cells below v are passed over: none of them is an edge that shortens a distance. */
  lemma PassedInv(s: Search, scanned: nat, queue: multiset<Node>, v: nat)
    requires Inv(s, scanned, queue) && s.order != [] && scanned <= v <= |s.dist|
    requires forall x :: scanned <= x < v ==> EdgeRelaxed(s, Last(s), x)
    ensures Inv(s, v, queue)
  {
  }

  // ---------- Runs ----------

  /** long counts the improvements that came to a length beyond an int. */
  datatype State = State(search: Search, scanned: nat, queue: multiset<Node>, long: nat)

  datatype Action = Drop(node: Node) | Visit(node: Node) | Edge(v: nat) | EndScan

  ghost predicate IsNearest(queue: multiset<Node>, x: Node) {
    x in queue && forall y :: y in queue ==> x.dist <= y.dist
  }

  /** The next neighbour of the last visited vertex in the matrix. */
  ghost predicate NextCell(s: Search, scanned: nat, v: nat)
    requires s.order != []
  {
    && scanned <= v < |s.dist| && (Last(s), v) in s.edges
    && forall x: nat :: scanned <= x < v ==> (Last(s), x) !in s.edges
  }

  ghost predicate CanStep(a: State, action: Action) {
    match action
    case Drop(x) => a.scanned == |a.search.dist| && IsNearest(a.queue, x) && x.vertex in a.search.order
    case Visit(x) => a.scanned == |a.search.dist| && IsNearest(a.queue, x) && x.vertex !in a.search.order
    case Edge(v) =>
      && a.search.order != [] && |a.search.dist| == |a.search.parent| && Last(a.search) < |a.search.dist|
      && NextCell(a.search, a.scanned, v)
    case EndScan =>
      && a.search.order != [] && a.scanned <= |a.search.dist|
      && forall x: nat :: a.scanned <= x < |a.search.dist| ==> (Last(a.search), x) !in a.search.edges
  }

  predicate Improves(s: Search, v: nat, d: nat)
    requires v < |s.dist|
  {
    v !in s.order && d < s.dist[v]
  }

  /** A walk of length d over the last visited vertex to v is used if it is shorter. */
  function AfterEdge(a: State, v: nat, d: nat): State
    requires a.search.order != [] && v < |a.search.dist| == |a.search.parent|
  {
    if Improves(a.search, v, d) then
      State(Shortened(a.search, v, d), v + 1, a.queue + multiset{Node(v, d)}, a.long + (if d >= INT_MAX then 1 else 0))
    else
      a.(scanned := v + 1)
  }

  ghost function Next(a: State, action: Action): State
    requires CanStep(a, action)
  {
    match action
    case Drop(x) => a.(queue := a.queue - multiset{x})
    case Visit(x) => State(Visited(a.search, x.vertex), 0, a.queue - multiset{x}, a.long)
    case Edge(v) => AfterEdge(a, v, Uint64(a.search.dist[Last(a.search)] + a.search.edges[(Last(a.search), v)]))
    case EndScan => a.(scanned := |a.search.dist|)
  }

  ghost predicate StepsTo(a: State, b: State) {
    exists action :: CanStep(a, action) && Next(a, action) == b
  }

  function First(edges: Edges, start: nat, n: nat): State
    requires start < n
  {
    State(Begun(edges, start, n), n, multiset{Node(start, 0)}, 0)
  }

  ghost predicate IsRun(run: seq<State>) {
    |run| > 0 && forall i :: 0 <= i < |run| - 1 ==> StepsTo(run[i], run[i + 1])
  }

  /** Some run of the search on this graph ends in a. */
  ghost predicate Reachable(edges: Edges, start: nat, n: nat, a: State)
    requires start < n
  {
    exists run :: IsRun(run) && run[0] == First(edges, start, n) && run[|run| - 1] == a
  }

  lemma FirstReachable(edges: Edges, start: nat, n: nat)
    requires start < n
    ensures Reachable(edges, start, n, First(edges, start, n))
  {
    assert IsRun([First(edges, start, n)]);
  }

  lemma NextReachable(edges: Edges, start: nat, n: nat, a: State, action: Action) returns (b: State)
    requires start < n && Reachable(edges, start, n, a) && CanStep(a, action)
    ensures b == Next(a, action) && Reachable(edges, start, n, b)
    ensures SameGraph(edges, start, n, a) ==> SameGraph(edges, start, n, b)
  {
    b := Next(a, action);
    var run :| IsRun(run) && run[0] == First(edges, start, n) && run[|run| - 1] == a;
    var longer := run + [b];
    forall i | 0 <= i < |longer| - 1
      ensures StepsTo(longer[i], longer[i + 1])
    {
      if i < |run| - 1 {
        assert StepsTo(run[i], run[i + 1]);
      }
    }
    assert IsRun(longer) && longer[0] == First(edges, start, n) && longer[|longer| - 1] == b;
  }

  ghost predicate StateInv(a: State) {
    Inv(a.search, a.scanned, a.queue)
  }

  lemma DropInv(a: State, x: Node)
    requires StateInv(a) && CanStep(a, Drop(x))
    ensures StateInv(Next(a, Drop(x)))
  {
    DroppedInv(a.search, a.scanned, a.queue, x, a.queue - multiset{x});
  }

  lemma VisitInv(a: State, x: Node)
    requires StateInv(a) && CanStep(a, Visit(x))
    ensures StateInv(Next(a, Visit(x)))
  {
    VisitedInv(a.search, a.queue, x, a.queue - multiset{x});
  }

  lemma NoWrap(s: Search, v: nat)
    requires Shape(s) && Bounded(s) && s.order != [] && (Last(s), v) in s.edges
    ensures var d := s.dist[Last(s)] + s.edges[(Last(s), v)]; Uint64(d) == d
  {
    ListIsShort(|s.dist|, s.order);
  }

  /** A visited vertex is no farther than the last one. */
  lemma NotShorter(s: Search, v: nat)
    requires Shape(s) && Ascending(s) && s.order != [] && v < |s.dist|
    requires v in s.order || ((Last(s), v) in s.edges && s.dist[v] <= s.dist[Last(s)] + s.edges[(Last(s), v)])
    ensures EdgeRelaxed(s, Last(s), v)
  {
  }

  lemma PassedEdge(s: Search, scanned: nat, queue: multiset<Node>, v: nat)
    requires Inv(s, scanned, queue) && s.order != [] && NextCell(s, scanned, v)
    requires !Improves(s, v, s.dist[Last(s)] + s.edges[(Last(s), v)])
    ensures Inv(s, v + 1, queue)
  {
    NotShorter(s, v);
    assert forall x :: scanned <= x < v ==> EdgeRelaxed(s, Last(s), x);
    PassedInv(s, scanned, queue, v + 1);
  }

  lemma ShortenInv(a: State, v: nat, d: nat) returns (b: State)
    requires StateInv(a) && a.search.order != [] && NextCell(a.search, a.scanned, v) && Improves(a.search, v, d)
    requires d == a.search.dist[Last(a.search)] + a.search.edges[(Last(a.search), v)]
    ensures b == AfterEdge(a, v, d) && StateInv(b)
  {
    b := AfterEdge(a, v, d);
    ShortenedInv(a.search, a.scanned, a.queue, v, d);
  }

  lemma PassInv(a: State, v: nat, d: nat) returns (b: State)
    requires StateInv(a) && a.search.order != [] && NextCell(a.search, a.scanned, v) && !Improves(a.search, v, d)
    requires d == a.search.dist[Last(a.search)] + a.search.edges[(Last(a.search), v)]
    ensures b == AfterEdge(a, v, d) && StateInv(b)
  {
    b := a.(scanned := v + 1);
    PassedEdge(a.search, a.scanned, a.queue, v);
  }

  lemma AfterEdgeInv(a: State, v: nat, d: nat) returns (b: State)
    requires StateInv(a) && a.search.order != [] && NextCell(a.search, a.scanned, v)
    requires d == a.search.dist[Last(a.search)] + a.search.edges[(Last(a.search), v)]
    ensures b == AfterEdge(a, v, d) && StateInv(b)
  {
    if Improves(a.search, v, d) {
      b := ShortenInv(a, v, d);
    } else {
      b := PassInv(a, v, d);
    }
  }

  lemma EdgeAddsUp(a: State, v: nat) returns (d: nat)
    requires CanStep(a, Edge(v)) && Shape(a.search) && Bounded(a.search)
    ensures d == a.search.dist[Last(a.search)] + a.search.edges[(Last(a.search), v)]
    ensures Next(a, Edge(v)) == AfterEdge(a, v, d)
  {
    NoWrap(a.search, v);
    d := a.search.dist[Last(a.search)] + a.search.edges[(Last(a.search), v)];
  }

  lemma EdgeInv(a: State, v: nat) returns (b: State)
    requires StateInv(a) && CanStep(a, Edge(v))
    ensures b == Next(a, Edge(v)) && StateInv(b)
  {
    var d := EdgeAddsUp(a, v);
    b := AfterEdgeInv(a, v, d);
  }

  lemma EndScanInv(a: State)
    requires StateInv(a) && CanStep(a, EndScan)
    ensures StateInv(Next(a, EndScan))
  {
    var s := a.search;
    assert forall x :: a.scanned <= x < |s.dist| ==> EdgeRelaxed(s, Last(s), x);
    PassedInv(s, a.scanned, a.queue, |s.dist|);
  }

  lemma StepInv(a: State, b: State)
    requires StateInv(a) && StepsTo(a, b)
    ensures StateInv(b)
  {
    var action :| CanStep(a, action) && Next(a, action) == b;
    match action
    case Drop(x) => DropInv(a, x);
    case Visit(x) => VisitInv(a, x);
    case Edge(v) => var _ := EdgeInv(a, v);
    case EndScan => EndScanInv(a);
  }

  lemma {:induction false} RunInv(run: seq<State>)
    requires IsRun(run) && StateInv(run[0])
    ensures StateInv(run[|run| - 1])
    decreases |run|
  {
    if |run| > 1 {
      RunInv(Front(run));
      StepInv(run[|run| - 2], run[|run| - 1]);
    }
  }

  function Front(run: seq<State>): (front: seq<State>)
    requires IsRun(run) && |run| > 1
    ensures IsRun(front) && |front| == |run| - 1 && front[0] == run[0] && front[|front| - 1] == run[|run| - 2]
    ensures StepsTo(run[|run| - 2], run[|run| - 1])
  {
    assert StepsTo(run[|run| - 2], run[|run| - 2 + 1]);
    assert forall i :: 0 <= i < |run| - 2 ==> StepsTo(run[i], run[i + 1]);
    run[..|run| - 1]
  }

  lemma ReachableInv(edges: Edges, start: nat, n: nat, a: State)
    requires start < n < 0x8000_0000 && EdgesOk(n, edges) && Reachable(edges, start, n, a)
    ensures StateInv(a) && SameGraph(edges, start, n, a)
  {
    var run :| IsRun(run) && run[0] == First(edges, start, n) && run[|run| - 1] == a;
    BegunInv(edges, start, n);
    RunInv(run);
    RunKeepsGraph(run, edges, start, n);
  }

  ghost predicate SameGraph(edges: Edges, start: nat, n: nat, a: State) {
    a.search.edges == edges && a.search.start == start && |a.search.dist| == n
  }

  lemma {:induction false} RunKeepsGraph(run: seq<State>, edges: Edges, start: nat, n: nat)
    requires IsRun(run) && SameGraph(edges, start, n, run[0])
    ensures SameGraph(edges, start, n, run[|run| - 1])
    decreases |run|
  {
    if |run| > 1 {
      RunKeepsGraph(Front(run), edges, start, n);
    }
  }

  // ---------- The result ----------

  /** Every edge from a vertex with a distance leads to one, at most its weight farther. */
  ghost predicate Settled(s: Search)
    requires Shape(s)
  {
    forall u: nat, v: nat :: (u, v) in s.edges && s.dist[u] != UINT64_MAX ==>
      s.dist[v] != UINT64_MAX && s.dist[v] <= s.dist[u] + s.edges[(u, v)]
  }

  lemma EmptyIsSettled(s: Search)
    requires Inv(s, |s.dist|, multiset{})
    ensures Settled(s)
  {
    forall u: nat, v: nat | (u, v) in s.edges && s.dist[u] != UINT64_MAX
      ensures s.dist[v] != UINT64_MAX && s.dist[v] <= s.dist[u] + s.edges[(u, v)]
    {
      var i :| 0 <= i < |s.order| && s.order[i] == u;
      assert EdgeRelaxed(s, s.order[i], v);
      assert s.dist[u] <= UINT32_MAX * |s.order|;
      ListIsShort(|s.dist|, s.order);
    }
  }

  lemma {:induction false} WalksAreLonger(s: Search, walk: seq<nat>)
    requires Shape(s) && Settled(s)
    requires IsWalk(s.edges, walk) && walk[0] == s.start
    ensures walk[|walk| - 1] < |s.dist| && s.dist[walk[|walk| - 1]] != UINT64_MAX
    ensures s.dist[walk[|walk| - 1]] <= WalkLength(s.edges, walk)
    decreases |walk|
  {
    if |walk| > 1 {
      WalksAreLonger(s, walk[..|walk| - 1]);
      assert (walk[|walk| - 2], walk[|walk| - 1]) in s.edges;
    }
  }

  ghost function Rank(order: seq<nat>, v: nat): (i: nat)
    requires v in order
    ensures i < |order| && order[i] == v
  {
    var i :| 0 <= i < |order| && order[i] == v;
    i
  }

  /** The links from a visited vertex back to the start, in the order of the walk. */
  ghost function PathTo(s: Search, k: nat): seq<nat>
    requires Shape(s) && Linked(s) && k < |s.order|
  {
    assert LinkOk(s, s.order[..k], s.order[k]);
    if s.order[k] == s.start then [s.start] else PathTo(s, Rank(s.order[..k], s.parent[s.order[k]])) + [s.order[k]]
  }

  lemma {:induction false} PathLeads(s: Search, k: nat)
    requires Shape(s) && Linked(s) && k < |s.order|
    ensures Leads(s.edges, PathTo(s, k), s.start, s.order[k])
    ensures WalkLength(s.edges, PathTo(s, k)) == s.dist[s.order[k]]
    decreases k
  {
    assert LinkOk(s, s.order[..k], s.order[k]);
    if s.order[k] != s.start {
      var j := Rank(s.order[..k], s.parent[s.order[k]]);
      PathLeads(s, j);
      ExtendWalk(s.edges, PathTo(s, j), s.order[k]);
    }
  }

  /** No vertex comes twice. */
  lemma {:induction false} PathIsSimple(s: Search, k: nat)
    requires Shape(s) && Linked(s) && k < |s.order|
    ensures IsListOf(|s.dist|, PathTo(s, k))
    ensures forall i :: 0 <= i < |PathTo(s, k)| ==> PathTo(s, k)[i] in s.order[..k + 1]
    decreases k
  {
    assert LinkOk(s, s.order[..k], s.order[k]);
    if s.order[k] != s.start {
      var j := Rank(s.order[..k], s.parent[s.order[k]]);
      PathIsSimple(s, j);
      assert forall v :: v in s.order[..j + 1] ==> v in s.order[..k] && v != s.order[k];
    }
  }

  /** When nothing is queued, every distance is that of a shortest walk. */
  lemma DistancesFound(s: Search, v: nat)
    requires Inv(s, |s.dist|, multiset{}) && v < |s.dist|
    ensures IsDistance(s.edges, s.start, v, s.dist[v])
  {
    EmptyIsSettled(s);
    forall walk | Leads(s.edges, walk, s.start, v)
      ensures s.dist[v] != UINT64_MAX && s.dist[v] <= WalkLength(s.edges, walk)
    {
      WalksAreLonger(s, walk);
    }
    if s.dist[v] != UINT64_MAX {
      PathLeads(s, Rank(s.order, v));
    }
  }
}
