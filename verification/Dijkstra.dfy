/** Dijkstra's algorithm over a heap that keeps outdated entries. */
module Dijkstra {
  import opened ExitCodes
  import opened LongDistances
  import opened MachineWords
  import opened PriorityQueue
  import opened ShortestPaths
  import opened VertexLists
  import opened WeightedGraph

  class ShortestPathData {
    const distances: array<nat>
    const path: array<nat>
    var pathLen: nat

    constructor (vertN: nat)
      ensures fresh(distances) && fresh(path) && distances.Length == path.Length == vertN && distances != path
    {
      distances := new nat[vertN](_ => 0);
      path := new nat[vertN](_ => 0);
      pathLen := 0;
    }
  }

  /** The arrays and the queue hold the state of the search. */
  ghost predicate Reflects(a: State, queue: Queue, visited: array<bool>, parents: array<nat>, distances: array<nat>)
    reads queue, queue.heap, visited, parents, distances
  {
    && queue.Valid() && queue.Contents() == a.queue && queue.heap.Length >= |a.search.dist|
    && a.search.dist == distances[..] && a.search.parent == parents[..] && visited.Length == |a.search.dist|
    && parents != distances && parents.Length == distances.Length
    && forall v :: 0 <= v < visited.Length ==> (visited[v] <==> v in a.search.order)
  }

  method RelaxEdge(queue: Queue, visited: array<bool>, parents: array<nat>, distances: array<nat>, node: Node,
                   v: nat, length: nat, ghost a: State, ghost b: State)
    returns (overflowed: bool)
    requires Reflects(a, queue, visited, parents, distances)
    requires a.search.order != [] && node.vertex == Last(a.search) < |a.search.dist| && v < |a.search.dist|
    requires b == AfterEdge(a, v, Uint64(node.dist + length))
    modifies queue, queue.heap, parents, distances
    ensures queue.heap == old(queue.heap) || fresh(queue.heap)
    ensures Reflects(b, queue, visited, parents, distances) && b.long == a.long + (if overflowed then 1 else 0)
  {
    var newLength := Uint64(node.dist + length);
    overflowed := false;
    if !visited[v] && newLength < distances[v] {
      if newLength >= INT_MAX {
        overflowed := true;
      }
      parents[v] := node.vertex;
      distances[v] := newLength;
      assert node.vertex in a.search.order;
      queue.Add(Node(v, newLength));
    }
  }

  /** A reachable state of the search for shortest walks from start. */
  ghost predicate SearchOf(edges: Edges, start: nat, n: nat, a: State) {
    start < n < 0x8000_0000 && Reachable(edges, start, n, a) && SameGraph(edges, start, n, a)
  }

  /** The node is that of the vertex visited last. */
  ghost predicate Scanning(a: State, node: Node) {
    && |a.search.dist| == |a.search.parent| && a.search.order != [] && Last(a.search) < |a.search.dist|
    && node == Node(Last(a.search), a.search.dist[Last(a.search)])
  }

  /** Of the vertex visited last, the next edge leads to v. */
  ghost predicate AtEdge(a: State, node: Node, v: nat, length: nat) {
    Scanning(a, node) && NextCell(a.search, a.scanned, v) && length == a.search.edges[(node.vertex, v)]
  }

  lemma EdgeStep(edges: Edges, start: nat, n: nat, a: State, node: Node, v: nat, length: nat) returns (b: State)
    requires SearchOf(edges, start, n, a) && AtEdge(a, node, v, length)
    ensures SearchOf(edges, start, n, b) && b == AfterEdge(a, v, Uint64(node.dist + length))
    ensures Scanning(b, node) && b.scanned == v + 1 && b.search.order == a.search.order
  {
    b := NextReachable(edges, start, n, a, Edge(v));
  }

  /** One edge of the vertex visited last. */
  method ScanEdge(queue: Queue, visited: array<bool>, parents: array<nat>, distances: array<nat>, node: Node,
                  v: nat, length: nat, ghost edges: Edges, ghost start: nat, ghost n: nat, ghost a: State)
    returns (overflowed: bool, ghost b: State)
    requires SearchOf(edges, start, n, a) && Reflects(a, queue, visited, parents, distances)
    requires AtEdge(a, node, v, length)
    modifies queue, queue.heap, parents, distances
    ensures queue.heap == old(queue.heap) || fresh(queue.heap)
    ensures SearchOf(edges, start, n, b) && Reflects(b, queue, visited, parents, distances)
    ensures Scanning(b, node) && b.scanned == v + 1 && b.search.order == a.search.order
    ensures b.long == a.long + (if overflowed then 1 else 0)
  {
    b := EdgeStep(edges, start, n, a, node, v, length);
    overflowed := RelaxEdge(queue, visited, parents, distances, node, v, length, a, b);
  }

  method NextEdgeOf(it: EdgeIterator, node: Node, ghost a: State)
    returns (found: bool, v: nat, length: nat)
    requires it.graph.Valid() && it.u == node.vertex && -1 <= it.curV < it.graph.vertCount
    requires a.search.edges == it.graph.edges && |a.search.dist| == it.graph.vertCount
    requires Scanning(a, node) && a.scanned == it.curV + 1
    modifies it
    ensures -1 <= it.curV < it.graph.vertCount
    ensures found ==> it.curV == v > old(it.curV) && AtEdge(a, node, v, length)
    ensures !found ==> CanStep(a, EndScan)
  {
    found, v, length := it.NextEdge();
  }

  /** All edges of the vertex visited last. */
  method RelaxEdges(graph: Graph, queue: Queue, visited: array<bool>, parents: array<nat>, distances: array<nat>,
                    node: Node, ghost start: nat, ghost a: State)
    returns (overflowCount: nat, ghost b: State)
    requires graph.Valid() && SearchOf(graph.edges, start, graph.vertCount, a)
    requires Reflects(a, queue, visited, parents, distances) && a.scanned == 0 && Scanning(a, node)
    modifies queue, queue.heap, parents, distances
    ensures queue.heap == old(queue.heap) || fresh(queue.heap)
    ensures SearchOf(graph.edges, start, graph.vertCount, b) && Reflects(b, queue, visited, parents, distances)
    ensures b.search.order == a.search.order && b.scanned == |b.search.dist| && b.long == a.long + overflowCount
  {
    var it := new EdgeIterator(graph, node.vertex);
    b, overflowCount := a, 0;
    var found, v, length := NextEdgeOf(it, node, b);
    while found
      invariant it.graph == graph && it.u == node.vertex && -1 <= it.curV < graph.vertCount
      invariant queue.heap == old(queue.heap) || fresh(queue.heap)
      invariant SearchOf(graph.edges, start, graph.vertCount, b) && Reflects(b, queue, visited, parents, distances)
      invariant Scanning(b, node) && b.search.order == a.search.order && b.long == a.long + overflowCount
      invariant found ==> it.curV == v && AtEdge(b, node, v, length)
      invariant !found ==> CanStep(b, EndScan)
      decreases found, graph.vertCount - it.curV
    {
      var overflowed;
      overflowed, b := ScanEdge(queue, visited, parents, distances, node, v, length, graph.edges, start, graph.vertCount, b);
      if overflowed {
        overflowCount := overflowCount + 1;
      }
      found, v, length := NextEdgeOf(it, node, b);
    }
    b := NextReachable(graph.edges, start, graph.vertCount, b, EndScan);
  }

  lemma VisitStep(edges: Edges, start: nat, n: nat, a: State, x: Node, rest: multiset<Node>) returns (b: State)
    requires SearchOf(edges, start, n, a) && EdgesOk(n, edges) && a.scanned == n
    requires x.vertex !in a.search.order && a.queue == rest + multiset{x} && IsNearest(a.queue, x)
    ensures SearchOf(edges, start, n, b) && b == State(Visited(a.search, x.vertex), 0, rest, a.long)
    ensures Scanning(b, x) && |b.search.order| <= n
  {
    b := NextReachable(edges, start, n, a, Visit(x));
    assert b.queue == rest;
    ReachableInv(edges, start, n, a);
    NearestIsCurrent(a.search, a.queue, x);
    VisitedShape(a.search, x.vertex);
    ListIsShort(n, b.search.order);
  }

  lemma DropStep(edges: Edges, start: nat, n: nat, a: State, x: Node, rest: multiset<Node>) returns (b: State)
    requires SearchOf(edges, start, n, a) && a.scanned == n
    requires x.vertex in a.search.order && a.queue == rest + multiset{x} && IsNearest(a.queue, x)
    ensures SearchOf(edges, start, n, b) && b == a.(queue := rest)
  {
    b := NextReachable(edges, start, n, a, Drop(x));
    assert b.queue == rest;
  }

  lemma QueuedVertex(edges: Edges, start: nat, n: nat, a: State, x: Node)
    requires SearchOf(edges, start, n, a) && EdgesOk(n, edges) && x in a.queue
    ensures x.vertex < n
  {
    ReachableInv(edges, start, n, a);
  }

  method PopNode(queue: Queue, visited: array<bool>, parents: array<nat>, distances: array<nat>, ghost a: State)
    returns (node: Node, ghost rest: multiset<Node>)
    requires Reflects(a, queue, visited, parents, distances) && queue.size > 0
    modifies queue`size, queue.heap
    ensures a.queue == rest + multiset{node} && IsNearest(a.queue, node) && queue.size == old(queue.size) - 1
    ensures Reflects(a.(queue := rest), queue, visited, parents, distances)
  {
    var code;
    code, node := queue.Pop();
    rest := queue.Contents();
  }

  method MarkVisited(queue: Queue, visited: array<bool>, parents: array<nat>, distances: array<nat>, v: nat,
                     ghost a: State, ghost b: State)
    requires Reflects(a, queue, visited, parents, distances) && v < visited.Length
    requires b == State(Visited(a.search, v), 0, a.queue, a.long)
    modifies visited
    ensures Reflects(b, queue, visited, parents, distances)
  {
    visited[v] := true;
  }

  /** The node nearest to the start leaves the queue; its vertex is visited unless it was before. */
  method ProcessNode(graph: Graph, queue: Queue, visited: array<bool>, parents: array<nat>, distances: array<nat>,
                     ghost start: nat, ghost a: State)
    returns (overflowCount: nat, ghost b: State)
    requires graph.Valid() && SearchOf(graph.edges, start, graph.vertCount, a)
    requires Reflects(a, queue, visited, parents, distances) && a.scanned == graph.vertCount && queue.size > 0
    modifies queue, queue.heap, visited, parents, distances
    ensures queue.heap == old(queue.heap) || fresh(queue.heap)
    ensures SearchOf(graph.edges, start, graph.vertCount, b) && Reflects(b, queue, visited, parents, distances)
    ensures b.scanned == graph.vertCount && b.long == a.long + overflowCount
    ensures
      || |a.search.order| < |b.search.order| <= graph.vertCount
      || (b.search.order == a.search.order && queue.size < old(queue.size))
  {
    overflowCount := 0;
    var node;
    ghost var rest;
    node, rest := PopNode(queue, visited, parents, distances, a);
    QueuedVertex(graph.edges, start, graph.vertCount, a, node);
    if visited[node.vertex] {
      b := DropStep(graph.edges, start, graph.vertCount, a, node, rest);
    } else {
      ghost var c := VisitStep(graph.edges, start, graph.vertCount, a, node, rest);
      MarkVisited(queue, visited, parents, distances, node.vertex, a.(queue := rest), c);
      overflowCount, b := RelaxEdges(graph, queue, visited, parents, distances, node, start, c);
    }
  }

  /** Writes the walk that ends in vertex, which was the k-th to be visited. */
  method ConvertToPath(vertex: nat, parents: array<nat>, path: array<nat>, ghost s: Search, ghost k: nat)
    returns (idx: nat)
    requires Shape(s) && Linked(s) && s.parent == parents[..] && path != parents && path.Length == |s.dist|
    requires vertex != UINT64_MAX ==> k < |s.order| && s.order[k] == vertex
    modifies path
    ensures idx <= path.Length && path[..idx] == if vertex == UINT64_MAX then [] else PathTo(s, k)
    decreases if vertex == UINT64_MAX then 0 else k + 1
  {
    if vertex == UINT64_MAX {
      return 0;
    }
    assert LinkOk(s, s.order[..k], s.order[k]);
    ghost var j: nat := if vertex == s.start then 0 else Rank(s.order[..k], s.parent[vertex]);
    idx := ConvertToPath(parents[vertex], parents, path, s, j);
    PathIsSimple(s, k);
    ListIsShort(|s.dist|, PathTo(s, k));
    path[idx] := vertex;
    idx := idx + 1;
  }

  /** An empty queue means that every distance is final. */
  ghost predicate Finished(edges: Edges, start: nat, n: nat, s: Search) {
    && Shape(s) && Linked(s) && s.edges == edges && s.start == start && |s.dist| == n
    && (forall v :: 0 <= v < n ==> IsDistance(edges, start, v, s.dist[v]))
    && (forall v :: 0 <= v < n && s.dist[v] != UINT64_MAX ==> v in s.order)
  }

  lemma SearchEnds(edges: Edges, start: nat, n: nat, a: State)
    requires SearchOf(edges, start, n, a) && EdgesOk(n, edges) && a.scanned == n && a.queue == multiset{}
    ensures Finished(edges, start, n, a.search)
  {
    ReachableInv(edges, start, n, a);
    forall v | 0 <= v < n
      ensures IsDistance(edges, start, v, a.search.dist[v])
    {
      DistancesFound(a.search, v);
    }
  }

  method ProcessQueue(graph: Graph, queue: Queue, visited: array<bool>, parents: array<nat>, distances: array<nat>,
                      ghost start: nat, ghost a: State)
    returns (overflowCount: nat, ghost b: State)
    requires graph.Valid() && SearchOf(graph.edges, start, graph.vertCount, a)
    requires Reflects(a, queue, visited, parents, distances) && a.scanned == graph.vertCount && a.long == 0
    modifies queue, queue.heap, visited, parents, distances
    ensures Finished(graph.edges, start, graph.vertCount, b.search)
    ensures b.search.dist == distances[..] && b.search.parent == parents[..]
    ensures SearchOf(graph.edges, start, graph.vertCount, b) && b.queue == multiset{} && b.long == overflowCount
  {
    b := a;
    overflowCount := 0;
    while queue.size > 0
      invariant queue.heap == old(queue.heap) || fresh(queue.heap)
      invariant SearchOf(graph.edges, start, graph.vertCount, b) && b.scanned == graph.vertCount
      invariant b.long == overflowCount
      invariant Reflects(b, queue, visited, parents, distances)
      decreases graph.vertCount - |b.search.order|, queue.size
    {
      var more;
      more, b := ProcessNode(graph, queue, visited, parents, distances, start, b);
      overflowCount := overflowCount + more;
    }
    SearchEnds(graph.edges, start, graph.vertCount, b);
  }

  method ResetDistances(n: nat, start: nat, distances: array<nat>, ghost edges: Edges)
    requires start < n == distances.Length
    modifies distances
    ensures distances[..] == First(edges, start, n).search.dist
  {
    for i := 0 to n
      invariant forall v :: 0 <= v < i ==> distances[v] == UINT64_MAX
    {
      distances[i] := UINT64_MAX;
    }
    distances[start] := 0;
  }

  /** Nothing is visited, and the start alone is queued. */
  method Prepare(n: nat, start: nat, distances: array<nat>, ghost edges: Edges)
    returns (queue: Queue, visited: array<bool>, parents: array<nat>, ghost a: State)
    requires start < n == distances.Length
    modifies distances
    ensures fresh(queue) && fresh(queue.heap) && fresh(visited) && fresh(parents)
    ensures a == First(edges, start, n) && Reflects(a, queue, visited, parents, distances)
  {
    ResetDistances(n, start, distances, edges);
    a := First(edges, start, n);
    visited := new bool[n](_ => false);
    parents := new nat[n](_ => UINT64_MAX);
    assert a.search.parent == parents[..];
    queue := new Queue(n);
    queue.Add(Node(start, 0));
  }

  /** The path is a shortest walk from start to finish that comes to no vertex twice. */
  ghost predicate IsShortestPath(edges: Edges, n: nat, path: seq<nat>, start: nat, finish: nat, d: nat) {
    && IsListOf(n, path) && Leads(edges, path, start, finish)
    && WalkLength(edges, path) == d && IsDistance(edges, start, finish, d)
  }

  method Conclude(finish: nat, parents: array<nat>, data: ShortestPathData, overflowCount: nat, ghost s: Search)
    returns (code: ExitCode)
    requires Finished(s.edges, s.start, |s.dist|, s) && s.dist == data.distances[..] && s.parent == parents[..]
    requires data.path.Length == |s.dist| && finish < |s.dist| && data.path != parents && data.path != data.distances
    modifies data, data.path
    ensures code in {Success, NoPath, Overflow} && (code == NoPath <==> s.dist[finish] == UINT64_MAX)
    ensures code == Overflow <==> s.dist[finish] != UINT64_MAX && s.dist[finish] > INT_MAX && overflowCount > 2
    ensures code == Success ==>
      && data.pathLen <= data.path.Length
      && IsShortestPath(s.edges, |s.dist|, data.path[..data.pathLen], s.start, finish, s.dist[finish])
  {
    if data.distances[finish] == UINT64_MAX {
      return NoPath;
    }
    if overflowCount > 2 && data.distances[finish] > INT_MAX {
      return Overflow;
    }
    ghost var k := Rank(s.order, finish);
    PathLeads(s, k);
    PathIsSimple(s, k);
    data.pathLen := ConvertToPath(finish, parents, data.path, s, k);
    return Success;
  }

  /** A run of the search ends in the state with these distances. */
  ghost predicate Ends(edges: Edges, start: nat, n: nat, a: State, distances: seq<nat>) {
    SearchOf(edges, start, n, a) && a.queue == multiset{} && a.search.dist == distances
  }

  /** The finish is reached beyond an int, and more than two improvements were that long. */
  predicate IsOverflow(a: State, finish: nat) {
    finish < |a.search.dist| && INT_MAX < a.search.dist[finish] != UINT64_MAX && a.long > 2
  }

  /**
   * An overflow is reported only if the finish is farther away than an int tells and long walks lead over more than two
   * edges, and always if it is and more than two vertices are that far away.
   */
  ghost predicate OverflowFits(edges: Edges, distances: seq<nat>, finish: nat, overflow: bool) {
    && finish < |distances|
    && var tooLong := 0x7FFF_FFFF < distances[finish] < 0xFFFF_FFFF_FFFF_FFFF;
       && (overflow ==> tooLong && |LongEdges(edges, distances)| > 2)
       && (tooLong && |LongVertices(distances)| > 2 ==> overflow)
  }

  lemma OverflowBounds(edges: Edges, start: nat, n: nat, a: State, finish: nat)
    requires start < n < 0x8000_0000 && EdgesOk(n, edges) && Reachable(edges, start, n, a) && finish < |a.search.dist|
    ensures OverflowFits(edges, a.search.dist, finish, IsOverflow(a, finish))
  {
    LongIsBounded(edges, start, n, a);
    ReachableInv(edges, start, n, a);
    ListIsShort(n, a.search.order);
  }

  /** Distances are exact for every vertex, and on success the path is a shortest one. */
  method FindShortestPath(graph: Graph?, start: nat, finish: nat, data: ShortestPathData) returns (code: ExitCode)
    requires graph != null ==> graph.Valid() && start < graph.vertCount < 0x8000_0000 && finish < graph.vertCount
    requires graph != null ==> data.distances.Length == data.path.Length == graph.vertCount
    requires data.distances != data.path
    modifies data, data.distances, data.path
    ensures code != OutOfBounds && (code == InvalidArgument <==> graph == null)
    ensures graph != null ==>
      forall v :: 0 <= v < graph.vertCount ==> IsDistance(graph.edges, start, v, data.distances[v])
    ensures code == NoPath <==> graph != null && forall walk :: !Leads(graph.edges, walk, start, finish)
    ensures graph != null ==>
      exists a :: Ends(graph.edges, start, graph.vertCount, a, data.distances[..]) && (code == Overflow <==> IsOverflow(a, finish))
    ensures graph != null ==> OverflowFits(graph.edges, data.distances[..], finish, code == Overflow)
    ensures code == Success ==>
      && data.pathLen <= data.path.Length
      && IsShortestPath(graph.edges, graph.vertCount, data.path[..data.pathLen], start, finish, data.distances[finish])
  {
    if graph == null {
      return InvalidArgument;
    }
    var n := graph.vertCount;
    FirstReachable(graph.edges, start, n);
    var queue, visited, parents;
    ghost var a;
    queue, visited, parents, a := Prepare(n, start, data.distances, graph.edges);
    var overflowCount;
    ghost var s;
    overflowCount, s := ProcessQueue(graph, queue, visited, parents, data.distances, start, a);
    assert IsDistance(graph.edges, start, finish, s.search.dist[finish]);
    code := Conclude(finish, parents, data, overflowCount, s.search);
    OverflowBounds(graph.edges, start, n, s, finish);
    assert Ends(graph.edges, start, graph.vertCount, s, data.distances[..]) && (code == Overflow <==> IsOverflow(s, finish));
  }
}
