/** Depth-first topological sort over a bit matrix. */
module TopologicalSort {
  import opened VertexLists

  type Edges = set<(nat, nat)>

  // ---------- The bit matrix ----------

  const BITS_PER_ENTRY := 32

  /** An entry as its bits, the least significant first. */
  type Entry = bits: seq<bool> | |bits| == 32 witness seq(32, _ => false)

  class Graph {
    const vertCount: nat
    const entries: array2<Entry>
    ghost var edges: Edges

    ghost predicate Shape()
      reads this, entries
    {
      entries.Length0 == vertCount > 0 && entries.Length1 == (vertCount + BITS_PER_ENTRY - 1) / BITS_PER_ENTRY
    }

    predicate Bit(u: nat, v: nat)
      requires Shape() && u < vertCount && v < vertCount
      reads this, entries
    {
      assert v / BITS_PER_ENTRY < entries.Length1;
      entries[u, v / BITS_PER_ENTRY][v % BITS_PER_ENTRY]
    }

    ghost predicate Valid()
      reads this, entries
    {
      && Shape()
      && (forall u, v :: (u, v) in edges ==> u < vertCount && v < vertCount)
      && (forall u: nat, v: nat :: u < vertCount && v < vertCount ==> (Bit(u, v) <==> (u, v) in edges))
    }

    constructor (vertexCount: nat)
      requires vertexCount > 0
      ensures Valid() && fresh(entries) && vertCount == vertexCount && edges == {}
    {
      vertCount := vertexCount;
      entries := new Entry[vertexCount, (vertexCount + BITS_PER_ENTRY - 1) / BITS_PER_ENTRY]((_, _) => seq(32, _ => false));
      edges := {};
    }

    method AddEdge(u: nat, v: nat)
      requires Valid() && u < vertCount && v < vertCount
      modifies this, entries
      ensures Valid() && edges == old(edges) + {(u, v)}
    {
      var i, k := v / BITS_PER_ENTRY, v % BITS_PER_ENTRY;
      assert i < entries.Length1;
      entries[u, i] := entries[u, i][k := true];
      edges := edges + {(u, v)};
      forall x: nat, y: nat | x < vertCount && y < vertCount
        ensures Bit(x, y) <==> (x, y) in edges
      {
        assert old(Bit(x, y)) <==> (x, y) in old(edges);
        SameBit(y, v);
      }
    }

    predicate HasEdge(u: nat, v: nat)
      requires Valid() && u < vertCount && v < vertCount
      reads this, entries
      ensures HasEdge(u, v) <==> (u, v) in edges
    {
      Bit(u, v)
    }
  }

  lemma SameBit(x: nat, y: nat)
    ensures x / BITS_PER_ENTRY == y / BITS_PER_ENTRY && x % BITS_PER_ENTRY == y % BITS_PER_ENTRY ==> x == y
  {
  }

  datatype EdgeIterator = EdgeIterator(nodeIdx: nat, curChildIdx: int)

  /** The next successor, or -1 when there is none. */
  method NextEdge(graph: Graph, it: EdgeIterator) returns (v: int, next: EdgeIterator)
    requires graph.Valid() && it.nodeIdx < graph.vertCount && -1 <= it.curChildIdx < graph.vertCount
    ensures next == it.(curChildIdx := v) && -1 <= v < graph.vertCount
    ensures v >= 0 ==> it.curChildIdx < v && (it.nodeIdx, v) in graph.edges
    ensures forall w: nat :: it.curChildIdx < w < (if v >= 0 then v else graph.vertCount) ==> (it.nodeIdx, w) !in graph.edges
  {
    for i := it.curChildIdx + 1 to graph.vertCount
      invariant forall w: nat :: it.curChildIdx < w < i ==> (it.nodeIdx, w) !in graph.edges
    {
      if graph.HasEdge(it.nodeIdx, i) {
        return i, it.(curChildIdx := i);
      }
    }
    return -1, it.(curChildIdx := -1);
  }

  // ---------- Orders and cycles ----------

  predicate IsWalk(edges: Edges, walk: seq<nat>) {
    forall i :: 0 <= i < |walk| - 1 ==> (walk[i], walk[i + 1]) in edges
  }

  ghost predicate HasCycle(edges: Edges) {
    exists walk :: |walk| > 1 && IsWalk(edges, walk) && walk[0] == walk[|walk| - 1]
  }

  /** Every edge from a listed vertex leads to a vertex listed later. */
  ghost predicate PointsForward(edges: Edges, vs: seq<nat>) {
    forall i, v :: 0 <= i < |vs| && (vs[i], v) in edges ==> v in vs[i + 1..]
  }

  ghost predicate IsTopologicalOrder(n: nat, edges: Edges, vs: seq<nat>) {
    IsListOf(n, vs) && |vs| == n && PointsForward(edges, vs)
  }

  lemma {:induction false} WalkGoesForward(n: nat, edges: Edges, vs: seq<nat>, walk: seq<nat>, i: nat) returns (j: nat)
    requires IsListOf(n, vs) && PointsForward(edges, vs)
    requires |walk| > 1 && IsWalk(edges, walk) && i < |vs| && walk[0] == vs[i]
    ensures i < j < |vs| && vs[j] == walk[|walk| - 1]
    decreases |walk|
  {
    if |walk| == 2 {
      assert (vs[i], walk[1]) in edges;
      j :| i < j < |vs| && vs[j] == walk[1];
    } else {
      var front := walk[..|walk| - 1];
      var k := WalkGoesForward(n, edges, vs, front, i);
      assert (vs[k], walk[|walk| - 2 + 1]) in edges;
      j :| k < j < |vs| && vs[j] == walk[|walk| - 1];
    }
  }

  lemma OrderedIsAcyclic(n: nat, edges: Edges, vs: seq<nat>)
    requires IsTopologicalOrder(n, edges, vs)
    requires forall u, v :: (u, v) in edges ==> u < n
    ensures !HasCycle(edges)
  {
    if HasCycle(edges) {
      var walk :| |walk| > 1 && IsWalk(edges, walk) && walk[0] == walk[|walk| - 1];
      assert (walk[0], walk[0 + 1]) in edges;
      FullListHasAll(n, vs, walk[0]);
      var i :| 0 <= i < |vs| && vs[i] == walk[0];
      var j := WalkGoesForward(n, edges, vs, walk, i);
    }
  }

  // ---------- The search ----------

  datatype Color = White | Gray | Black

  class TopSortData {
    const sortedResult: array<nat>
    const color: array<Color>
    var count: int

    constructor (result: array<nat>, vertCount: nat)
      ensures sortedResult == result && fresh(color) && color.Length == vertCount && count == vertCount - 1
      ensures forall v :: 0 <= v < vertCount ==> color[v] == White
    {
      sortedResult := result;
      color := new Color[vertCount](_ => White);
      count := vertCount - 1;
    }

    /** The vertices numbered so far. */
    ghost function Sorted(): seq<nat>
      requires -1 <= count < sortedResult.Length
      reads this, sortedResult
    {
      sortedResult[count + 1..]
    }
  }

  /** Gray vertices are those of the search path, black ones those that have been numbered. */
  predicate ColorsOk(color: seq<Color>, path: seq<nat>, sorted: seq<nat>) {
    && IsListOf(|color|, path) && IsListOf(|color|, sorted)
    && forall v :: 0 <= v < |color| ==> (color[v] == Gray <==> v in path) && (color[v] == Black <==> v in sorted)
  }

  ghost predicate Searching(edges: Edges, n: nat, data: TopSortData, path: seq<nat>)
    reads data, data.color, data.sortedResult
  {
    && data.color.Length == data.sortedResult.Length == n && -1 <= data.count < n
    && ColorsOk(data.color[..], path, data.Sorted())
    && PointsForward(edges, data.Sorted())
    && IsWalk(edges, path)
  }

  /** What is neither on the path nor numbered is still white. */
  lemma RoomLeft(color: seq<Color>, path: seq<nat>, sorted: seq<nat>, u: nat)
    requires ColorsOk(color, path, sorted) && u < |color| && color[u] == White
    ensures |path| + |sorted| < |color|
  {
    var all := path + sorted + [u];
    forall i, j | 0 <= i < j < |all|
      ensures all[i] != all[j]
    {
      if i < |path| <= j < |path| + |sorted| {
        assert color[path[i]] == Gray && color[sorted[j - |path|]] == Black;
      }
      assert i < |path| ==> all[i] in path;
      assert |path| <= i < |path| + |sorted| ==> all[i] in sorted;
    }
    ListIsShort(|color|, all);
  }

  /** An edge from the end of the path back into it closes a cycle. */
  lemma CycleClosed(edges: Edges, path: seq<nat>, u: nat)
    requires IsWalk(edges, path) && u in path && (path[|path| - 1], u) in edges
    ensures HasCycle(edges)
  {
    var i :| 0 <= i < |path| && path[i] == u;
    var walk := path[i..] + [u];
    forall k | 0 <= k < |walk| - 1
      ensures (walk[k], walk[k + 1]) in edges
    {
      if k < |walk| - 2 {
        assert (path[i + k], path[i + k + 1]) in edges;
      }
    }
    assert |walk| > 1 && IsWalk(edges, walk) && walk[0] == walk[|walk| - 1];
  }

  lemma PathExtended(edges: Edges, color: seq<Color>, path: seq<nat>, sorted: seq<nat>, u: nat)
    requires ColorsOk(color, path, sorted) && IsWalk(edges, path) && u < |color| && color[u] == White
    requires path != [] ==> (path[|path| - 1], u) in edges
    ensures ColorsOk(color[u := Gray], path + [u], sorted) && IsWalk(edges, path + [u])
  {
  }

  lemma ColorsNumbered(color: seq<Color>, path: seq<nat>, sorted: seq<nat>, u: nat)
    requires ColorsOk(color, path + [u], sorted)
    ensures u < |color| && color[u] == Gray && ColorsOk(color[u := Black], path, [u] + sorted)
  {
    var longer := path + [u];
    assert longer[|path|] == u;
    assert forall i :: 0 <= i < |path| ==> longer[i] == path[i];
    assert color[u] == Gray;
    forall v | 0 <= v < |color|
      ensures v in longer <==> v in path || v == u
      ensures v in [u] + sorted <==> v in sorted || v == u
    {
    }
    assert u !in sorted;
    assert IsListOf(|color|, path) && u !in path;
  }

  lemma OrderExtended(edges: Edges, sorted: seq<nat>, u: nat)
    requires PointsForward(edges, sorted) && forall v: nat :: (u, v) in edges ==> v in sorted
    ensures PointsForward(edges, [u] + sorted)
  {
    forall i, v | 0 <= i < |[u] + sorted| && (([u] + sorted)[i], v) in edges
      ensures v in ([u] + sorted)[i + 1..]
    {
      assert ([u] + sorted)[i + 1..] == sorted[i..];
      if i > 0 {
        assert (sorted[i - 1], v) in edges;
      }
    }
  }

  lemma WalkShortened(edges: Edges, path: seq<nat>, u: nat)
    requires IsWalk(edges, path + [u])
    ensures IsWalk(edges, path)
  {
    var longer := path + [u];
    forall i | 0 <= i < |path| - 1
      ensures (path[i], path[i + 1]) in edges
    {
      assert (longer[i], longer[i + 1]) in edges;
    }
  }

  // ---------- The procedure ----------

  /** The vertex at the end of the path gets the highest number that is left. */
  method Number(u: nat, data: TopSortData, ghost edges: Edges, ghost n: nat, ghost path: seq<nat>)
    requires Searching(edges, n, data, path + [u]) && u < n
    requires forall v: nat :: (u, v) in edges ==> v in data.Sorted()
    modifies data, data.sortedResult, data.color
    ensures Searching(edges, n, data, path) && data.count == old(data.count) - 1
    ensures data.color[..] == old(data.color[..])[u := Black]
  {
    ghost var color, sorted := data.color[..], data.Sorted();
    ColorsNumbered(color, path, sorted, u);
    OrderExtended(edges, sorted, u);
    WalkShortened(edges, path, u);
    NumbersLeft(color, path, sorted, u);
    data.sortedResult[data.count] := u;
    data.count := data.count - 1;
    data.color[u] := Black;
    assert data.Sorted() == [u] + sorted;
    assert data.color[..] == color[u := Black];
  }

  lemma NumbersLeft(color: seq<Color>, path: seq<nat>, sorted: seq<nat>, u: nat)
    requires ColorsOk(color, path + [u], sorted) 
    ensures |sorted| < |color|
  {
    ColorsNumbered(color, path, sorted, u);
    ListIsShort(|color|, [u] + sorted);
  }

  /** A white vertex is appended to the path. */
  method Enter(u: nat, data: TopSortData, ghost edges: Edges, ghost n: nat, ghost path: seq<nat>)
    requires Searching(edges, n, data, path) && u < n && data.color[u] == White
    requires path != [] ==> (path[|path| - 1], u) in edges
    modifies data.color
    ensures Searching(edges, n, data, path + [u]) && |path| < data.count + 1
    ensures data.color[..] == old(data.color[..])[u := Gray]
  {
    RoomLeft(data.color[..], path, data.Sorted(), u);
    PathExtended(edges, data.color[..], path, data.Sorted(), u);
    data.color[u] := Gray;
    assert data.color[..] == old(data.color[..])[u := Gray];
  }

  predicate BlackStays(before: seq<Color>, after: seq<Color>) {
    |before| == |after| && forall v :: 0 <= v < |before| && before[v] == Black ==> after[v] == Black
  }

  /** The successors of u below k are black. */
  ghost predicate SuccessorsBlack(edges: Edges, u: nat, color: seq<Color>, k: nat) {
    forall w: nat :: w < k && w < |color| && (u, w) in edges ==> color[w] == Black
  }

  lemma NextSuccessor(edges: Edges, u: nat, before: seq<Color>, after: seq<Color>, v: nat, k: nat)
    requires SuccessorsBlack(edges, u, before, v) && BlackStays(before, after)
    requires v < |after| && after[v] == Black && forall w: nat :: v < w < k ==> (u, w) !in edges
    ensures SuccessorsBlack(edges, u, after, k)
  {
  }

  /** One successor of the vertex at the end of the path; the next one is found beside it. */
  method SearchSuccessor(graph: Graph, it: EdgeIterator, data: TopSortData, ghost path: seq<nat>)
    returns (success: bool, next: EdgeIterator)
    requires graph.Valid() && 0 <= it.curChildIdx && (it.nodeIdx, it.curChildIdx) in graph.edges
    requires Searching(graph.edges, graph.vertCount, data, path + [it.nodeIdx]) && |path| < data.count + 1
    requires SuccessorsBlack(graph.edges, it.nodeIdx, data.color[..], it.curChildIdx)
    modifies data, data.sortedResult, data.color
    ensures !success ==> HasCycle(graph.edges)
    ensures success ==>
      && Searching(graph.edges, graph.vertCount, data, path + [it.nodeIdx]) && data.count <= old(data.count)
      && BlackStays(old(data.color[..]), data.color[..])
      && AtSuccessor(graph.vertCount, graph.edges, it.nodeIdx, next)
      && (next.curChildIdx >= 0 ==> it.curChildIdx < next.curChildIdx)
      && SuccessorsBlack(graph.edges, it.nodeIdx, data.color[..], Passed(graph.vertCount, next))
    decreases data.count + 1 - |path|, 0
  {
    ghost var before := data.color[..];
    next := it;
    success := TopSortImpl(graph, it.curChildIdx, data, path + [it.nodeIdx]);
    if success {
      var v;
      v, next := NextEdge(graph, it);
      NextSuccessor(graph.edges, it.nodeIdx, before, data.color[..], it.curChildIdx, Passed(graph.vertCount, next));
    }
  }

  /** The iterator stands at a successor of u, or has come to the end. */
  ghost predicate AtSuccessor(n: nat, edges: Edges, u: nat, it: EdgeIterator) {
    it.nodeIdx == u && -1 <= it.curChildIdx < n && (it.curChildIdx >= 0 ==> (u, it.curChildIdx) in edges)
  }

  function Passed(n: nat, it: EdgeIterator): nat {
    if it.curChildIdx >= 0 then it.curChildIdx else n
  }

  /** All successors of the vertex at the end of the path. */
  method SearchSuccessors(graph: Graph, u: nat, data: TopSortData, ghost path: seq<nat>) returns (success: bool)
    requires graph.Valid() && Searching(graph.edges, graph.vertCount, data, path + [u]) && u < graph.vertCount
    requires |path| < data.count + 1
    modifies data, data.sortedResult, data.color
    ensures success ==> Searching(graph.edges, graph.vertCount, data, path + [u]) && data.count <= old(data.count)
    ensures success ==> SuccessorsBlack(graph.edges, u, data.color[..], graph.vertCount)
    ensures success ==> BlackStays(old(data.color[..]), data.color[..])
    ensures !success ==> HasCycle(graph.edges)
    decreases data.count + 1 - |path|, 1
  {
    var v, it := NextEdge(graph, EdgeIterator(u, -1));
    while it.curChildIdx >= 0
      invariant AtSuccessor(graph.vertCount, graph.edges, u, it)
      invariant Searching(graph.edges, graph.vertCount, data, path + [u]) && data.count <= old(data.count)
      invariant |path| < data.count + 1
      invariant SuccessorsBlack(graph.edges, u, data.color[..], Passed(graph.vertCount, it))
      invariant BlackStays(old(data.color[..]), data.color[..])
      decreases it.curChildIdx >= 0, graph.vertCount - it.curChildIdx
    {
      success, it := SearchSuccessor(graph, it, data, path);
      if !success {
        return;
      }
      PathIsShort(data.color[..], path, data.Sorted(), u);
    }
    return true;
  }

  lemma PathIsShort(color: seq<Color>, path: seq<nat>, sorted: seq<nat>, u: nat)
    requires ColorsOk(color, path + [u], sorted)
    ensures |path| + |sorted| < |color|
  {
    ColorsNumbered(color, path, sorted, u);
    if |path| + |sorted| >= |color| {
      var all := path + ([u] + sorted);
      forall i, j | 0 <= i < j < |all|
        ensures all[i] != all[j]
      {
        assert i < |path| ==> all[i] in path;
        assert j >= |path| ==> all[j] in [u] + sorted;
      }
      ListIsShort(|color|, all);
    }
  }

  /** Numbers u after everything reachable from it, or finds a cycle. */
  method TopSortImpl(graph: Graph, u: nat, data: TopSortData, ghost path: seq<nat>) returns (success: bool)
    requires graph.Valid() && Searching(graph.edges, graph.vertCount, data, path) && u < graph.vertCount
    requires path != [] ==> (path[|path| - 1], u) in graph.edges
    modifies data, data.sortedResult, data.color
    ensures success ==> Searching(graph.edges, graph.vertCount, data, path) && data.count <= old(data.count)
    ensures success ==> data.color[u] == Black && BlackStays(old(data.color[..]), data.color[..])
    ensures !success ==> HasCycle(graph.edges)
    decreases data.count + 1 - |path|, 2
  {
    if data.color[u] == Gray {
      CycleClosed(graph.edges, path, u);
      return false;
    }
    if data.color[u] == Black {
      return true;
    }
    Enter(u, data, graph.edges, graph.vertCount, path);
    success := SearchSuccessors(graph, u, data, path);
    if success {
      Number(u, data, graph.edges, graph.vertCount, path);
    }
  }

  /** True exactly for a graph without cycles, and then the result is a topological order. */
  method TopSort(graph: Graph, result: array<nat>) returns (success: bool)
    requires graph.Valid() && result.Length == graph.vertCount
    modifies result
    ensures success <==> !HasCycle(graph.edges)
    ensures success ==> IsTopologicalOrder(graph.vertCount, graph.edges, result[..])
  {
    var data := new TopSortData(result, graph.vertCount);
    for u := 0 to graph.vertCount
      invariant Searching(graph.edges, graph.vertCount, data, [])
      invariant forall v :: 0 <= v < u ==> data.color[v] == Black
    {
      if data.color[u] == White {
        success := TopSortImpl(graph, u, data, []);
        if !success {
          return false;
        }
      }
    }
    AllNumbered(data.color[..], data.Sorted());
    assert result[..] == data.Sorted();
    OrderedIsAcyclic(graph.vertCount, graph.edges, result[..]);
    return true;
  }

  lemma AllNumbered(color: seq<Color>, sorted: seq<nat>)
    requires ColorsOk(color, [], sorted) && forall v :: 0 <= v < |color| ==> color[v] == Black
    ensures |sorted| == |color|
  {
    ListIsShort(|color|, sorted);
    ListIsLong(|color|, sorted);
  }
}
