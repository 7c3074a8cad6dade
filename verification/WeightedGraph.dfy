/** The adjacency matrix of Dijkstra's algorithm and its edge iterator. */
module WeightedGraph {
  import opened ExitCodes

  /** The weight of every ordered pair of adjacent vertices. */
  type Edges = map<(nat, nat), nat>

  const UINT32_MAX: nat := 0xFFFF_FFFF

  function ToInt32(x: nat): int
    requires x <= UINT32_MAX
  {
    if x < 0x8000_0000 then x else x - 0x1_0000_0000
  }

  function ToUint32(x: int): nat
    requires -0x8000_0000 <= x < 0x8000_0000
  {
    if x < 0 then x + 0x1_0000_0000 else x
  }

  /** The greatest 32-bit length is stored as -1, which means that there is no edge. */
  ghost function WithEdge(edges: Edges, u: nat, v: nat, length: nat): Edges {
    if length == UINT32_MAX then edges - {(u, v), (v, u)} else edges[(u, v) := length][(v, u) := length]
  }

  ghost predicate EdgesOk(n: nat, edges: Edges) {
    forall u: nat, v: nat :: (u, v) in edges ==>
      u < n && v < n && edges[(u, v)] < UINT32_MAX && (v, u) in edges && edges[(v, u)] == edges[(u, v)]
  }

  class Graph {
    const adjMatrix: array2<int>
    const vertCount: nat
    ghost var edges: Edges

    ghost predicate EntryOk(u: nat, v: nat)
      requires adjMatrix.Length0 == adjMatrix.Length1 == vertCount && u < vertCount && v < vertCount
      reads this, adjMatrix
    {
      && -0x8000_0000 <= adjMatrix[u, v] < 0x8000_0000
      && (adjMatrix[u, v] == -1 ==> (u, v) !in edges)
      && (adjMatrix[u, v] != -1 ==> (u, v) in edges && edges[(u, v)] == ToUint32(adjMatrix[u, v]))
    }

    ghost predicate Valid()
      reads this, adjMatrix
    {
      && adjMatrix.Length0 == adjMatrix.Length1 == vertCount > 0
      && EdgesOk(vertCount, edges)
      && forall u: nat, v: nat :: u < vertCount && v < vertCount ==> EntryOk(u, v)
    }

    constructor (vertexCount: nat)
      requires vertexCount > 0
      ensures Valid() && fresh(adjMatrix) && vertCount == vertexCount && edges == map[]
    {
      vertCount := vertexCount;
      adjMatrix := new int[vertexCount, vertexCount]((_, _) => -1);
      edges := map[];
    }

    method AddEdge(u: nat, v: nat, length: nat) returns (code: ExitCode)
      requires Valid() && length <= UINT32_MAX
      modifies this, adjMatrix
      ensures Valid()
      ensures code == if u < vertCount && v < vertCount then Success else OutOfBounds
      ensures edges == if code == Success then WithEdge(old(edges), u, v, length) else old(edges)
    {
      if u >= vertCount || v >= vertCount {
        return OutOfBounds;
      }
      adjMatrix[u, v] := ToInt32(length);
      adjMatrix[v, u] := ToInt32(length);
      edges := WithEdge(edges, u, v, length);
      forall x: nat, y: nat | x < vertCount && y < vertCount
        ensures EntryOk(x, y)
      {
        assert old(EntryOk(x, y));
      }
      return Success;
    }

    predicate HasEdge(u: nat, v: nat)
      requires Valid() && u < vertCount && v < vertCount
      reads this, adjMatrix
      ensures HasEdge(u, v) <==> (u, v) in edges
    {
      assert EntryOk(u, v);
      adjMatrix[u, v] != -1
    }
  }

  class EdgeIterator {
    const graph: Graph
    const u: nat
    var curV: int

    constructor (graph: Graph, vertex: nat)
      ensures this.graph == graph && u == vertex && curV == -1
    {
      this.graph := graph;
      u := vertex;
      curV := -1;
    }

    /** The next neighbour after the current one, with the weight of its edge. */
    method NextEdge() returns (found: bool, vertex: nat, length: nat)
      requires graph.Valid() && u < graph.vertCount && -1 <= curV < graph.vertCount
      modifies this
      ensures found ==>
        && old(curV) < curV == vertex < graph.vertCount
        && (u, vertex) in graph.edges && length == graph.edges[(u, vertex)]
        && forall v: nat :: old(curV) < v < vertex ==> (u, v) !in graph.edges
      ensures !found ==>
        && curV == -1
        && forall v: nat :: old(curV) < v < graph.vertCount ==> (u, v) !in graph.edges
    {
      vertex, length := 0, 0;
      for v := curV + 1 to graph.vertCount
        invariant curV == old(curV)
        invariant forall x: nat :: old(curV) < x < v ==> (u, x) !in graph.edges
      {
        if graph.HasEdge(u, v) {
          assert graph.EntryOk(u, v);
          length := ToUint32(graph.adjMatrix[u, v]);
          curV := v;
          return true, v, length;
        }
      }
      curV := -1;
      return false, vertex, length;
    }
  }
}
