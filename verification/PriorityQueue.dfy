/** The binary heap of Dijkstra's algorithm: an array that grows, sifted in place. */
module PriorityQueue {
  import opened ExitCodes

  datatype Node = Node(vertex: nat, dist: nat)

  /** The greatest node is the one with the least distance. */
  function NodeCompare(a: Node, b: Node): (c: int)
    ensures c < 0 <==> b.dist < a.dist
  {
    if a.dist < b.dist then 1 else if a.dist == b.dist then 0 else -1
  }

  function Parent(i: int): nat
    requires i > 0
  {
    (i - 1) / 2
  }

  predicate InOrder(s: seq<Node>, i: int)
    requires 0 <= i < |s|
  {
    i > 0 ==> s[Parent(i)].dist <= s[i].dist
  }

  /** Every node but the root is no nearer than its parent. */
  predicate IsHeap(s: seq<Node>) {
    forall i :: 0 <= i < |s| ==> InOrder(s, i)
  }

  /** The children of k are no nearer than the parent of k. */
  predicate Bypassed(s: seq<Node>, k: int)
    requires 0 <= k < |s|
  {
    k > 0 ==> forall i :: 0 < i < |s| && Parent(i) == k ==> s[Parent(k)].dist <= s[i].dist
  }

  /** Only the order between k and its parent may be broken. */
  predicate HeapButAt(s: seq<Node>, k: int)
    requires 0 <= k < |s|
  {
    (forall i :: 0 <= i < |s| && i != k ==> InOrder(s, i)) && Bypassed(s, k)
  }

  /** Only the order between k and its children may be broken. */
  predicate HeapButBelow(s: seq<Node>, k: int)
    requires 0 <= k < |s|
  {
    (forall i :: 0 < i < |s| && Parent(i) != k ==> InOrder(s, i)) && Bypassed(s, k)
  }

  function Swapped(s: seq<Node>, i: int, j: int): seq<Node>
    requires 0 <= i < |s| && 0 <= j < |s|
  {
    s[i := s[j]][j := s[i]]
  }

  lemma SwapUp(s: seq<Node>, k: int)
    requires 0 < k < |s| && HeapButAt(s, k) && s[k].dist < s[Parent(k)].dist
    ensures HeapButAt(Swapped(s, Parent(k), k), Parent(k))
  {
    var p, t := Parent(k), Swapped(s, Parent(k), k);
    forall i | 0 <= i < |t| && i != p
      ensures InOrder(t, i)
    {
      assert InOrder(s, p);
      assert i != k ==> InOrder(s, i);
    }
    assert InOrder(s, p);
    forall i | 0 < i < |t| && Parent(i) == p && p > 0
      ensures t[Parent(p)].dist <= t[i].dist
    {
      assert i != k ==> InOrder(s, i);
    }
  }

  lemma SwapDown(s: seq<Node>, k: int, c: int)
    requires 0 <= k < c < |s| && Parent(c) == k && HeapButBelow(s, k)
    requires s[c].dist < s[k].dist
    requires forall i :: 0 < i < |s| && Parent(i) == k ==> s[c].dist <= s[i].dist
    ensures HeapButBelow(Swapped(s, k, c), c)
  {
    var t := Swapped(s, k, c);
    forall i | 0 < i < |t| && Parent(i) != c
      ensures InOrder(t, i)
    {
      assert Parent(i) != k ==> InOrder(s, i);
    }
    forall i | 0 < i < |t| && Parent(i) == c
      ensures t[Parent(c)].dist <= t[i].dist
    {
      assert InOrder(s, i);
    }
  }

  lemma LeastChild(s: seq<Node>, k: int, c: int)
    requires 0 <= k < |s| && 0 <= c < |s|
    requires 2 * k + 1 < |s| ==> s[c].dist <= s[2 * k + 1].dist
    requires 2 * k + 2 < |s| ==> s[c].dist <= s[2 * k + 2].dist
    ensures forall i :: 0 < i < |s| && Parent(i) == k ==> s[c].dist <= s[i].dist
    ensures c == k && HeapButBelow(s, k) ==> IsHeap(s)
  {
    forall i | 0 < i < |s| && Parent(i) == k
      ensures s[c].dist <= s[i].dist
    {
      assert i == 2 * k + 1 || i == 2 * k + 2;
    }
    if c == k && HeapButBelow(s, k) {
      forall i | 0 <= i < |s|
        ensures InOrder(s, i)
      {
      }
    }
  }

  lemma {:induction false} RootIsLeast(s: seq<Node>, i: nat)
    requires IsHeap(s) && i < |s|
    ensures s[0].dist <= s[i].dist
    decreases i
  {
    if i > 0 {
      assert InOrder(s, i);
      RootIsLeast(s, Parent(i));
    }
  }

  lemma TakeSwapped(s: seq<Node>, n: int, i: int, j: int)
    requires 0 <= i < n <= |s| && 0 <= j < n
    ensures Swapped(s, i, j)[..n] == Swapped(s[..n], i, j)
    ensures multiset(Swapped(s[..n], i, j)) == multiset(s[..n])
  {
  }

  lemma Appended(s: seq<Node>, x: Node)
    requires IsHeap(s)
    ensures HeapButAt(s + [x], |s|)
    ensures multiset(s + [x]) == multiset(s) + multiset{x}
  {
    forall i | 0 <= i < |s|
      ensures InOrder(s + [x], i)
    {
      assert InOrder(s, i);
    }
  }

  /** The last node takes the place of the first. */
  function WithoutHead(s: seq<Node>): seq<Node>
    requires |s| > 0
  {
    if |s| == 1 then [] else s[..|s| - 1][0 := s[|s| - 1]]
  }

  lemma HeadRemoved(s: seq<Node>)
    requires IsHeap(s) && |s| > 0
    ensures WithoutHead(s) != [] ==> HeapButBelow(WithoutHead(s), 0)
    ensures multiset(s) == multiset(WithoutHead(s)) + multiset{s[0]}
    ensures forall y :: y in multiset(s) ==> s[0].dist <= y.dist
  {
    var t := WithoutHead(s);
    forall i | 0 < i < |t| && Parent(i) != 0
      ensures InOrder(t, i)
    {
      assert InOrder(s, i);
    }
    assert s == s[..|s| - 1] + [s[|s| - 1]];
    forall y | y in multiset(s)
      ensures s[0].dist <= y.dist
    {
      var i :| 0 <= i < |s| && s[i] == y;
      RootIsLeast(s, i);
    }
  }

  class Queue {
    var heap: array<Node>
    var size: nat

    ghost predicate Valid()
      reads this, heap
    {
      size <= heap.Length && IsHeap(heap[..size])
    }

    ghost function Contents(): multiset<Node>
      requires size <= heap.Length
      reads this, heap
    {
      multiset(heap[..size])
    }

    constructor (sizeToReserve: nat)
      ensures Valid() && fresh(heap) && heap.Length == sizeToReserve && size == 0
      ensures Contents() == multiset{}
    {
      heap := new Node[sizeToReserve](_ => Node(0, 0));
      size := 0;
    }

    method Swap(i: nat, j: nat, ghost n: nat)
      requires i < n <= heap.Length && j < n
      modifies heap
      ensures heap[..n] == Swapped(old(heap[..n]), i, j)
      ensures multiset(heap[..n]) == multiset(old(heap[..n]))
    {
      TakeSwapped(heap[..], n, i, j);
      heap[i], heap[j] := heap[j], heap[i];
      assert heap[..] == Swapped(old(heap[..]), i, j);
    }

    method HeapifyBottomUp(node: nat)
      requires size < heap.Length && node <= size && HeapButAt(heap[..size + 1], node)
      modifies heap
      ensures IsHeap(heap[..size + 1])
      ensures multiset(heap[..size + 1]) == multiset(old(heap[..size + 1]))
      decreases node
    {
      ghost var s := heap[..size + 1];
      if node == 0 {
        assert InOrder(s, 0);
        return;
      }
      var root := (node - 1) / 2;
      if NodeCompare(heap[root], heap[node]) < 0 {
        SwapUp(s, node);
        Swap(root, node, size + 1);
        HeapifyBottomUp(root);
      } else {
        assert InOrder(s, node);
      }
    }

    /** Growing by half makes room if there are at least two places. */
    method Grow()
      requires size == heap.Length >= 2
      modifies this`heap
      ensures fresh(heap) && heap.Length > size && heap[..size] == old(heap[..size])
    {
      var grown := new Node[size * 3 / 2](_ => Node(0, 0));
      for i := 0 to size
        invariant heap == old(heap) && unchanged(heap) && grown[..i] == heap[..i]
      {
        grown[i] := heap[i];
        assert grown[..i + 1] == grown[..i] + [heap[i]] && heap[..i + 1] == heap[..i] + [heap[i]];
      }
      heap := grown;
    }

    method Place(x: Node)
      requires Valid() && size < heap.Length
      modifies this`size, heap
      ensures Valid() && size == old(size) + 1
      ensures Contents() == old(Contents()) + multiset{x}
    {
      ghost var s := heap[..size];
      heap[size] := x;
      assert heap[..size + 1] == s + [x];
      Appended(s, x);
      HeapifyBottomUp(size);
      size := size + 1;
    }

    method Add(x: Node)
      requires Valid() && (size < heap.Length || heap.Length >= 2)
      modifies this, heap
      ensures Valid() && (heap == old(heap) || fresh(heap))
      ensures heap.Length >= old(heap.Length)
      ensures size == old(size) + 1
      ensures Contents() == old(Contents()) + multiset{x}
    {
      if size == heap.Length {
        Grow();
      }
      Place(x);
    }

    /** The nearest of a node and its children, the node itself when none is nearer. */
    method LargestOfFamily(root: nat) returns (largest: nat)
      requires root < size <= heap.Length
      ensures root <= largest < size
      ensures largest != root ==> Parent(largest) == root && heap[largest].dist < heap[root].dist
      ensures 2 * root + 1 < size ==> heap[largest].dist <= heap[2 * root + 1].dist
      ensures 2 * root + 2 < size ==> heap[largest].dist <= heap[2 * root + 2].dist
    {
      var left, right := root * 2 + 1, root * 2 + 2;
      largest := root;
      if left < size && NodeCompare(heap[largest], heap[left]) < 0 {
        largest := left;
      }
      if right < size && NodeCompare(heap[largest], heap[right]) < 0 {
        largest := right;
      }
    }

    method HeapifyUpBottom(root: nat)
      requires root < size <= heap.Length && HeapButBelow(heap[..size], root)
      modifies heap
      ensures IsHeap(heap[..size])
      ensures multiset(heap[..size]) == multiset(old(heap[..size]))
      decreases size - root
    {
      ghost var s := heap[..size];
      var largest := LargestOfFamily(root);
      LeastChild(s, root, largest);
      if largest != root {
        SwapDown(s, root, largest);
        Swap(root, largest, size);
        HeapifyUpBottom(largest);
      }
    }

    method RemoveHead()
      requires Valid() && size > 0
      modifies this`size, heap
      ensures Valid() && size == old(size) - 1
      ensures Contents() == multiset(WithoutHead(old(heap[..size])))
    {
      ghost var s := heap[..size];
      HeadRemoved(s);
      size := size - 1;
      heap[0] := heap[size];
      assert heap[..size] == WithoutHead(s);
      if size > 0 {
        HeapifyUpBottom(0);
      }
    }

    /** The node that leaves is a nearest one. */
    method Pop() returns (code: ExitCode, x: Node)
      requires Valid()
      modifies this`size, heap
      ensures Valid()
      ensures code == if old(size) == 0 then OutOfBounds else Success
      ensures code == OutOfBounds ==> size == 0
      ensures code == Success ==>
        && size == old(size) - 1
        && old(Contents()) == Contents() + multiset{x}
        && forall y :: y in old(Contents()) ==> x.dist <= y.dist
    {
      if size == 0 {
        return OutOfBounds, Node(0, 0);
      }
      HeadRemoved(heap[..size]);
      x := heap[0];
      RemoveHead();
      code := Success;
    }
  }
}
