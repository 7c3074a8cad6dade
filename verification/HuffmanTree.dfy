/** The two-queue construction of the Huffman tree. */
module HuffmanTree {
  import opened BitStream
  import opened HuffmanOptimality
  import opened HuffmanQueue
  import opened MachineWords
  import opened Sorting

  /** A tree in one of the queues, with the sum of the frequencies of its leaves. */
  datatype SortNode = SortNode(frequency: nat, tree: Tree<Byte>)

  /** The tree of frequencies behind a tree of bytes. */
  function Weighed(freq: seq<nat>, t: Tree<Byte>): (w: Tree<nat>)
    requires |freq| == 256
    ensures |Leaves(w)| == |Leaves(t)|
  {
    match t
    case Leaf(b) => Leaf(freq[b])
    case Node(l, r) => Node(Weighed(freq, l), Weighed(freq, r))
  }

  /** At every inner node the left subtree weighs at least as much as the right one. */
  ghost predicate LeftHeavy(freq: seq<nat>, t: Tree<Byte>)
    requires |freq| == 256
  {
    match t
    case Leaf(_) => true
    case Node(l, r) =>
      && LeftHeavy(freq, l) && LeftHeavy(freq, r)
      && Weight(Weighed(freq, l)) >= Weight(Weighed(freq, r))
  }

  ghost predicate NodeOk(freq: seq<nat>, n: SortNode)
    requires |freq| == 256
  {
    n.frequency == Weight(Weighed(freq, n.tree)) && LeftHeavy(freq, n.tree)
  }

  ghost predicate AllOk(freq: seq<nat>, ns: seq<SortNode>)
    requires |freq| == 256
  {
    forall i :: 0 <= i < |ns| ==> NodeOk(freq, ns[i])
  }

  predicate Sorted(ns: seq<SortNode>) {
    forall i, j :: 0 <= i < j < |ns| ==> ns[i].frequency <= ns[j].frequency
  }

  predicate AllAtLeast(ns: seq<SortNode>, lo: nat) {
    forall i :: 0 <= i < |ns| ==> lo <= ns[i].frequency
  }

  predicate AllAtMost(ns: seq<SortNode>, hi: nat) {
    forall i :: 0 <= i < |ns| ==> ns[i].frequency <= hi
  }

  // ---------- What a queue holds ----------

  function One(yes: bool): nat { if yes then 1 else 0 }

  /** How many leaves of a tree hold a byte. */
  function LeafCount(t: Tree<Byte>, b: Byte): nat {
    match t
    case Leaf(v) => One(v == b)
    case Node(l, r) => LeafCount(l, b) + LeafCount(r, b)
  }

  /** How many leaves of all trees in a queue hold a byte. */
  function ByteCount(ns: seq<SortNode>, b: Byte): nat {
    if ns == [] then 0 else LeafCount(ns[0].tree, b) + ByteCount(ns[1..], b)
  }

  /** How many nodes of a queue have a given frequency. */
  function Count(ns: seq<SortNode>, w: nat): nat {
    if ns == [] then 0 else One(ns[0].frequency == w) + Count(ns[1..], w)
  }

  /** What has been spent on merges within the trees of a queue. */
  function Spent(freq: seq<nat>, ns: seq<SortNode>): nat
    requires |freq| == 256
  {
    if ns == [] then 0 else Cost(Weighed(freq, ns[0].tree)) + Spent(freq, ns[1..])
  }

  /** The bag holds the frequencies of both queues. */
  ghost predicate IsBagOf(now: multiset<nat>, l: seq<SortNode>, c: seq<SortNode>) {
    forall w :: now[w] == Count(l, w) + Count(c, w)
  }

  lemma {:induction false} PushCount(ns: seq<SortNode>, x: SortNode, w: nat)
    ensures Count(ns + [x], w) == Count(ns, w) + One(x.frequency == w)
  {
    if ns == [] {
      assert ns + [x] == [x];
    } else {
      assert (ns + [x])[1..] == ns[1..] + [x];
      PushCount(ns[1..], x, w);
    }
  }

  lemma {:induction false} PushByteCount(ns: seq<SortNode>, x: SortNode, b: Byte)
    ensures ByteCount(ns + [x], b) == ByteCount(ns, b) + LeafCount(x.tree, b)
  {
    if ns == [] {
      assert ns + [x] == [x];
    } else {
      assert (ns + [x])[1..] == ns[1..] + [x];
      PushByteCount(ns[1..], x, b);
    }
  }

  lemma {:induction false} PushSpent(freq: seq<nat>, ns: seq<SortNode>, x: SortNode)
    requires |freq| == 256
    ensures Spent(freq, ns + [x]) == Spent(freq, ns) + Cost(Weighed(freq, x.tree))
  {
    if ns == [] {
      assert ns + [x] == [x];
    } else {
      assert (ns + [x])[1..] == ns[1..] + [x];
      PushSpent(freq, ns[1..], x);
    }
  }

  lemma {:induction false} CountAtLeast(ns: seq<SortNode>, lo: nat, w: nat)
    requires AllAtLeast(ns, lo) && Count(ns, w) > 0
    ensures lo <= w
  {
    if ns[0].frequency != w {
      CountAtLeast(ns[1..], lo, w);
    }
  }

  // ---------- The leaves ----------

  /** One leaf for every byte below n that occurs. */
  function Singles(freq: seq<nat>, n: nat): seq<SortNode>
    requires |freq| == 256 && n <= 256
  {
    if n == 0 then []
    else Singles(freq, n - 1) + (if freq[n - 1] == 0 then [] else [SortNode(freq[n - 1], Leaf(n - 1))])
  }

  /** All nodes are single bytes that occur, with their frequencies. */
  ghost predicate AllLeaves(freq: seq<nat>, ns: seq<SortNode>)
    requires |freq| == 256
  {
    forall i :: 0 <= i < |ns| ==> IsSingle(freq, ns[i])
  }

  ghost predicate IsSingle(freq: seq<nat>, n: SortNode)
    requires |freq| == 256
  {
    n.tree.Leaf? && n.frequency == freq[n.tree.value]
  }

  lemma {:induction false} SinglesAreLeaves(freq: seq<nat>, n: nat)
    requires |freq| == 256 && n <= 256
    ensures AllLeaves(freq, Singles(freq, n))
  {
    if n > 0 {
      SinglesAreLeaves(freq, n - 1);
    }
  }

  /** Every byte that occurs has one leaf, and no other byte has any. */
  lemma {:induction false} SinglesBytes(freq: seq<nat>, n: nat, b: Byte)
    requires |freq| == 256 && n <= 256
    ensures ByteCount(Singles(freq, n), b) == One(b < n && freq[b] > 0)
  {
    if n > 0 {
      SinglesBytes(freq, n - 1, b);
      if freq[n - 1] != 0 {
        PushByteCount(Singles(freq, n - 1), SortNode(freq[n - 1], Leaf(n - 1)), b);
      } else {
        assert Singles(freq, n) == Singles(freq, n - 1);
      }
    }
  }

  lemma {:induction false} ByteCountWithout(ns: seq<SortNode>, k: nat, b: Byte)
    requires k < |ns|
    ensures ByteCount(ns, b) == ByteCount(ns[..k] + ns[k + 1..], b) + LeafCount(ns[k].tree, b)
  {
    if k == 0 {
      assert ns[..k] + ns[k + 1..] == ns[1..];
    } else {
      ByteCountWithout(ns[1..], k - 1, b);
      assert (ns[..k] + ns[k + 1..])[1..] == ns[1..][..k - 1] + ns[1..][k..];
    }
  }

  lemma BagWithout(ns: seq<SortNode>, k: nat)
    requires k < |ns|
    ensures multiset(ns[..k] + ns[k + 1..]) == multiset(ns) - multiset{ns[k]}
  {
    assert ns == ns[..k] + [ns[k]] + ns[k + 1..];
  }

  lemma FirstIsIn(ns: seq<SortNode>, ms: seq<SortNode>) returns (k: nat)
    requires multiset(ns) == multiset(ms) && ns != []
    ensures k < |ms| && ms[k] == ns[0] && multiset(ns[1..]) == multiset(ms[..k] + ms[k + 1..])
  {
    assert ns[0] in multiset(ms);
    k :| 0 <= k < |ms| && ms[k] == ns[0];
    BagWithout(ms, k);
    assert ns == [ns[0]] + ns[1..];
  }

  lemma {:induction false} ByteCountPermuted(ns: seq<SortNode>, ms: seq<SortNode>, b: Byte)
    requires multiset(ns) == multiset(ms)
    ensures ByteCount(ns, b) == ByteCount(ms, b)
    decreases |ns|
  {
    if ns == [] {
      assert |ms| == |multiset(ms)| == 0;
    } else {
      var k := FirstIsIn(ns, ms);
      ByteCountWithout(ms, k, b);
      ByteCountPermuted(ns[1..], ms[..k] + ms[k + 1..], b);
    }
  }

  /** qsort by frequency: any sorted permutation. */
  method SortByFrequency(ns: seq<SortNode>) returns (sorted: seq<SortNode>)
    ensures Sorted(sorted) && multiset(sorted) == multiset(ns)
    ensures forall b: Byte :: ByteCount(sorted, b) == ByteCount(ns, b)
  {
    sorted := SortBy(ns, (n: SortNode) => n.frequency);
    forall b: Byte
      ensures ByteCount(sorted, b) == ByteCount(ns, b)
    {
      ByteCountPermuted(sorted, ns, b);
    }
  }

  lemma PermutedLeaves(freq: seq<nat>, ns: seq<SortNode>, ms: seq<SortNode>)
    requires |freq| == 256 && AllLeaves(freq, ms) && multiset(ns) == multiset(ms)
    ensures AllLeaves(freq, ns) && |ns| == |ms|
  {
    assert |ns| == |multiset(ns)| && |ms| == |multiset(ms)|;
    forall i | 0 <= i < |ns|
      ensures IsSingle(freq, ns[i])
    {
      assert ns[i] in multiset(ms);
      assert ns[i] in ms;
    }
  }

  method PrepareLeafNodesQueue(freq: seq<nat>, uniqueBytesCount: nat) returns (leafNodes: Queue<SortNode>)
    requires |freq| == 256 && uniqueBytesCount == |Singles(freq, 256)|
    ensures leafNodes.Valid() && fresh(leafNodes) && fresh(leafNodes.Repr)
    ensures Sorted(leafNodes.items) && AllLeaves(freq, leafNodes.items) && |leafNodes.items| == uniqueBytesCount
    ensures forall b: Byte :: ByteCount(leafNodes.items, b) == One(freq[b] > 0)
  {
    var leaves := [];
    for i := 0 to 256
      invariant leaves == Singles(freq, i)
    {
      if freq[i] != 0 {
        leaves := leaves + [SortNode(freq[i], Leaf(i))];
      }
    }
    var sorted := SortByFrequency(leaves);
    SinglesAreLeaves(freq, 256);
    PermutedLeaves(freq, sorted, leaves);
    forall b: Byte
      ensures ByteCount(sorted, b) == One(freq[b] > 0)
    {
      SinglesBytes(freq, 256, b);
    }
    leafNodes := new Queue();
    for i := 0 to |sorted|
      invariant leafNodes.Valid() && leafNodes.items == sorted[..i] && fresh(leafNodes) && fresh(leafNodes.Repr)
    {
      leafNodes.Push(sorted[i]);
    }
    assert sorted[..|sorted|] == sorted;
  }

  // ---------- The least of two queues ----------

  /** No node is in both queues. */
  ghost predicate TwoQueues(a: Queue<SortNode>, b: Queue<SortNode>)
    reads a, a.Repr, b, b.Repr
  {
    a.Valid() && b.Valid() && a != b && a.Repr !! b.Repr
  }

  /** One node has been taken from the front of one of two queues. */
  ghost predicate Popped(l: seq<SortNode>, c: seq<SortNode>, x: SortNode, l': seq<SortNode>, c': seq<SortNode>) {
    || (l != [] && x == l[0] && l' == l[1..] && c' == c)
    || (c != [] && x == c[0] && l' == l && c' == c[1..])
  }

  method PopMinimum(leafNodes: Queue<SortNode>, compositeNodes: Queue<SortNode>) returns (least: SortNode)
    requires TwoQueues(leafNodes, compositeNodes)
    requires leafNodes.items != [] || compositeNodes.items != []
    requires Sorted(leafNodes.items) && Sorted(compositeNodes.items)
    modifies leafNodes, compositeNodes
    ensures TwoQueues(leafNodes, compositeNodes)
    ensures leafNodes.Repr == old(leafNodes.Repr) && compositeNodes.Repr == old(compositeNodes.Repr)
    ensures Popped(old(leafNodes.items), old(compositeNodes.items), least, leafNodes.items, compositeNodes.items)
    ensures Sorted(leafNodes.items) && Sorted(compositeNodes.items)
    ensures AllAtLeast(leafNodes.items, least.frequency) && AllAtLeast(compositeNodes.items, least.frequency)
  {
    ghost var l, c := leafNodes.items, compositeNodes.items;
    if leafNodes.IsEmpty() {
      least := compositeNodes.Pop();
      FirstIsLeast(c);
    } else if compositeNodes.IsEmpty() {
      least := leafNodes.Pop();
      FirstIsLeast(l);
    } else {
      FirstIsLeast(l);
      FirstIsLeast(c);
      if leafNodes.GetFront().frequency < compositeNodes.GetFront().frequency {
        least := leafNodes.Pop();
      } else {
        least := compositeNodes.Pop();
      }
    }
  }

  lemma FirstIsLeast(ns: seq<SortNode>)
    requires Sorted(ns) && ns != []
    ensures AllAtLeast(ns, ns[0].frequency) && AllAtLeast(ns[1..], ns[0].frequency) && Sorted(ns[1..])
  {
  }

  lemma PoppedCount(l: seq<SortNode>, c: seq<SortNode>, x: SortNode, l': seq<SortNode>, c': seq<SortNode>, w: nat)
    requires Popped(l, c, x, l', c')
    ensures Count(l, w) + Count(c, w) == Count(l', w) + Count(c', w) + One(x.frequency == w)
  {
  }

  lemma PoppedByteCount(l: seq<SortNode>, c: seq<SortNode>, x: SortNode, l': seq<SortNode>, c': seq<SortNode>, b: Byte)
    requires Popped(l, c, x, l', c')
    ensures ByteCount(l, b) + ByteCount(c, b) == ByteCount(l', b) + ByteCount(c', b) + LeafCount(x.tree, b)
  {
  }

  lemma PoppedSpent(freq: seq<nat>, l: seq<SortNode>, c: seq<SortNode>, x: SortNode, l': seq<SortNode>, c': seq<SortNode>)
    requires |freq| == 256 && Popped(l, c, x, l', c')
    ensures Spent(freq, l) + Spent(freq, c) == Spent(freq, l') + Spent(freq, c') + Cost(Weighed(freq, x.tree))
  {
  }

  lemma PoppedParts(freq: seq<nat>, l: seq<SortNode>, c: seq<SortNode>, x: SortNode, l': seq<SortNode>, c': seq<SortNode>,
                    lo: nat, hi: nat)
    requires |freq| == 256 && Popped(l, c, x, l', c') && AllOk(freq, l) && AllOk(freq, c)
    ensures NodeOk(freq, x) && AllOk(freq, l') && AllOk(freq, c')
    ensures AllAtMost(c, hi) ==> AllAtMost(c', hi)
    ensures AllAtLeast(l, lo) && AllAtLeast(c, lo) ==> lo <= x.frequency
  {
  }

  // ---------- One merge ----------

  /** The node that a merge makes: the second least on the left, the least on the right. */
  function MergedNode(m1: SortNode, m2: SortNode): SortNode {
    SortNode(m1.frequency + m2.frequency, Node(m2.tree, m1.tree))
  }

  /** The queues during the construction: both are sorted, and the composite ones lie between
      lo and twice lo, so that every new sum belongs at the back. */
  ghost predicate InOrder(freq: seq<nat>, l: seq<SortNode>, c: seq<SortNode>, lo: nat)
    requires |freq| == 256
  {
    && Sorted(l) && Sorted(c) && AllOk(freq, l) && AllOk(freq, c)
    && AllAtLeast(l, lo) && AllAtLeast(c, lo) && AllAtMost(c, 2 * lo)
  }

  lemma SortedPush(ns: seq<SortNode>, x: SortNode)
    requires Sorted(ns) && AllAtMost(ns, x.frequency)
    ensures Sorted(ns + [x])
  {
  }

  /** Popping two least nodes and pushing their merge keeps the queues in order. */
  lemma MergeKeepsOrder(freq: seq<nat>, l: seq<SortNode>, c: seq<SortNode>, lo: nat,
                        m1: SortNode, l1: seq<SortNode>, c1: seq<SortNode>,
                        m2: SortNode, l2: seq<SortNode>, c2: seq<SortNode>)
    requires |freq| == 256 && InOrder(freq, l, c, lo)
    requires Popped(l, c, m1, l1, c1) && Popped(l1, c1, m2, l2, c2)
    requires AllAtLeast(l1, m1.frequency) && AllAtLeast(c1, m1.frequency)
    requires AllAtLeast(l2, m2.frequency) && AllAtLeast(c2, m2.frequency)
    requires Sorted(l2) && Sorted(c2)
    ensures m1.frequency <= m2.frequency
    ensures NodeOk(freq, m1) && NodeOk(freq, m2)
    ensures InOrder(freq, l2, c2 + [MergedNode(m1, m2)], m2.frequency)
  {
    PoppedParts(freq, l, c, m1, l1, c1, lo, 2 * lo);
    PoppedParts(freq, l1, c1, m2, l2, c2, m1.frequency, 2 * lo);
    SortedPush(c2, MergedNode(m1, m2));
  }

  /** The two popped frequencies are the least of all. */
  lemma PoppedAreLeast(now: multiset<nat>, l: seq<SortNode>, c: seq<SortNode>,
                       m1: SortNode, l1: seq<SortNode>, c1: seq<SortNode>,
                       m2: SortNode, l2: seq<SortNode>, c2: seq<SortNode>)
    requires IsBagOf(now, l, c)
    requires Popped(l, c, m1, l1, c1) && Popped(l1, c1, m2, l2, c2)
    requires m1.frequency <= m2.frequency
    requires AllAtLeast(l2, m2.frequency) && AllAtLeast(c2, m2.frequency)
    ensures TwoLeast(now, m1.frequency, m2.frequency)
  {
    var a, b := m1.frequency, m2.frequency;
    PoppedCount(l, c, m1, l1, c1, a);
    PoppedCount(l, c, m1, l1, c1, b);
    PoppedCount(l1, c1, m2, l2, c2, b);
    forall w | w in now - multiset{a}
      ensures b <= w
    {
      PoppedCount(l, c, m1, l1, c1, w);
      PoppedCount(l1, c1, m2, l2, c2, w);
      if w != b {
        if Count(l2, w) > 0 {
          CountAtLeast(l2, b, w);
        } else {
          CountAtLeast(c2, b, w);
        }
      }
    }
  }

  lemma MergeCount(l: seq<SortNode>, c: seq<SortNode>, m1: SortNode, l1: seq<SortNode>, c1: seq<SortNode>,
                   m2: SortNode, l2: seq<SortNode>, c2: seq<SortNode>, w: nat)
    requires Popped(l, c, m1, l1, c1) && Popped(l1, c1, m2, l2, c2)
    ensures Count(l2, w) + Count(c2 + [MergedNode(m1, m2)], w) + One(m1.frequency == w) + One(m2.frequency == w)
         == Count(l, w) + Count(c, w) + One(m1.frequency + m2.frequency == w)
  {
    PoppedCount(l, c, m1, l1, c1, w);
    PoppedCount(l1, c1, m2, l2, c2, w);
    PushCount(c2, MergedNode(m1, m2), w);
  }

  lemma JoinCount(now: multiset<nat>, a: nat, b: nat, w: nat)
    requires TwoLeast(now, a, b)
    ensures Join(now, a, b)[w] + One(a == w) + One(b == w) == now[w] + One(a + b == w)
  {
    assert (now - multiset{a})[w] + One(a == w) == now[w];
    assert (now - multiset{a} - multiset{b})[w] + One(b == w) == (now - multiset{a})[w];
  }

  /** What the frequencies in the queues become. */
  lemma MergeJoins(now: multiset<nat>, l: seq<SortNode>, c: seq<SortNode>,
                   m1: SortNode, l1: seq<SortNode>, c1: seq<SortNode>,
                   m2: SortNode, l2: seq<SortNode>, c2: seq<SortNode>)
    requires IsBagOf(now, l, c) && TwoLeast(now, m1.frequency, m2.frequency)
    requires Popped(l, c, m1, l1, c1) && Popped(l1, c1, m2, l2, c2)
    ensures IsBagOf(Join(now, m1.frequency, m2.frequency), l2, c2 + [MergedNode(m1, m2)])
  {
    forall w
      ensures Join(now, m1.frequency, m2.frequency)[w] == Count(l2, w) + Count(c2 + [MergedNode(m1, m2)], w)
    {
      MergeCount(l, c, m1, l1, c1, m2, l2, c2, w);
      JoinCount(now, m1.frequency, m2.frequency, w);
    }
  }

  lemma MergeByteCount(l: seq<SortNode>, c: seq<SortNode>, m1: SortNode, l1: seq<SortNode>, c1: seq<SortNode>,
                       m2: SortNode, l2: seq<SortNode>, c2: seq<SortNode>, b: Byte)
    requires Popped(l, c, m1, l1, c1) && Popped(l1, c1, m2, l2, c2)
    ensures ByteCount(l2, b) + ByteCount(c2 + [MergedNode(m1, m2)], b) == ByteCount(l, b) + ByteCount(c, b)
  {
    PoppedByteCount(l, c, m1, l1, c1, b);
    PoppedByteCount(l1, c1, m2, l2, c2, b);
    PushByteCount(c2, MergedNode(m1, m2), b);
  }

  lemma MergeSpent(freq: seq<nat>, l: seq<SortNode>, c: seq<SortNode>, m1: SortNode, l1: seq<SortNode>, c1: seq<SortNode>,
                   m2: SortNode, l2: seq<SortNode>, c2: seq<SortNode>)
    requires |freq| == 256 && NodeOk(freq, m1) && NodeOk(freq, m2)
    requires Popped(l, c, m1, l1, c1) && Popped(l1, c1, m2, l2, c2)
    ensures Spent(freq, l2) + Spent(freq, c2 + [MergedNode(m1, m2)])
         == Spent(freq, l) + Spent(freq, c) + m1.frequency + m2.frequency
  {
    PoppedSpent(freq, l, c, m1, l1, c1);
    PoppedSpent(freq, l1, c1, m2, l2, c2);
    PushSpent(freq, c2, MergedNode(m1, m2));
  }

  // ---------- Trees over the same bytes ----------

  /** The bag of frequencies of a queue. */
  function ToBag(ns: seq<SortNode>): multiset<nat> {
    if ns == [] then multiset{} else multiset{ns[0].frequency} + ToBag(ns[1..])
  }

  lemma {:induction false} ToBagCount(ns: seq<SortNode>, w: nat)
    ensures ToBag(ns)[w] == Count(ns, w)
  {
    if ns != [] {
      ToBagCount(ns[1..], w);
    }
  }

  /** Of n bytes that occur as often as m says, how many have a given frequency. */
  function Spread(freq: seq<nat>, m: seq<nat>, w: nat): nat
    requires |m| <= |freq|
  {
    if m == [] then 0
    else Spread(freq, m[..|m| - 1], w) + (if freq[|m| - 1] == w then m[|m| - 1] else 0)
  }

  lemma {:induction false} SpreadSum(freq: seq<nat>, m: seq<nat>, m1: seq<nat>, m2: seq<nat>, w: nat)
    requires |m| == |m1| == |m2| <= |freq| && forall i :: 0 <= i < |m| ==> m[i] == m1[i] + m2[i]
    ensures Spread(freq, m, w) == Spread(freq, m1, w) + Spread(freq, m2, w)
  {
    if m != [] {
      var n := |m| - 1;
      SpreadSum(freq, m[..n], m1[..n], m2[..n], w);
    }
  }

  lemma {:induction false} SpreadOne(freq: seq<nat>, m: seq<nat>, b: int, w: nat)
    requires |m| <= |freq| && 0 <= b < |freq| && forall i :: 0 <= i < |m| ==> m[i] == One(i == b)
    ensures Spread(freq, m, w) == One(b < |m| && freq[b] == w)
  {
    if m != [] {
      SpreadOne(freq, m[..|m| - 1], b, w);
    }
  }

  lemma {:induction false} SpreadNone(freq: seq<nat>, m: seq<nat>, w: nat)
    requires |m| <= |freq| && forall i :: 0 <= i < |m| ==> m[i] == 0
    ensures Spread(freq, m, w) == 0
  {
    if m != [] {
      SpreadNone(freq, m[..|m| - 1], w);
    }
  }

  function TreeCounts(t: Tree<Byte>): seq<nat> {
    seq(256, b requires 0 <= b < 256 => LeafCount(t, b))
  }

  function QueueCounts(ns: seq<SortNode>): seq<nat> {
    seq(256, b requires 0 <= b < 256 => ByteCount(ns, b))
  }

  function WeightCount(t: Tree<nat>, w: nat): nat {
    match t
    case Leaf(v) => One(v == w)
    case Node(l, r) => WeightCount(l, w) + WeightCount(r, w)
  }

  lemma {:induction false} LeafBagCount(t: Tree<nat>, w: nat)
    ensures LeafBag(t)[w] == WeightCount(t, w)
  {
    match t
    case Leaf(_) =>
    case Node(l, r) =>
      LeafBagCount(l, w);
      LeafBagCount(r, w);
      assert multiset(Leaves(l) + Leaves(r)) == multiset(Leaves(l)) + multiset(Leaves(r));
  }

  lemma {:induction false} LeavesCount(t: Tree<Byte>, b: Byte)
    ensures multiset(Leaves(t))[b] == LeafCount(t, b)
  {
    match t
    case Leaf(_) =>
    case Node(l, r) =>
      LeavesCount(l, b);
      LeavesCount(r, b);
      assert multiset(Leaves(l) + Leaves(r)) == multiset(Leaves(l)) + multiset(Leaves(r));
  }

  /** The frequencies at the leaves of a tree depend only on which bytes occur how often. */
  lemma {:induction false} LeafFrequencies(freq: seq<nat>, t: Tree<Byte>, w: nat)
    requires |freq| == 256
    ensures WeightCount(Weighed(freq, t), w) == Spread(freq, TreeCounts(t), w)
  {
    match t
    case Leaf(b) =>
      SpreadOne(freq, TreeCounts(t), b, w);
    case Node(l, r) =>
      LeafFrequencies(freq, l, w);
      LeafFrequencies(freq, r, w);
      SpreadSum(freq, TreeCounts(t), TreeCounts(l), TreeCounts(r), w);
  }

  lemma {:induction false} LeafQueueCount(freq: seq<nat>, ns: seq<SortNode>, w: nat)
    requires |freq| == 256 && AllLeaves(freq, ns)
    ensures Count(ns, w) == Spread(freq, QueueCounts(ns), w)
  {
    if ns == [] {
      SpreadNone(freq, QueueCounts(ns), w);
    } else {
      assert IsSingle(freq, ns[0]);
      LeafQueueCount(freq, ns[1..], w);
      SpreadOne(freq, TreeCounts(ns[0].tree), ns[0].tree.value, w);
      SpreadSum(freq, QueueCounts(ns), TreeCounts(ns[0].tree), QueueCounts(ns[1..]), w);
    }
  }

  lemma {:induction false} LeafQueueOk(freq: seq<nat>, ns: seq<SortNode>)
    requires |freq| == 256 && AllLeaves(freq, ns)
    ensures Spent(freq, ns) == 0 && AllOk(freq, ns)
  {
    if ns != [] {
      LeafQueueOk(freq, ns[1..]);
      assert IsSingle(freq, ns[0]);
      assert forall i :: 1 <= i < |ns| ==> ns[i] == ns[1..][i - 1];
    }
  }

  /** A tree over the bytes of the leaf queue has the frequencies of the leaf queue. */
  lemma SameStart(freq: seq<nat>, ns: seq<SortNode>, t: Tree<Byte>)
    requires |freq| == 256 && AllLeaves(freq, ns) && forall b: Byte :: LeafCount(t, b) == ByteCount(ns, b)
    ensures LeafBag(Weighed(freq, t)) == ToBag(ns)
  {
    assert TreeCounts(t) == QueueCounts(ns);
    forall w: nat
      ensures LeafBag(Weighed(freq, t))[w] == ToBag(ns)[w]
    {
      LeafFrequencies(freq, t, w);
      LeafBagCount(Weighed(freq, t), w);
      LeafQueueCount(freq, ns, w);
      ToBagCount(ns, w);
    }
  }

  // ---------- The construction ----------

  /** A tree is optimal for the frequencies: no tree over the same bytes has a smaller sum of
      frequency times depth. */
  ghost predicate Optimal(freq: seq<nat>, root: Tree<Byte>)
    requires |freq| == 256
  {
    forall t: Tree<Byte> :: multiset(Leaves(t)) == multiset(Leaves(root)) ==>
      PathLength(Weighed(freq, root), 0) <= PathLength(Weighed(freq, t), 0)
  }

  lemma OptimalAtEnd(freq: seq<nat>, ns: seq<SortNode>, root: Tree<Byte>, now: multiset<nat>)
    requires |freq| == 256 && AllLeaves(freq, ns)
    requires forall b: Byte :: LeafCount(root, b) == ByteCount(ns, b)
    requires Dominates(ToBag(ns), now, Cost(Weighed(freq, root)))
    ensures Optimal(freq, root)
  {
    forall t: Tree<Byte> | multiset(Leaves(t)) == multiset(Leaves(root))
      ensures PathLength(Weighed(freq, root), 0) <= PathLength(Weighed(freq, t), 0)
    {
      forall b: Byte
        ensures LeafCount(t, b) == ByteCount(ns, b)
      {
        LeavesCount(t, b);
        LeavesCount(root, b);
      }
      SameStart(freq, ns, t);
      assert Improves(Weighed(freq, t), now, Cost(Weighed(freq, root)));
      CostIsPathLength(Weighed(freq, root), 0);
      CostIsPathLength(Weighed(freq, t), 0);
    }
  }

  /** The two least nodes leave the queues. */
  method PopTwo(leafNodes: Queue<SortNode>, compositeNodes: Queue<SortNode>)
    returns (m1: SortNode, ghost l1: seq<SortNode>, ghost c1: seq<SortNode>, m2: SortNode)
    requires TwoQueues(leafNodes, compositeNodes) && |leafNodes.items| + |compositeNodes.items| > 1
    requires Sorted(leafNodes.items) && Sorted(compositeNodes.items)
    modifies leafNodes, compositeNodes
    ensures TwoQueues(leafNodes, compositeNodes) && compositeNodes.Repr == old(compositeNodes.Repr)
    ensures Popped(old(leafNodes.items), old(compositeNodes.items), m1, l1, c1)
    ensures Popped(l1, c1, m2, leafNodes.items, compositeNodes.items)
    ensures AllAtLeast(l1, m1.frequency) && AllAtLeast(c1, m1.frequency)
    ensures AllAtLeast(leafNodes.items, m2.frequency) && AllAtLeast(compositeNodes.items, m2.frequency)
    ensures Sorted(leafNodes.items) && Sorted(compositeNodes.items)
  {
    m1 := PopMinimum(leafNodes, compositeNodes);
    l1, c1 := leafNodes.items, compositeNodes.items;
    m2 := PopMinimum(leafNodes, compositeNodes);
  }

  method PushComposite(ghost leafNodes: Queue<SortNode>, compositeNodes: Queue<SortNode>, x: SortNode)
    requires TwoQueues(leafNodes, compositeNodes)
    modifies compositeNodes, compositeNodes.Repr
    ensures TwoQueues(leafNodes, compositeNodes) && fresh(compositeNodes.Repr - old(compositeNodes.Repr))
    ensures leafNodes.items == old(leafNodes.items) && compositeNodes.items == old(compositeNodes.items) + [x]
  {
    compositeNodes.Push(x);
  }

  /** The two least nodes leave the queues, and their merge comes behind the composite ones. */
  method MergeLeast(leafNodes: Queue<SortNode>, compositeNodes: Queue<SortNode>)
    returns (m1: SortNode, ghost l1: seq<SortNode>, ghost c1: seq<SortNode>,
             m2: SortNode, ghost l2: seq<SortNode>, ghost c2: seq<SortNode>)
    requires TwoQueues(leafNodes, compositeNodes) && |leafNodes.items| + |compositeNodes.items| > 1
    requires Sorted(leafNodes.items) && Sorted(compositeNodes.items)
    modifies leafNodes, compositeNodes, compositeNodes.Repr
    ensures TwoQueues(leafNodes, compositeNodes) && fresh(compositeNodes.Repr - old(compositeNodes.Repr))
    ensures Popped(old(leafNodes.items), old(compositeNodes.items), m1, l1, c1) && Popped(l1, c1, m2, l2, c2)
    ensures AllAtLeast(l1, m1.frequency) && AllAtLeast(c1, m1.frequency)
    ensures AllAtLeast(l2, m2.frequency) && AllAtLeast(c2, m2.frequency) && Sorted(l2) && Sorted(c2)
    ensures leafNodes.items == l2 && compositeNodes.items == c2 + [MergedNode(m1, m2)]
  {
    m1, l1, c1, m2 := PopTwo(leafNodes, compositeNodes);
    l2, c2 := leafNodes.items, compositeNodes.items;
    PushComposite(leafNodes, compositeNodes, SortNode(m1.frequency + m2.frequency, Node(m2.tree, m1.tree)));
  }

  method BuildHuffmanTree(freq: seq<nat>, uniqueBytesCount: nat) returns (root: Tree<Byte>)
    requires |freq| == 256 && uniqueBytesCount == |Singles(freq, 256)| && uniqueBytesCount != 0
    ensures forall b: Byte :: LeafCount(root, b) == One(freq[b] > 0)
    ensures Optimal(freq, root) && LeftHeavy(freq, root)
  {
    var leafNodes := PrepareLeafNodesQueue(freq, uniqueBytesCount);
    ghost var start := leafNodes.items;
    ghost var now: multiset<nat> := ToBag(start);
    forall w: nat
      ensures now[w] == Count(start, w)
    {
      ToBagCount(start, w);
    }
    LeafQueueOk(freq, start);
    DominatesAtStart(now);
    if leafNodes.size == 1 {
      var node := leafNodes.Pop();
      root := node.tree;
      assert IsSingle(freq, start[0]) && start[1..] == [];
      OptimalAtEnd(freq, start, root, now);
      return;
    }
    var compositeNodes := new Queue<SortNode>();
    root, now := MergeAll(freq, leafNodes, compositeNodes, start);
    OptimalAtEnd(freq, start, root, now);
  }

  /** What the construction knows of both queues. */
  ghost predicate Merging(freq: seq<nat>, start: seq<SortNode>, l: seq<SortNode>, c: seq<SortNode>,
                          now: multiset<nat>, lo: nat)
    requires |freq| == 256
  {
    && InOrder(freq, l, c, lo) && IsBagOf(now, l, c)
    && Dominates(ToBag(start), now, Spent(freq, l) + Spent(freq, c))
    && forall b: Byte :: ByteCount(l, b) + ByteCount(c, b) == ByteCount(start, b)
  }

  lemma MergedEnd(freq: seq<nat>, start: seq<SortNode>, c: seq<SortNode>, now: multiset<nat>, lo: nat)
    requires |freq| == 256 && |c| == 1 && Merging(freq, start, [], c, now, lo)
    ensures forall b: Byte :: LeafCount(c[0].tree, b) == ByteCount(start, b)
    ensures Dominates(ToBag(start), now, Cost(Weighed(freq, c[0].tree))) && LeftHeavy(freq, c[0].tree)
  {
    assert c[1..] == [];
  }

  /** Merges until one tree is left. */
  method MergeAll(freq: seq<nat>, leafNodes: Queue<SortNode>, compositeNodes: Queue<SortNode>,
                  ghost start: seq<SortNode>) returns (root: Tree<Byte>, ghost now: multiset<nat>)
    requires |freq| == 256 && TwoQueues(leafNodes, compositeNodes) && compositeNodes.items == []
    requires leafNodes.items == start && |start| >= 2 && Merging(freq, start, start, [], ToBag(start), 0)
    modifies leafNodes, compositeNodes, compositeNodes.Repr
    ensures forall b: Byte :: LeafCount(root, b) == ByteCount(start, b)
    ensures Dominates(ToBag(start), now, Cost(Weighed(freq, root))) && LeftHeavy(freq, root)
  {
    now := ToBag(start);
    ghost var lo: nat := 0;
    while leafNodes.size + compositeNodes.size > 1
      invariant TwoQueues(leafNodes, compositeNodes) && fresh(compositeNodes.Repr - old(compositeNodes.Repr))
      invariant |leafNodes.items| >= 2 || compositeNodes.items != []
      invariant Merging(freq, start, leafNodes.items, compositeNodes.items, now, lo)
      decreases leafNodes.size + compositeNodes.size
    {
      ghost var l, c := leafNodes.items, compositeNodes.items;
      var m1, l1, c1, m2, l2, c2 := MergeLeast(leafNodes, compositeNodes);
      MergeStep(freq, start, now, l, c, lo, m1, l1, c1, m2, l2, c2);
      now := Join(now, m1.frequency, m2.frequency);
      lo := m2.frequency;
    }
    assert leafNodes.items == [];
    root := compositeNodes.GetFront().tree;
    MergedEnd(freq, start, compositeNodes.items, now, lo);
  }

  /** One round of the construction, all together. */
  lemma MergeStep(freq: seq<nat>, start: seq<SortNode>, now: multiset<nat>, l: seq<SortNode>, c: seq<SortNode>, lo: nat,
                  m1: SortNode, l1: seq<SortNode>, c1: seq<SortNode>,
                  m2: SortNode, l2: seq<SortNode>, c2: seq<SortNode>)
    requires |freq| == 256 && Merging(freq, start, l, c, now, lo)
    requires Popped(l, c, m1, l1, c1) && Popped(l1, c1, m2, l2, c2)
    requires AllAtLeast(l1, m1.frequency) && AllAtLeast(c1, m1.frequency)
    requires AllAtLeast(l2, m2.frequency) && AllAtLeast(c2, m2.frequency)
    requires Sorted(l2) && Sorted(c2)
    ensures Merging(freq, start, l2, c2 + [MergedNode(m1, m2)], Join(now, m1.frequency, m2.frequency), m2.frequency)
  {
    MergeKeepsOrder(freq, l, c, lo, m1, l1, c1, m2, l2, c2);
    PoppedAreLeast(now, l, c, m1, l1, c1, m2, l2, c2);
    MergeJoins(now, l, c, m1, l1, c1, m2, l2, c2);
    MergeSpent(freq, l, c, m1, l1, c1, m2, l2, c2);
    DominatesAfterJoin(ToBag(start), now, Spent(freq, l) + Spent(freq, c), m1.frequency, m2.frequency);
    forall b: Byte
      ensures ByteCount(l2, b) + ByteCount(c2 + [MergedNode(m1, m2)], b) == ByteCount(l, b) + ByteCount(c, b)
    {
      MergeByteCount(l, c, m1, l1, c1, m2, l2, c2, b);
    }
  }
}
