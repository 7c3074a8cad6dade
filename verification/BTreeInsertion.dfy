/** B-tree insertion that splits full nodes on the way down. */
module BTreeInsertion {
  import opened BTreeMemory
  import opened BTreeShape
  import opened Options
  import opened Powers
  import opened SortedSequences

  class BTree {
    const t: nat
    var nodes: seq<Record>
    var root: int
    var height: nat
    /** The tree that the nodes make up. */
    ghost var tree: Option<Tree>

    ghost predicate Valid()
      reads this
    {
      && t >= 2
      && match tree
         case None => root == -1 && height == 0
         case Some(whole) =>
           && root == whole.id && Holds(nodes, t, whole) && Separate(whole)
           && HasShape(whole, t, height) && |whole.keys| >= 1 && Sorted(Inorder(whole))
    }

    ghost function Keys(): seq<int>
      reads this
    {
      if tree.None? then [] else Inorder(tree.value)
    }

    constructor (halfDegree: nat)
      requires halfDegree >= 2
      ensures Valid() && t == halfDegree && Keys() == []
    {
      height := 0;
      root := -1;
      t := halfDegree;
      nodes := [];
      tree := None;
    }

    method CreateNode() returns (id: nat)
      requires t > 0
      modifies this`nodes
      ensures id == |old(nodes)| && nodes == old(nodes) + [NewRecord(t)]
    {
      id := |nodes|;
      nodes := nodes + [NewRecord(t)];
    }

    predicate IsFull(node: nat)
      requires node < |nodes|
      reads this
    {
      nodes[node].size == t * 2 - 1
    }

    predicate IsLeaf(node: nat)
      requires node < |nodes| && |nodes[node].children| > 0
      reads this
    {
      nodes[node].children[0] == -1
    }

    /** The first place whose value is not smaller. */
    method FindChildIdx(node: nat, value: int) returns (r: nat)
      requires node < |nodes| && IsRecord(nodes[node], t) && Sorted(nodes[node].values[..nodes[node].size])
      ensures r <= nodes[node].size
      ensures AllBelow(nodes[node].values[..r], value) && NoneBelow(nodes[node].values[r..nodes[node].size], value)
    {
      ghost var vs := nodes[node].values[..nodes[node].size];
      var l: nat := 0;
      r := nodes[node].size;
      while l < r
        invariant l <= r <= |vs|
        invariant forall j :: 0 <= j < l ==> vs[j] < value
        invariant forall j :: r <= j < |vs| ==> value <= vs[j]
      {
        var mid := l + (r - l) / 2;
        assert nodes[node].values[mid] == vs[mid];
        if value <= nodes[node].values[mid] {
          assert forall j :: mid < j < |vs| ==> vs[mid] <= vs[j];
          r := mid;
        } else {
          assert forall j :: 0 <= j < mid ==> vs[j] <= vs[mid];
          l := mid + 1;
        }
      }
      assert forall j :: 0 <= j < r ==> nodes[node].values[j] == vs[j];
      assert forall j :: r <= j < |vs| ==> nodes[node].values[j] == vs[j];
    }

    /** A full child becomes two, and its middle key goes up into the node. */
    method SplitChild(node: nat, childIdx: nat, ghost sub: Tree)
      requires t >= 2 && Holds(nodes, t, sub) && Separate(sub) && node == sub.id
      requires childIdx < |sub.kids| && |sub.keys| < 2 * t - 1 && |sub.kids[childIdx].keys| == 2 * t - 1
      modifies this`nodes
      ensures nodes == AfterSplit(old(nodes), t, sub, childIdx)
    {
      ghost var kid := sub.kids[childIdx];
      assert Holds(nodes, t, kid) && node != kid.id by {
        assert Contains(kid, kid.id);
      }
      var child := nodes[node].children[childIdx];
      var newChild := CreateNode();
      nodes := nodes[newChild := MoveTail(nodes[child], t, nodes[newChild], 0, t)];
      nodes := nodes[child := nodes[child].(size := t - 1)];
      nodes := nodes[newChild := nodes[newChild].(size := t - 1)];
      nodes := nodes[node := MoveTail(nodes[node], childIdx, nodes[node], childIdx + 1, t)];
      nodes := nodes[node := nodes[node].(values := nodes[node].values[childIdx := nodes[child].values[t - 1]])];
      nodes := nodes[node := nodes[node].(children := nodes[node].children[childIdx + 1 := newChild])];
      nodes := nodes[node := nodes[node].(size := nodes[node].size + 1)];
      ghost var after := AfterSplit(old(nodes), t, sub, childIdx);
      assert |nodes| == |after| && nodes[node] == after[node] && nodes[child] == after[child] && nodes[newChild] == after[newChild];
    }

    /** A value goes to its place in a leaf. */
    method InsertValue(node: nat, value: int, ghost sub: Tree) returns (ghost grown: Tree)
      requires t >= 2 && Holds(nodes, t, sub) && node == sub.id && sub.kids == [] && Sorted(sub.keys) && |sub.keys| < 2 * t - 1
      modifies this`nodes
      ensures grown == Tree(sub.id, Inserted(sub.keys, value), [])
      ensures Holds(nodes, t, grown) && nodes == old(nodes)[node := nodes[node]]
    {
      var childIdx := FindChildIdx(node, value);
      ghost var r := nodes[node];
      LeafIsNode(r, t, sub, childIdx, value);
      nodes := nodes[node := MoveTail(nodes[node], childIdx, nodes[node], childIdx + 1, t)];
      nodes := nodes[node := nodes[node].(values := nodes[node].values[childIdx := value])];
      nodes := nodes[node := nodes[node].(size := nodes[node].size + 1)];
      grown := Tree(sub.id, Inserted(sub.keys, value), []);
    }

    /** The memory holds a tree of the right shape with sorted keys. */
    ghost predicate HoldsTree(sub: Tree, h: nat)
      reads this
    {
      t >= 2 && Holds(nodes, t, sub) && Separate(sub) && HasShape(sub, t, h) && Sorted(Inorder(sub))
    }

    /** Of the two halves of a full child, the one to go on in. */
    method SplitAndChoose(node: nat, childIdx: nat, value: int, ghost sub: Tree, ghost h: nat)
      returns (childIdx': nat, ghost split: Tree)
      requires HoldsTree(sub, h) && h > 1 && |sub.keys| < 2 * t - 1 && node == sub.id
      requires Between(sub, childIdx, value) && |sub.kids[childIdx].keys| == 2 * t - 1
      modifies this`nodes
      ensures HoldsTree(split, h) && split.id == sub.id && |split.keys| >= |sub.keys| && Inorder(split) == Inorder(sub)
      ensures Between(split, childIdx', value) && |split.kids[childIdx'].keys| < 2 * t - 1
      ensures ChangedOnly(old(nodes), nodes, sub) && GrownFrom(sub, split, |old(nodes)|, |nodes|)
    {
      SplitKidShape(sub, childIdx, t, |nodes|, h);
      SplitFacts(nodes, t, sub, childIdx);
      SplitBetween(sub, childIdx, t, |nodes|, value);
      split := SplitKid(sub, childIdx, t, |nodes|);
      SplitChild(node, childIdx, sub);
      childIdx' := childIdx;
      if value > nodes[node].values[childIdx] {
        childIdx' := childIdx + 1;
      }
    }

    /** The child to go on in, which is not full; it may have been split for that. */
    method ChooseChild(node: nat, value: int, ghost sub: Tree, ghost h: nat) returns (childIdx: nat, ghost split: Tree)
      requires HoldsTree(sub, h) && h > 1 && |sub.keys| < 2 * t - 1 && node == sub.id
      modifies this`nodes
      ensures HoldsTree(split, h) && split.id == sub.id && |split.keys| >= |sub.keys| && Inorder(split) == Inorder(sub)
      ensures Between(split, childIdx, value) && |split.kids[childIdx].keys| < 2 * t - 1
      ensures ChangedOnly(old(nodes), nodes, sub) && GrownFrom(sub, split, |old(nodes)|, |nodes|)
    {
      NodeIsSorted(nodes[node], t, sub);
      childIdx := FindChildIdx(node, value);
      PlaceIsBetween(nodes[node], t, sub, childIdx, value);
      split := sub;
      assert Holds(nodes, t, sub.kids[childIdx]) && HasShape(sub.kids[childIdx], t, h - 1);
      if IsFull(nodes[node].children[childIdx]) {
        childIdx, split := SplitAndChoose(node, childIdx, value, sub, h);
      }
    }

    /** Inserts below a node that is not full. */
    method InsertBelow(node: nat, value: int, ghost sub: Tree, ghost h: nat) returns (ghost grown: Tree)
      requires HoldsTree(sub, h) && |sub.keys| < 2 * t - 1 && node == sub.id
      modifies this`nodes
      ensures HoldsTree(grown, h) && grown.id == sub.id && |grown.keys| >= |sub.keys|
      ensures Inorder(grown) == Inserted(Inorder(sub), value)
      ensures ChangedOnly(old(nodes), nodes, sub) && GrownFrom(sub, grown, |old(nodes)|, |nodes|)
      decreases h
    {
      SortedInserted(Inorder(sub), value);
      if IsLeaf(node) {
        LeafOrInner(nodes[node], t, sub, h);
        grown := InsertValue(node, value, sub);
        LeafGrown(sub, grown, t, value);
        return;
      }
      LeafOrInner(nodes[node], t, sub, h);
      var childIdx;
      ghost var split;
      childIdx, split := ChooseChild(node, value, sub, h);
      ghost var before := nodes;
      KidIsSorted(split, childIdx);
      assert Separate(split.kids[childIdx]) && Holds(nodes, t, split.kids[childIdx]);
      assert nodes[node].children[childIdx] == split.kids[childIdx].id;
      ghost var kid := InsertBelow(nodes[node].children[childIdx], value, split.kids[childIdx], h - 1);
      grown := WithKid(split, childIdx, kid);
      ChildGrown(before, nodes, t, split, childIdx, kid, value, h);
      Twice(old(nodes), before, nodes, sub, split, childIdx, grown);
    }

    /** A full root becomes the first child of a new one and is split. */
    method SplitRoot(ghost whole: Tree)
      requires t >= 2 && Holds(nodes, t, whole) && |whole.keys| == 2 * t - 1 && root == whole.id
      requires Holds(WithRootOver(nodes, t, whole.id), t, RootOver(whole, |nodes|))
      modifies this`nodes, this`root, this`height
      ensures nodes == AfterSplit(WithRootOver(old(nodes), t, whole.id), t, RootOver(whole, |old(nodes)|), 0)
      ensures root == |old(nodes)| && height == old(height) + 1
    {
      var oldRoot := root;
      ghost var n, before := |nodes|, nodes;
      var newRoot := CreateNode();
      var newChild := CreateNode();
      nodes := nodes[newChild := MoveTail(nodes[oldRoot], t, nodes[newChild], 0, t)];
      nodes := nodes[newChild := nodes[newChild].(size := t - 1)];
      nodes := nodes[oldRoot := nodes[oldRoot].(size := t - 1)];
      nodes := nodes[newRoot := nodes[newRoot].(values := nodes[newRoot].values[0 := nodes[oldRoot].values[t - 1]])];
      nodes := nodes[newRoot := nodes[newRoot].(children := nodes[newRoot].children[0 := oldRoot][1 := newChild])];
      nodes := nodes[newRoot := nodes[newRoot].(size := 1)];
      RootRecord(t, oldRoot, newChild, whole.keys[t - 1]);
      RootMemory(before, t, whole, nodes);
      height := height + 1;
      root := newRoot;
    }

    /** Afterwards the root is not full. */
    method MakeRoom(ghost whole: Tree) returns (ghost roomy: Tree)
      requires HoldsTree(whole, height) && |whole.keys| >= 1 && root == whole.id
      modifies this`nodes, this`root, this`height
      ensures HoldsTree(roomy, height) && 1 <= |roomy.keys| < 2 * t - 1 && root == roomy.id
      ensures Inorder(roomy) == Inorder(whole)
    {
      roomy := whole;
      if IsFull(root) {
        RootOverFacts(nodes, t, whole, height);
        roomy := RootSplitFacts(nodes, t, whole, height);
        SplitRoot(whole);
      }
    }

    /** The keys gain the value, before all that are not smaller, and the tree keeps its shape. */
    method Insert(value: int)
      requires Valid()
      modifies this
      ensures Valid()
      ensures Keys() == Inserted(old(Keys()), value)
    {
      if root == -1 {
        root := CreateNode();
        nodes := nodes[root := nodes[root].(values := nodes[root].values[0 := value], size := 1)];
        height := 1;
        tree := Some(Tree(root, [value], []));
        return;
      }
      ghost var whole := MakeRoom(tree.value);
      ghost var grown := InsertBelow(root, value, whole, height);
      tree := Some(grown);
    }
  }

  /** A new root without keys over the old one. */
  function RootOver(tree: Tree, id: nat): Tree {
    Tree(id, [], [tree])
  }

  function WithRootOver(nodes: seq<Record>, t: nat, child: int): seq<Record>
    requires t > 0
  {
    nodes + [NewRecord(t).(children := NewRecord(t).children[0 := child])]
  }

  lemma RootOverFacts(nodes: seq<Record>, t: nat, tree: Tree, h: nat)
    requires t >= 2 && Holds(nodes, t, tree) && Separate(tree) && HasShape(tree, t, h) && |tree.keys| == 2 * t - 1
    ensures var over := RootOver(tree, |nodes|);
      && Holds(WithRootOver(nodes, t, tree.id), t, over) && Separate(over) && HasShape(over, t, h + 1)
      && Inorder(over) == Inorder(tree)
  {
    var nodes', over := WithRootOver(nodes, t, tree.id), RootOver(tree, |nodes|);
    HoldsKept(nodes, nodes', t, tree);
    HoldsBelow(nodes, t, tree);
  }

  lemma RootSplitFacts(nodes: seq<Record>, t: nat, tree: Tree, h: nat) returns (split: Tree)
    requires t >= 2 && Holds(nodes, t, tree) && Separate(tree) && HasShape(tree, t, h) && |tree.keys| == 2 * t - 1
    requires Holds(WithRootOver(nodes, t, tree.id), t, RootOver(tree, |nodes|))
    ensures Holds(AfterSplit(WithRootOver(nodes, t, tree.id), t, RootOver(tree, |nodes|), 0), t, split)
    ensures Separate(split) && HasShape(split, t, h + 1) && Inorder(split) == Inorder(tree)
    ensures split.id == |nodes| && |split.keys| == 1
  {
    var nodes', over := WithRootOver(nodes, t, tree.id), RootOver(tree, |nodes|);
    RootOverFacts(nodes, t, tree, h);
    assert over.kids[0] == tree;
    SplitKidShape(over, 0, t, |nodes'|, h + 1);
    split := SplitKid(over, 0, t, |nodes'|);
    SplitFacts(nodes', t, over, 0);
  }

  /** The three nodes that splitting the root writes. */
  lemma RootMemory(nodes: seq<Record>, t: nat, tree: Tree, nodes': seq<Record>)
    requires t >= 2 && Holds(nodes, t, tree) && |tree.keys| == 2 * t - 1
    requires Holds(WithRootOver(nodes, t, tree.id), t, RootOver(tree, |nodes|))
    requires |nodes'| == |nodes| + 2
    requires nodes'[|nodes|] == PutIn(NewRecord(t).(children := NewRecord(t).children[0 := tree.id]), 0, tree.keys[t - 1], |nodes| + 1, t)
    requires nodes'[tree.id] == LowerHalf(nodes[tree.id], t) && nodes'[|nodes| + 1] == UpperHalf(nodes[tree.id], t)
    requires forall id :: 0 <= id < |nodes| && id != tree.id ==> nodes'[id] == nodes[id]
    ensures nodes' == AfterSplit(WithRootOver(nodes, t, tree.id), t, RootOver(tree, |nodes|), 0)
  {
    var after := AfterSplit(WithRootOver(nodes, t, tree.id), t, RootOver(tree, |nodes|), 0);
    assert |after| == |nodes'|;
    assert forall id :: 0 <= id < |after| ==> after[id] == nodes'[id];
  }

  lemma RootRecord(t: nat, child: int, newChild: int, m: int)
    requires t >= 2
    ensures var r := NewRecord(t);
      PutIn(r.(children := r.children[0 := child]), 0, m, newChild, t)
        == Record(r.values[0 := m], r.children[0 := child][1 := newChild], 1)
  {
    var r := NewRecord(t);
    var put := PutIn(r.(children := r.children[0 := child]), 0, m, newChild, t);
    assert put.values == r.values[0 := m];
    assert put.children == r.children[0 := child][1 := newChild];
  }

  lemma LeafOrInner(r: Record, t: nat, tree: Tree, h: nat)
    requires IsNode(r, t, tree) && HasShape(tree, t, h)
    ensures tree.kids == [] <==> h == 1
    ensures r.children[0] == -1 <==> tree.kids == []
    ensures tree.kids != [] ==> |tree.kids| == |tree.keys| + 1
  {
  }

  /** A new key in a leaf keeps everything else. */
  lemma LeafGrown(tree: Tree, grown: Tree, t: nat, v: int)
    requires tree.kids == [] && grown == Tree(tree.id, Inserted(tree.keys, v), []) && HasShape(tree, t, 1) && |tree.keys| < 2 * t - 1
    ensures HasShape(grown, t, 1) && Separate(grown) && |grown.keys| >= |tree.keys| && Inorder(grown) == Inserted(Inorder(tree), v)
    ensures forall n: nat, n': nat :: GrownFrom(tree, grown, n, n')
  {
    InsertedLength(tree.keys, v);
  }

  lemma {:induction false} InsertedLength(vs: seq<int>, v: int)
    ensures |Inserted(vs, v)| == |vs| + 1
    decreases |vs|
  {
    if vs != [] && vs[0] < v {
      InsertedLength(vs[1..], v);
    }
  }

  /** A child that has grown makes the tree grow. */
  lemma ChildGrown(nodes: seq<Record>, nodes': seq<Record>, t: nat, tree: Tree, i: nat, kid: Tree, v: int, h: nat)
    requires Holds(nodes, t, tree) && Separate(tree) && HasShape(tree, t, h) && h > 1 && Sorted(Inorder(tree)) && Between(tree, i, v)
    requires Holds(nodes', t, kid) && Separate(kid) && HasShape(kid, t, h - 1) && kid.id == tree.kids[i].id
    requires |kid.keys| >= |tree.kids[i].keys| && Inorder(kid) == Inserted(Inorder(tree.kids[i]), v)
    requires ChangedOnly(nodes, nodes', tree.kids[i]) && GrownFrom(tree.kids[i], kid, |nodes|, |nodes'|)
    ensures var grown := WithKid(tree, i, kid);
      && Holds(nodes', t, grown) && Separate(grown) && HasShape(grown, t, h)
      && Inorder(grown) == Inserted(Inorder(tree), v) && GrownFrom(tree, grown, |nodes|, |nodes'|)
  {
    WithKidHolds(nodes, nodes', t, tree, i, kid);
    HoldsBelow(nodes, t, tree);
    WithKidSeparate(tree, i, kid, |nodes|, |nodes'|);
    WithKidGrown(tree, i, kid, |nodes|, |nodes'|);
    WithKidInorder(tree, i, kid, v);
    WithKidShape(tree, i, kid, t, h);
  }

  lemma WithKidShape(tree: Tree, i: nat, kid: Tree, t: nat, h: nat)
    requires HasShape(tree, t, h) && h > 1 && i < |tree.kids| && HasShape(kid, t, h - 1) && |kid.keys| >= |tree.kids[i].keys|
    ensures HasShape(WithKid(tree, i, kid), t, h)
  {
  }

  /** What changed in two steps changed only below the node. */
  lemma Twice(nodes: seq<Record>, nodes1: seq<Record>, nodes2: seq<Record>, sub: Tree, split: Tree, i: nat, grown: Tree)
    requires ChangedOnly(nodes, nodes1, sub) && GrownFrom(sub, split, |nodes|, |nodes1|)
    requires i < |split.kids| && ChangedOnly(nodes1, nodes2, split.kids[i]) && GrownFrom(split, grown, |nodes1|, |nodes2|)
    ensures ChangedOnly(nodes, nodes2, sub) && GrownFrom(sub, grown, |nodes|, |nodes2|)
  {
    forall id: nat | id < |nodes| && !Contains(sub, id)
      ensures nodes2[id] == nodes[id]
    {
      assert Contains(split.kids[i], id) ==> Contains(split, id);
    }
  }

  /** A value belongs below the child between two keys. */
  predicate Between(tree: Tree, i: nat, v: int) {
    && |tree.kids| == |tree.keys| + 1 && i < |tree.kids|
    && (i > 0 ==> tree.keys[i - 1] < v) && (i < |tree.keys| ==> v <= tree.keys[i])
  }

  lemma InsertedAt(a: seq<int>, b: seq<int>, v: int)
    requires AllBelow(a, v) && NoneBelow(b, v)
    ensures Inserted(a + b, v) == a + [v] + b
  {
    InsertedBehind(a, b, v);
    assert Inserted(b, v) == [v] + b;
  }

  lemma LeafIsNode(r: Record, t: nat, tree: Tree, i: nat, v: int)
    requires IsNode(r, t, tree) && tree.kids == [] && r.size < 2 * t - 1 && i <= r.size
    requires AllBelow(r.values[..i], v) && NoneBelow(r.values[i..r.size], v)
    ensures var moved := MoveTail(r, i, r, i + 1, t);
      IsNode(Record(moved.values[i := v], moved.children, r.size + 1), t, Tree(tree.id, Inserted(tree.keys, v), []))
  {
    assert tree.keys == r.values[..i] + r.values[i..r.size];
    InsertedAt(r.values[..i], r.values[i..r.size], v);
    PutInValues(r, i, v, -1, t);
    var moved := MoveTail(r, i, r, i + 1, t);
    assert forall j :: 0 <= j < 2 * t ==> moved.children[j] == -1;
  }

  lemma NodeIsSorted(r: Record, t: nat, tree: Tree)
    requires IsNode(r, t, tree) && Sorted(Inorder(tree))
    ensures Sorted(r.values[..r.size])
  {
    forall i, j | 0 <= i < j < r.size
      ensures r.values[..r.size][i] <= r.values[..r.size][j]
    {
      KeysAreSorted(tree, i, j);
    }
  }

  lemma PlaceIsBetween(r: Record, t: nat, tree: Tree, i: nat, v: int)
    requires IsNode(r, t, tree) && tree.kids != [] && i <= r.size
    requires AllBelow(r.values[..i], v) && NoneBelow(r.values[i..r.size], v)
    ensures Between(tree, i, v)
  {
    assert i > 0 ==> r.values[..i][i - 1] == tree.keys[i - 1];
    assert i < r.size ==> r.values[i..r.size][0] == tree.keys[i];
  }

  lemma SplitBetween(tree: Tree, i: nat, t: nat, n: nat, v: int)
    requires Between(tree, i, v) && t > 0 && |tree.kids[i].keys| == 2 * t - 1
    requires tree.kids[i].kids != [] ==> |tree.kids[i].kids| == 2 * t
    ensures var split := SplitKid(tree, i, t, n);
      && |split.keys| == |tree.keys| + 1 && split.keys[i] == tree.kids[i].keys[t - 1]
      && |split.kids[i].keys| == t - 1 == |split.kids[i + 1].keys|
      && Between(split, if v > split.keys[i] then i + 1 else i, v)
  {
  }

  lemma SplitFacts(nodes: seq<Record>, t: nat, tree: Tree, i: nat)
    requires Holds(nodes, t, tree) && Separate(tree)
    requires |tree.kids| == |tree.keys| + 1 && i < |tree.kids| && |tree.keys| < 2 * t - 1 && |tree.kids[i].keys| == 2 * t - 1
    requires tree.kids[i].kids != [] ==> |tree.kids[i].kids| == 2 * t
    ensures var nodes', split := AfterSplit(nodes, t, tree, i), SplitKid(tree, i, t, |nodes|);
      && Holds(nodes', t, split) && Separate(split) && Inorder(split) == Inorder(tree)
      && ChangedOnly(nodes, nodes', tree) && GrownFrom(tree, split, |nodes|, |nodes'|)
  {
    SplitHolds(nodes, t, tree, i);
    HoldsBelow(nodes, t, tree);
    SplitSeparate(tree, i, t, |nodes|);
    SplitKidInorder(tree, i, t, |nodes|);
    SplitGrown(tree, i, t, |nodes|);
    assert Contains(tree, tree.id);
    assert Contains(tree.kids[i], tree.kids[i].id);
    assert Contains(tree, tree.kids[i].id);
  }

  /**
   * A tree of height h holds at least twice the h - 1-th power of t keys, less one, and at most the h-th power of 2t,
   * less one.
   */
  lemma FewLevels(b: BTree)
    requires b.Valid() && b.tree.Some?
    ensures b.height >= 1 && 2 * Power(b.t, b.height - 1) - 1 <= |b.Keys()| <= Power(2 * b.t, b.height) - 1
  {
    HeightIsLogarithmic(b.tree.value, b.t, b.height);
    NoMoreKeys(b.tree.value, b.t, b.height);
  }
}
