/** Red-black insertion that repairs the tree upwards along a stack of ancestors. */
module RedBlackTree {
  import opened Powers
  import opened RedBlackColors
  import opened RedBlackOrder
  import opened RedBlackShape
  import opened SortedSequences

  /** The nodes lie in one array of memory; -1 is NULL. */
  class Memory {
    const leftChild: array<int>
    const rightChild: array<int>
    const color: array<Color>
    const value: array<int>

    ghost predicate Valid()
      reads this
    {
      && leftChild.Length == rightChild.Length == color.Length == value.Length
      && leftChild != rightChild && leftChild != value && rightChild != value
    }

    constructor (nodesCount: nat)
      ensures Valid() && leftChild.Length == nodesCount
      ensures fresh(leftChild) && fresh(rightChild) && fresh(color) && fresh(value)
    {
      leftChild := new int[nodesCount](_ => -1);
      rightChild := new int[nodesCount](_ => -1);
      color := new Color[nodesCount](_ => Red);
      value := new int[nodesCount](_ => 0);
    }

    predicate IsLeftChild(node: int, parent: int)
      requires -1 <= parent < leftChild.Length
      reads leftChild
    {
      parent != -1 && node == leftChild[parent]
    }

    predicate IsRightChild(node: int, parent: int)
      requires -1 <= parent < rightChild.Length
      reads rightChild
    {
      parent != -1 && node == rightChild[parent]
    }

    ghost predicate Holds(root: int, fs: seq<Frame>, t: Tree)
      reads leftChild, rightChild
    {
      Held(leftChild[..], rightChild[..], root, fs, t)
    }

    method RotateLeft(nodeA: nat, parent: int, ghost root: int, ghost fs: seq<Frame>, ghost t: Tree)
      requires Valid() && t.Node? && t.right.Node? && nodeA == t.id && Holds(root, fs, t)
      requires parent == if fs == [] then -1 else Last(fs).id
      modifies leftChild, rightChild
      ensures Holds(if fs == [] then t.right.id else root, fs, RotatedLeft(t))
    {
      ghost var left, right := leftChild[..], rightChild[..];
      Focus(left, right, root, fs, t);
      LeftRotationHeld(left, right, root, fs, t);
      var nodeB := rightChild[nodeA];
      if IsLeftChild(nodeA, parent) {
        leftChild[parent] := nodeB;
      }
      if IsRightChild(nodeA, parent) {
        rightChild[parent] := nodeB;
      }
      rightChild[nodeA] := leftChild[nodeB];
      leftChild[nodeB] := nodeA;
      assert leftChild[..] == LeftRotatedLeft(left, fs, t);
      assert rightChild[..] == LeftRotatedRight(left, right, fs, t);
    }

    method RotateRight(nodeA: nat, parent: int, ghost root: int, ghost fs: seq<Frame>, ghost t: Tree)
      requires Valid() && t.Node? && t.left.Node? && nodeA == t.id && Holds(root, fs, t)
      requires parent == if fs == [] then -1 else Last(fs).id
      modifies leftChild, rightChild
      ensures Holds(if fs == [] then t.left.id else root, fs, RotatedRight(t))
    {
      ghost var left, right := leftChild[..], rightChild[..];
      Focus(left, right, root, fs, t);
      RightRotationHeld(left, right, root, fs, t);
      var nodeB := leftChild[nodeA];
      if IsLeftChild(nodeA, parent) {
        leftChild[parent] := nodeB;
      }
      if IsRightChild(nodeA, parent) {
        rightChild[parent] := nodeB;
      }
      leftChild[nodeA] := rightChild[nodeB];
      rightChild[nodeB] := nodeA;
      assert leftChild[..] == RightRotatedLeft(left, right, fs, t);
      assert rightChild[..] == RightRotatedRight(right, fs, t);
    }

    ghost predicate Clashes(root: int, fs: seq<Frame>, t: Tree, h: int)
      reads leftChild, rightChild, color
    {
      Holds(root, fs, t) && Clash(color[..], fs, t, h)
    }

    /** Parent and node change places so that both are on the side where the parent was. */
    method MakeLined(node: nat, parent: nat, grandparent: nat, ghost root: int, ghost fs: seq<Frame>, ghost t: Tree, ghost h: int)
      returns (node': nat, parent': nat)
      requires Valid() && Clashes(root, fs, t, h) && Last(fs).onLeft != Last(Front(fs)).onLeft
      requires node == t.id && parent == Last(fs).id && grandparent == Last(Front(fs)).id
      modifies leftChild, rightChild
      ensures node' == parent && parent' == node
      ensures Clashes(root, Front(fs) + [LinedFrame(fs, t)], LinedTree(fs, t), h)
    {
      ghost var lower := Up(Last(fs), t);
      Focus(leftChild[..], rightChild[..], root, fs, t);
      ZipUp(leftChild[..], rightChild[..], root, fs, t);
      Focus(leftChild[..], rightChild[..], root, Front(fs), lower);
      LinedClash(color[..], fs, t, h);
      LinedKeepsOrder(fs, t);
      if IsLeftChild(node, parent) {
        RotateRight(parent, grandparent, root, Front(fs), lower);
      } else {
        RotateLeft(parent, grandparent, root, Front(fs), lower);
      }
      ZipDown(leftChild[..], rightChild[..], root, Front(fs), LinedFrame(fs, t), LinedTree(fs, t));
      return parent, node;
    }

    /** The subtree is red-black, and so are the frames around it. */
    ghost predicate Fits(root: int, fs: seq<Frame>, t: Tree, h: int)
      reads leftChild, rightChild, color
    {
      Holds(root, fs, t) && ContextGood(color[..], fs, h) && Good(color[..], t, h)
    }

    /** The memory holds a red-black tree. */
    ghost predicate HoldsRedBlack(root: int, t: Tree)
      reads leftChild, rightChild, color
    {
      Holds(root, [], t) && IsRedBlack(color[..], t)
    }

    /** With the uncle black, the parent rises above the grandparent and nothing is left to repair. */
    method Lift(node: nat, parent: nat, grandparent: nat, grandGrandParent: int,
                ghost root: int, ghost fs: seq<Frame>, ghost t: Tree, ghost h: int)
      requires Valid() && Clashes(root, fs, t, h) && Last(fs).onLeft == Last(Front(fs)).onLeft
      requires !IsRed(color[..], Last(Front(fs)).sibling)
      requires node == t.id && parent == Last(fs).id && grandparent == Last(Front(fs)).id
      requires grandGrandParent == if |fs| == 2 then -1 else Last(Front(Front(fs))).id
      requires parent < color.Length && grandparent < color.Length
      modifies leftChild, rightChild, color
      ensures Fits(if |fs| == 2 then parent else root, Front(Front(fs)), Lifted(fs, t), h + 1)
      ensures !IsRed(color[..], Lifted(fs, t))
    {
      ghost var grand, rest, before := Grand(fs, t), Front(Front(fs)), color[..];
      Focus(leftChild[..], rightChild[..], root, fs, t);
      ZipUp(leftChild[..], rightChild[..], root, fs, t);
      ZipUp(leftChild[..], rightChild[..], root, Front(fs), Up(Last(fs), t));
      LiftKeepsOrder(fs, t);
      color[parent] := Black;
      color[grandparent] := Red;
      assert color[..] == before[parent := Black][grandparent := Red];
      LiftedIsGood(before, color[..], fs, t, h);
      if IsLeftChild(node, parent) {
        RotateRight(grandparent, grandGrandParent, root, rest, grand);
      } else {
        RotateLeft(grandparent, grandGrandParent, root, rest, grand);
      }
    }

    /** Parent and uncle become black and the grandparent red, which may now clash with its own parent. */
    method Recolor(parent: nat, grandparent: nat, uncle: nat, ghost root: int, ghost fs: seq<Frame>, ghost t: Tree, ghost h: int)
      requires Valid() && Clashes(root, fs, t, h) && IsRed(color[..], Last(Front(fs)).sibling)
      requires parent == Last(fs).id && grandparent == Last(Front(fs)).id && uncle == Last(Front(fs)).sibling.id
      requires parent < color.Length && grandparent < color.Length && uncle < color.Length
      modifies color
      ensures Fits(root, Front(Front(fs)), Grand(fs, t), h + 1)
    {
      ghost var before := color[..];
      ZipUp(leftChild[..], rightChild[..], root, fs, t);
      ZipUp(leftChild[..], rightChild[..], root, Front(fs), Up(Last(fs), t));
      color[uncle] := Black;
      color[parent] := Black;
      color[grandparent] := Red;
      assert color[..] == before[uncle := Black][parent := Black][grandparent := Red];
      Recolored(before, color[..], fs, t, h);
    }

    /** Null unless both are there. */
    function GetUncle(parent: int, grandparent: int): int
      requires -1 <= parent && -1 <= grandparent < leftChild.Length == rightChild.Length
      reads leftChild, rightChild
    {
      if parent != -1 && grandparent != -1 then
        if IsLeftChild(parent, grandparent) then rightChild[grandparent] else leftChild[grandparent]
      else -1
    }

    predicate IsLined(node: int, parent: int, grandparent: int)
      requires 0 <= parent < leftChild.Length == rightChild.Length && 0 <= grandparent < leftChild.Length
      reads leftChild, rightChild
    {
      || (IsLeftChild(node, parent) && IsLeftChild(parent, grandparent))
      || (IsRightChild(node, parent) && IsRightChild(parent, grandparent))
    }

    lemma Family(root: int, fs: seq<Frame>, t: Tree)
      requires Valid() && Holds(root, fs, t) && t.Node? && fs != []
      ensures t.id < leftChild.Length && Last(fs).id < leftChild.Length
      ensures IsLeftChild(t.id, Last(fs).id) <==> Last(fs).onLeft
      ensures IsRightChild(t.id, Last(fs).id) <==> !Last(fs).onLeft
      ensures |fs| > 1 ==>
        && Last(Front(fs)).id < leftChild.Length
        && (IsLeftChild(Last(fs).id, Last(Front(fs)).id) <==> Last(Front(fs)).onLeft)
        && (IsRightChild(Last(fs).id, Last(Front(fs)).id) <==> !Last(Front(fs)).onLeft)
        && GetUncle(Last(fs).id, Last(Front(fs)).id) == Top(Last(Front(fs)).sibling)
        && Top(Last(Front(fs)).sibling) < leftChild.Length
    {
      Focus(leftChild[..], rightChild[..], root, fs, t);
      if |fs| > 1 {
        ghost var g := Last(Front(fs));
        ZipUp(leftChild[..], rightChild[..], root, fs, t);
        Focus(leftChild[..], rightChild[..], root, Front(fs), Up(Last(fs), t));
        PointsTop(leftChild[..], rightChild[..], if g.onLeft then rightChild[g.id] else leftChild[g.id], g.sibling);
      }
    }

    /** Afterwards node and parent are on one side, with the same grandparent above. */
    method EnsureLined(node: nat, parent: nat, grandparent: nat, ghost root: int, ghost fs: seq<Frame>, ghost t: Tree, ghost h: int)
      returns (node': nat, parent': nat, ghost fs': seq<Frame>, ghost t': Tree)
      requires Valid() && Clashes(root, fs, t, h)
      requires node == t.id && parent == Last(fs).id && grandparent == Last(Front(fs)).id
      modifies leftChild, rightChild
      ensures Clashes(root, fs', t', h) && Last(fs').onLeft == Last(Front(fs')).onLeft && |fs'| == |fs|
      ensures Front(fs') == Front(fs) && node' == t'.id && parent' == Last(fs').id < color.Length && grandparent < color.Length
      ensures Inorder(Plug(fs', t')) == Inorder(Plug(fs, t))
    {
      Family(root, fs, t);
      node', parent', fs', t' := node, parent, fs, t;
      if !IsLined(node, parent, grandparent) {
        LinedKeepsOrder(fs, t);
        node', parent' := MakeLined(node, parent, grandparent, root, fs, t, h);
        fs', t' := Front(fs) + [LinedFrame(fs, t)], LinedTree(fs, t);
        assert Front(fs') == Front(fs);
      }
    }

    /** With the uncle black, the repair ends here. */
    method RepairByRotation(node: nat, parent: nat, grandparent: nat, ancestors: seq<int>,
                            ghost root: int, ghost fs: seq<Frame>, ghost t: Tree, ghost h: int)
      returns (newRoot: int, ghost whole: Tree)
      requires Valid() && Clashes(root, fs, t, h) && IsStack(ancestors, Front(Front(fs)))
      requires node == t.id && parent == Last(fs).id && grandparent == Last(Front(fs)).id
      requires !IsRed(color[..], Last(Front(fs)).sibling)
      modifies leftChild, rightChild, color
      ensures HoldsRedBlack(if newRoot == -1 then root else newRoot, whole)
      ensures Inorder(whole) == Inorder(Plug(fs, t))
      decreases |fs|, 0
    {
      ghost var fs', t';
      var node', parent';
      node', parent', fs', t' := EnsureLined(node, parent, grandparent, root, fs, t, h);
      var grandGrandParent := if ancestors == [] then -1 else ancestors[|ancestors| - 1];
      LiftKeepsOrder(fs', t');
      Lift(node', parent', grandparent, grandGrandParent, root, fs', t', h);
      newRoot, whole := RBTreeBalance(parent', ancestors, if |fs| == 2 then parent' else root, Front(Front(fs)), Lifted(fs', t'), h + 1);
    }

    /** A red node whose parent is red: the root is black, so there is a grandparent. */
    method RepairClash(node: nat, parent: nat, ancestors: seq<int>, ghost root: int, ghost fs: seq<Frame>, ghost t: Tree, ghost h: int)
      returns (newRoot: int, ghost whole: Tree)
      requires Valid() && Clashes(root, fs, t, h) && IsStack(ancestors, Front(fs))
      requires node == t.id && parent == Last(fs).id
      modifies leftChild, rightChild, color
      ensures HoldsRedBlack(if newRoot == -1 then root else newRoot, whole)
      ensures Inorder(whole) == Inorder(Plug(fs, t))
      decreases |fs|, 1
    {
      Family(root, fs, t);
      var grandparent, rest := ancestors[|ancestors| - 1], ancestors[..|ancestors| - 1];
      assert grandparent == Last(Front(fs)).id && IsStack(rest, Front(Front(fs)));
      var uncle := GetUncle(parent, grandparent);
      if uncle != -1 && color[uncle] == Red {
        Recolor(parent, grandparent, uncle, root, fs, t, h);
        newRoot, whole := RBTreeBalance(grandparent, rest, root, Front(Front(fs)), Grand(fs, t), h + 1);
      } else {
        newRoot, whole := RepairByRotation(node, parent, grandparent, rest, root, fs, t, h);
      }
    }

    /** Restores the colours from a node upwards; a new root is returned only when the repair comes to the top. */
    method RBTreeBalance(node: nat, ancestors: seq<int>, ghost root: int, ghost fs: seq<Frame>, ghost t: Tree, ghost h: int)
      returns (newRoot: int, ghost whole: Tree)
      requires Valid() && Fits(root, fs, t, h) && t.Node? && node == t.id && IsStack(ancestors, fs)
      modifies leftChild, rightChild, color
      ensures HoldsRedBlack(if newRoot == -1 then root else newRoot, whole)
      ensures Inorder(whole) == Inorder(Plug(fs, t)) && (fs == [] ==> newRoot != -1)
      decreases |fs|, 2
    {
      Focus(leftChild[..], rightChild[..], root, fs, t);
      if ancestors == [] {
        BlackRoot(color[..], t, h);
        ghost var before := color[..];
        color[node] := Black;
        assert color[..] == before[node := Black];
        return node, t;
      }
      var parent, rest := ancestors[|ancestors| - 1], ancestors[..|ancestors| - 1];
      assert parent == Last(fs).id && IsStack(rest, Front(fs));
      if color[node] == Black || color[parent] == Black {
        PlugIsRedBlack(color[..], fs, t, h);
        HeldWhole(leftChild[..], rightChild[..], root, fs, t);
        return -1, Plug(fs, t);
      }
      newRoot, whole := RepairClash(node, parent, rest, root, fs, t, h);
    }

    /** The values in the order of the tree. */
    ghost function Values(t: Tree): seq<int>
      reads value
    {
      ValuesOf(value[..], Inorder(t))
    }

    /** Pushes the nodes passed on the way to the place of a new value, which is to the right of equal ones. */
    method FindPlace(root: int, val: int, ghost tree: Tree)
      returns (ancestors: seq<int>, ghost fs: seq<Frame>)
      requires Valid() && HoldsRedBlack(root, tree) && SortedIds(value[..], Inorder(tree))
      ensures Holds(root, fs, Leaf) && Plug(fs, Leaf) == tree && IsStack(ancestors, fs)
      ensures ContextGood(color[..], fs, 1) && Around(value[..], fs, val)
    {
      ghost var h :| Good(color[..], tree, h);
      ghost var t := tree;
      ancestors, fs := [], [];
      var curNode := root;
      while curNode != -1
        invariant Holds(root, fs, t) && Plug(fs, t) == tree && IsStack(ancestors, fs) && curNode == Top(t)
        invariant ContextGood(color[..], fs, h) && Good(color[..], t, h)
        invariant IsRed(color[..], t) ==> fs != [] && !RedId(color[..], Last(fs).id)
        invariant Around(value[..], fs, val) && SortedIds(value[..], Inorder(t))
        decreases t
      {
        ancestors, fs, curNode, t, h := Descend(root, val, ancestors, curNode, fs, t, h);
      }
    }

    method Descend(ghost root: int, val: int, ancestors: seq<int>, curNode: int, ghost fs: seq<Frame>, ghost t: Tree, ghost h: int)
      returns (ancestors': seq<int>, ghost fs': seq<Frame>, curNode': int, ghost t': Tree, ghost h': int)
      requires Valid() && t.Node? && Holds(root, fs, t) && IsStack(ancestors, fs) && curNode == t.id
      requires ContextGood(color[..], fs, h) && Good(color[..], t, h)
      requires IsRed(color[..], t) ==> fs != [] && !RedId(color[..], Last(fs).id)
      requires Around(value[..], fs, val) && SortedIds(value[..], Inorder(t))
      ensures Holds(root, fs', t') && Plug(fs', t') == Plug(fs, t) && IsStack(ancestors', fs') && curNode' == Top(t')
      ensures ContextGood(color[..], fs', h') && Good(color[..], t', h')
      ensures IsRed(color[..], t') ==> fs' != [] && !RedId(color[..], Last(fs').id)
      ensures Around(value[..], fs', val) && SortedIds(value[..], Inorder(t'))
      ensures t' == t.left || t' == t.right
    {
      Focus(leftChild[..], rightChild[..], root, fs, t);
      ancestors' := ancestors + [curNode];
      ghost var toLeft := val < value[curNode];
      StepDown(fs, t, toLeft);
      StepAround(value[..], fs, t, val);
      h' := StepGood(color[..], fs, t, h, toLeft);
      ZipDown(leftChild[..], rightChild[..], root, fs, Step(t, toLeft), Child(t, toLeft));
      fs', t' := fs + [Step(t, toLeft)], Child(t, toLeft);
      if val < value[curNode] {
        curNode' := leftChild[curNode];
      } else {
        curNode' := rightChild[curNode];
      }
    }

    /** A red node without children takes the empty place. */
    method Attach(val: int, placeholder: nat, root: int, ancestors: seq<int>, ghost fs: seq<Frame>) returns (root': int)
      requires Valid() && Holds(root, fs, Leaf) && IsStack(ancestors, fs)
      requires placeholder < leftChild.Length && placeholder !in ContextIds(fs)
      requires ContextGood(color[..], fs, 1) && Around(value[..], fs, val)
      modifies leftChild, rightChild, color, value
      ensures Fits(root', fs, NewLeaf(placeholder), 1) && root' == if fs == [] then placeholder else root
      ensures value[..] == old(value[..])[placeholder := val]
    {
      ghost var left, right, colors := leftChild[..], rightChild[..], color[..];
      assert fs != [] ==> Last(fs).id < leftChild.Length && Last(fs).id in ContextIds(fs);
      NewLeafHeld(left, right, root, fs, placeholder);
      NewLeafFits(colors, colors[placeholder := Red], fs, placeholder);
      if fs != [] {
        LastSide(value[..], fs, val);
      }
      value[placeholder] := val;
      leftChild[placeholder] := -1;
      rightChild[placeholder] := -1;
      color[placeholder] := Red;
      root' := root;
      if ancestors == [] {
        root' := placeholder;
      } else {
        var parent := ancestors[|ancestors| - 1];
        assert parent == Last(fs).id;
        if val < value[parent] {
          leftChild[parent] := placeholder;
        } else {
          rightChild[parent] := placeholder;
        }
      }
      assert leftChild[..] == RelinkLeft(left[placeholder := -1], fs, placeholder);
      assert rightChild[..] == RelinkRight(right[placeholder := -1], fs, placeholder);
      assert color[..] == colors[placeholder := Red];
    }

    /** A red-black tree stays one, with the new value behind all that are not greater. */
    method Insert(root: int, val: int, placeholder: nat, ghost tree: Tree) returns (newRoot: int, ghost newTree: Tree)
      requires Valid() && HoldsRedBlack(root, tree) && Sorted(Values(tree))
      requires placeholder < leftChild.Length && placeholder !in Ids(tree)
      modifies leftChild, rightChild, color, value
      ensures HoldsRedBlack(newRoot, newTree)
      ensures Values(newTree) == Inserted(old(Values(tree)), val) && Sorted(Values(newTree))
      ensures Ids(newTree) == Ids(tree) + {placeholder}
    {
      var ancestors;
      ghost var fs;
      ancestors, fs := FindPlace(root, val, tree);
      Insertion(value[..], fs, tree, placeholder, val);
      var root' := Attach(val, placeholder, root, ancestors, fs);
      var top;
      top, newTree := RBTreeBalance(placeholder, ancestors, root', fs, NewLeaf(placeholder), 1);
      SameOrderSameIds(newTree, Plug(fs, NewLeaf(placeholder)));
      newRoot := if top == -1 then root' else top;
    }

    /** The black nodes on any path down, with the leaf. */
    method CalculateBlackHeight(node: int, ghost t: Tree, ghost h: int) returns (height: int)
      requires Valid() && Points(leftChild[..], rightChild[..], node, t) && Good(color[..], t, h)
      ensures height == h
      decreases t
    {
      if node == -1 {
        return 1;
      }
      ghost var k := if RedId(color[..], t.id) then h else h - 1;
      var h1 := CalculateBlackHeight(leftChild[node], t.left, k);
      var h2 := CalculateBlackHeight(rightChild[node], t.right, k);
      height := (if h1 < h2 then h2 else h1) + (if color[node] == Black then 1 else 0);
    }
  }

  /** Every value goes into a node of its own. */
  method InsertAll(memory: Memory, input: seq<int>) returns (root: int, ghost tree: Tree)
    requires memory.Valid() && memory.leftChild.Length == |input|
    modifies memory.leftChild, memory.rightChild, memory.color, memory.value
    ensures memory.HoldsRedBlack(root, tree) && memory.Values(tree) == AllInserted(input)
  {
    root, tree := -1, Leaf;
    assert Good(memory.color[..], tree, 1);
    for i := 0 to |input|
      invariant memory.HoldsRedBlack(root, tree)
      invariant forall id :: id in Ids(tree) ==> id < i
      invariant memory.Values(tree) == AllInserted(input[..i])
    {
      AllInsertedIsSorted(input[..i]);
      root, tree := memory.Insert(root, input[i], i, tree);
      assert input[..i + 1][..i] == input[..i];
    }
    assert input[..|input|] == input;
  }

  /** Prints the black height of the tree of all values, and zero when there are none. */
  method BuildTree(input: seq<int>) returns (height: int, memory: Memory, root: int, ghost tree: Tree)
    ensures memory.Valid() && memory.HoldsRedBlack(root, tree)
    ensures Sorted(memory.Values(tree)) && multiset(memory.Values(tree)) == multiset(input)
    ensures input == [] ==> height == 0
    ensures input != [] ==> forall path :: IsPath(tree, path) ==> BlackOnPath(memory.color[..], tree, path) == height
    ensures input != [] ==> height >= 1 && Power(2, height - 1) <= |input| + 1 <= Power(4, height - 1)
  {
    memory := new Memory(|input|);
    root, tree := InsertAll(memory, input);
    AllInsertedSorts(input);
    if input == [] {
      return 0, memory, root, tree;
    }
    ghost var h :| Good(memory.color[..], tree, h);
    height := memory.CalculateBlackHeight(root, tree, h);
    forall path | IsPath(tree, path)
      ensures BlackOnPath(memory.color[..], tree, path) == height
    {
      EveryPathIsBlack(memory.color[..], tree, h, path);
    }
    ManyNodes(memory.color[..], tree, h);
    NotManyMore(memory.color[..], tree, h);
    assert |multiset(memory.Values(tree))| == |input|;
  }

  predicate IsStack(ancestors: seq<int>, fs: seq<Frame>) {
    |ancestors| == |fs| && forall i :: 0 <= i < |fs| ==> ancestors[i] == fs[i].id
  }
}
