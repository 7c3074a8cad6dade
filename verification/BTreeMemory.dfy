/** The nodes of a B-tree in memory and the trees they make up. */
module BTreeMemory {
  import opened BTreeShape

  /** Arrays for 2t - 1 values and 2t children, of which size and size + 1 are in use; -1 is NULL. */
  datatype Record = Record(values: seq<int>, children: seq<int>, size: nat)

  predicate IsRecord(r: Record, t: nat) {
    t > 0 && |r.values| == 2 * t - 1 && |r.children| == 2 * t && r.size <= 2 * t - 1
  }

  /** The node holds the keys, and either no children at all or one more than keys. */
  predicate IsNode(r: Record, t: nat, tree: Tree) {
    && IsRecord(r, t) && r.size == |tree.keys| && r.values[..r.size] == tree.keys
    && if tree.kids == [] then forall i :: 0 <= i < 2 * t ==> r.children[i] == -1
       else |tree.kids| == r.size + 1 && forall i :: 0 <= i < |tree.kids| ==> r.children[i] == tree.kids[i].id
  }

  /** Following the links from the node of the tree gives the tree. */
  predicate Holds(nodes: seq<Record>, t: nat, tree: Tree)
    decreases tree
  {
    && tree.id < |nodes| && IsNode(nodes[tree.id], t, tree)
    && forall i :: 0 <= i < |tree.kids| ==> Holds(nodes, t, tree.kids[i])
  }

  predicate Contains(tree: Tree, id: nat)
    decreases tree
  {
    tree.id == id || exists i :: 0 <= i < |tree.kids| && Contains(tree.kids[i], id)
  }

  /** No node is used twice. */
  ghost predicate Separate(tree: Tree)
    decreases tree
  {
    && (forall i :: 0 <= i < |tree.kids| ==> Separate(tree.kids[i]) && !Contains(tree.kids[i], tree.id))
    && forall i, j, id: nat :: 0 <= i < j < |tree.kids| && Contains(tree.kids[i], id) ==> !Contains(tree.kids[j], id)
  }

  ghost predicate Kept(nodes: seq<Record>, nodes': seq<Record>, tree: Tree) {
    |nodes| <= |nodes'| && forall id: nat :: id < |nodes| && Contains(tree, id) ==> nodes'[id] == nodes[id]
  }

  lemma {:induction false} HoldsKept(nodes: seq<Record>, nodes': seq<Record>, t: nat, tree: Tree)
    requires Holds(nodes, t, tree) && Kept(nodes, nodes', tree)
    ensures Holds(nodes', t, tree)
    decreases tree
  {
    assert Contains(tree, tree.id);
    forall i | 0 <= i < |tree.kids|
      ensures Holds(nodes', t, tree.kids[i])
    {
      assert forall id: nat :: Contains(tree.kids[i], id) ==> Contains(tree, id);
      HoldsKept(nodes, nodes', t, tree.kids[i]);
    }
  }

  lemma {:induction false} ContainsBelow(nodes: seq<Record>, t: nat, tree: Tree, id: nat)
    requires Holds(nodes, t, tree) && Contains(tree, id)
    ensures id < |nodes|
    decreases tree
  {
    if tree.id != id {
      var i :| 0 <= i < |tree.kids| && Contains(tree.kids[i], id);
      ContainsBelow(nodes, t, tree.kids[i], id);
    }
  }

  /** A new node is an empty leaf, it is in no tree, and every tree is still there. */
  lemma NewNodeIsApart(nodes: seq<Record>, t: nat, tree: Tree)
    requires t > 0 && Holds(nodes, t, tree)
    ensures var grown, id := nodes + [NewRecord(t)], |nodes|;
      Holds(grown, t, Tree(id, [], [])) && Holds(grown, t, tree) && !Contains(tree, id)
  {
    HoldsKept(nodes, nodes + [NewRecord(t)], t, tree);
    if Contains(tree, |nodes|) {
      ContainsBelow(nodes, t, tree, |nodes|);
    }
  }

  // ---------- Moving the tail of a node ----------

  function Copied<T>(s: seq<T>, at: nat, piece: seq<T>): (r: seq<T>)
    requires at + |piece| <= |s|
    ensures |r| == |s|
  {
    s[..at] + piece + s[at + |piece|..]
  }

  /** memmove of the values from a position on, with the children around them. */
  function MoveTail(src: Record, srcPos: nat, dest: Record, destPos: nat, t: nat): (r: Record)
    requires IsRecord(src, t) && IsRecord(dest, t) && srcPos <= src.size
    requires destPos + src.size - srcPos <= 2 * t - 1
    ensures IsRecord(r, t) && r.size == dest.size
  {
    dest.(values := Copied(dest.values, destPos, src.values[srcPos..src.size]),
          children := Copied(dest.children, destPos, src.children[srcPos..src.size + 1]))
  }

  /** Value j behind the source position comes to place j behind the other one, and so do children; the rest stays. */
  lemma MoveTailMoves(src: Record, srcPos: nat, dest: Record, destPos: nat, t: nat, j: nat)
    requires IsRecord(src, t) && IsRecord(dest, t) && srcPos <= src.size
    requires destPos + src.size - srcPos <= 2 * t - 1 && j < 2 * t
    ensures var r, moved := MoveTail(src, srcPos, dest, destPos, t), src.size - srcPos;
      && (j < 2 * t - 1 ==>
            r.values[j] == if destPos <= j < destPos + moved then src.values[srcPos + j - destPos] else dest.values[j])
      && r.children[j] == if destPos <= j <= destPos + moved then src.children[srcPos + j - destPos] else dest.children[j]
  {
    var moved := src.size - srcPos;
    if destPos <= j < destPos + moved {
      assert src.values[srcPos..src.size][j - destPos] == src.values[srcPos + j - destPos];
    }
  }

  // ---------- Replacing a child ----------

  /** Ids that are new lie between two sizes of the memory. */
  ghost predicate GrownFrom(tree: Tree, tree': Tree, n: nat, n': nat) {
    forall id: nat :: Contains(tree', id) ==> Contains(tree, id) || n <= id < n'
  }

  /** Outside a tree the memory that was there is as before. */
  ghost predicate ChangedOnly(nodes: seq<Record>, nodes': seq<Record>, tree: Tree) {
    |nodes| <= |nodes'| && forall id: nat :: id < |nodes| && !Contains(tree, id) ==> nodes'[id] == nodes[id]
  }

  lemma WithKidContains(tree: Tree, i: nat, kid: Tree, id: nat)
    requires i < |tree.kids|
    ensures Contains(WithKid(tree, i, kid), id) ==> Contains(tree, id) || Contains(kid, id)
  {
    var u := WithKid(tree, i, kid);
    if Contains(u, id) && u.id != id {
      var j :| 0 <= j < |u.kids| && Contains(u.kids[j], id);
      assert j != i ==> u.kids[j] == tree.kids[j];
    }
  }

  lemma WithKidHolds(nodes: seq<Record>, nodes': seq<Record>, t: nat, tree: Tree, i: nat, kid: Tree)
    requires Holds(nodes, t, tree) && Separate(tree) && i < |tree.kids|
    requires Holds(nodes', t, kid) && kid.id == tree.kids[i].id && ChangedOnly(nodes, nodes', tree.kids[i])
    ensures Holds(nodes', t, WithKid(tree, i, kid))
  {
    var u := WithKid(tree, i, kid);
    assert nodes'[tree.id] == nodes[tree.id];
    forall j | 0 <= j < |u.kids|
      ensures Holds(nodes', t, u.kids[j])
    {
      if j != i {
        assert u.kids[j] == tree.kids[j];
        assert Kept(nodes, nodes', tree.kids[j]);
        HoldsKept(nodes, nodes', t, tree.kids[j]);
      }
    }
  }

  ghost predicate Below(tree: Tree, n: nat) {
    forall id: nat :: Contains(tree, id) ==> id < n
  }

  lemma HoldsBelow(nodes: seq<Record>, t: nat, tree: Tree)
    requires Holds(nodes, t, tree)
    ensures Below(tree, |nodes|)
  {
    forall id: nat | Contains(tree, id)
      ensures id < |nodes|
    {
      ContainsBelow(nodes, t, tree, id);
    }
  }

  lemma KidContains(tree: Tree, i: nat, id: nat)
    requires i < |tree.kids| && Contains(tree.kids[i], id)
    ensures Contains(tree, id)
  {
  }

  lemma WithKidGrown(tree: Tree, i: nat, kid: Tree, n: nat, n': nat)
    requires i < |tree.kids| && GrownFrom(tree.kids[i], kid, n, n')
    ensures GrownFrom(tree, WithKid(tree, i, kid), n, n')
  {
    forall id: nat | Contains(WithKid(tree, i, kid), id)
      ensures Contains(tree, id) || n <= id < n'
    {
      WithKidContains(tree, i, kid, id);
    }
  }

  /** The new child shares no node with another child. */
  lemma KidsApart(tree: Tree, i: nat, j: nat, kid: Tree, n: nat, n': nat, id: nat)
    requires Separate(tree) && Below(tree, n) && i < |tree.kids| && j < |tree.kids| && i != j
    requires GrownFrom(tree.kids[i], kid, n, n') && Contains(kid, id)
    ensures !Contains(tree.kids[j], id)
  {
    if Contains(tree.kids[j], id) {
      KidContains(tree, j, id);
    }
  }

  lemma WithKidSeparate(tree: Tree, i: nat, kid: Tree, n: nat, n': nat)
    requires Separate(tree) && Below(tree, n) && i < |tree.kids|
    requires Separate(kid) && GrownFrom(tree.kids[i], kid, n, n')
    ensures Separate(WithKid(tree, i, kid))
  {
    var u := WithKid(tree, i, kid);
    assert Contains(tree, tree.id);
    forall j | 0 <= j < |u.kids|
      ensures Separate(u.kids[j]) && !Contains(u.kids[j], u.id)
    {
      assert j != i ==> u.kids[j] == tree.kids[j];
    }
    forall j, k, id: nat | 0 <= j < k < |u.kids| && Contains(u.kids[j], id)
      ensures !Contains(u.kids[k], id)
    {
      if j == i {
        KidsApart(tree, i, k, kid, n, n', id);
      } else if k == i {
        if Contains(kid, id) {
          KidsApart(tree, i, j, kid, n, n', id);
        }
      } else {
        assert u.kids[j] == tree.kids[j] && u.kids[k] == tree.kids[k];
      }
    }
  }

  // ---------- Splitting a node ----------

  /** A fresh node: zeros and NULLs. */
  function NewRecord(t: nat): (r: Record)
    requires t > 0
    ensures IsRecord(r, t)
  {
    Record(seq(2 * t - 1, _ => 0), seq(2 * t, _ => -1), 0)
  }

  /** The upper half of a full node. */
  function UpperHalf(r: Record, t: nat): Record
    requires IsRecord(r, t) && r.size == 2 * t - 1
  {
    MoveTail(r, t, NewRecord(t), 0, t).(size := t - 1)
  }

  function LowerHalf(r: Record, t: nat): Record
    requires t > 0
  {
    r.(size := t - 1)
  }

  /** A node with a value and the child behind it put in at a position. */
  function PutIn(r: Record, i: nat, value: int, child: int, t: nat): Record
    requires IsRecord(r, t) && r.size < 2 * t - 1 && i <= r.size
  {
    var moved := MoveTail(r, i, r, i + 1, t);
    Record(moved.values[i := value], moved.children[i + 1 := child], r.size + 1)
  }

  lemma LowerHalfIsNode(r: Record, t: nat, tree: Tree)
    requires IsNode(r, t, tree) && r.size == 2 * t - 1
    ensures IsNode(LowerHalf(r, t), t, Part(tree, tree.id, 0, t - 1))
  {
    assert r.values[..t - 1] == tree.keys[0..t - 1];
  }

  lemma UpperHalfIsNode(r: Record, t: nat, tree: Tree, id: nat)
    requires IsNode(r, t, tree) && r.size == 2 * t - 1
    ensures IsNode(UpperHalf(r, t), t, Part(tree, id, t, 2 * t - 1))
  {
    var u, part := UpperHalf(r, t), Part(tree, id, t, 2 * t - 1);
    assert u.values[..t - 1] == r.values[t..2 * t - 1] == part.keys;
    assert forall j :: 0 <= j < t ==> u.children[j] == r.children[t + j];
    assert forall j :: t <= j < 2 * t ==> u.children[j] == -1;
  }

  lemma PutInChildren(r: Record, i: nat, value: int, child: int, t: nat, j: nat)
    requires IsRecord(r, t) && r.size < 2 * t - 1 && i <= r.size && j <= r.size + 1
    ensures PutIn(r, i, value, child, t).children[j]
         == if j <= i then r.children[j] else if j == i + 1 then child else r.children[j - 1]
  {
  }

  lemma PutInValues(r: Record, i: nat, value: int, child: int, t: nat)
    requires IsRecord(r, t) && r.size < 2 * t - 1 && i <= r.size
    ensures PutIn(r, i, value, child, t).values[..r.size + 1] == r.values[..i] + [value] + r.values[i..r.size]
  {
  }

  lemma ParentIsNode(r: Record, t: nat, tree: Tree, i: nat, id: nat)
    requires IsNode(r, t, tree) && r.size < 2 * t - 1 && i < |tree.kids| && |tree.kids[i].keys| == 2 * t - 1
    requires tree.kids[i].kids != [] ==> |tree.kids[i].kids| == 2 * t
    ensures IsNode(PutIn(r, i, tree.kids[i].keys[t - 1], id, t), t, SplitKid(tree, i, t, id))
  {
    var m, split := tree.kids[i].keys[t - 1], SplitKid(tree, i, t, id);
    PutInValues(r, i, m, id, t);
    assert r.values[..i] == tree.keys[..i] && r.values[i..r.size] == tree.keys[i..];
    forall j | 0 <= j < |split.kids|
      ensures PutIn(r, i, m, id, t).children[j] == split.kids[j].id
    {
      PutInChildren(r, i, m, id, t, j);
    }
  }

  /** The memory after the child with number i of a node is split. */
  function AfterSplit(nodes: seq<Record>, t: nat, tree: Tree, i: nat): seq<Record>
    requires Holds(nodes, t, tree) && i < |tree.kids| && |tree.keys| < 2 * t - 1 && |tree.kids[i].keys| == 2 * t - 1
  {
    var kid := tree.kids[i];
    assert Holds(nodes, t, kid);
    nodes[tree.id := PutIn(nodes[tree.id], i, kid.keys[t - 1], |nodes|, t)][kid.id := LowerHalf(nodes[kid.id], t)]
      + [UpperHalf(nodes[kid.id], t)]
  }

  lemma PartContains(tree: Tree, id: nat, from: nat, to: nat, x: nat)
    requires from <= to <= |tree.keys| && (tree.kids != [] ==> |tree.kids| == |tree.keys| + 1)
    requires Contains(Part(tree, id, from, to), x)
    ensures x == id || exists j :: from <= j < |tree.kids| && j <= to && Contains(tree.kids[j], x)
  {
    var part := Part(tree, id, from, to);
    if x != id {
      var j :| 0 <= j < |part.kids| && Contains(part.kids[j], x);
      assert part.kids[j] == tree.kids[from + j];
    }
  }

  lemma PartHolds(nodes: seq<Record>, nodes': seq<Record>, t: nat, tree: Tree, id: nat, from: nat, to: nat)
    requires Holds(nodes, t, tree) && Separate(tree) && from <= to <= |tree.keys|
    requires |nodes| <= |nodes'| && id < |nodes'| && IsNode(nodes'[id], t, Part(tree, id, from, to))
    requires forall j :: 0 <= j < |tree.kids| ==> Kept(nodes, nodes', tree.kids[j])
    ensures Holds(nodes', t, Part(tree, id, from, to))
  {
    var part := Part(tree, id, from, to);
    forall j | 0 <= j < |part.kids|
      ensures Holds(nodes', t, part.kids[j])
    {
      assert part.kids[j] == tree.kids[from + j];
      HoldsKept(nodes, nodes', t, tree.kids[from + j]);
    }
  }

  lemma SplitKeeps(nodes: seq<Record>, t: nat, tree: Tree, i: nat)
    requires Holds(nodes, t, tree) && Separate(tree)
    requires i < |tree.kids| && |tree.keys| < 2 * t - 1 && |tree.kids[i].keys| == 2 * t - 1
    ensures var nodes' := AfterSplit(nodes, t, tree, i);
      && (forall j :: 0 <= j < |tree.kids| && j != i ==> Kept(nodes, nodes', tree.kids[j]))
      && (forall j :: 0 <= j < |tree.kids[i].kids| ==> Kept(nodes, nodes', tree.kids[i].kids[j]))
  {
    var kid, nodes' := tree.kids[i], AfterSplit(nodes, t, tree, i);
    assert Contains(kid, kid.id);
    forall j | 0 <= j < |tree.kids| && j != i
      ensures Kept(nodes, nodes', tree.kids[j])
    {
      assert !Contains(tree.kids[j], kid.id) && !Contains(tree.kids[j], tree.id);
    }
    forall j | 0 <= j < |kid.kids|
      ensures Kept(nodes, nodes', kid.kids[j])
    {
      assert !Contains(kid.kids[j], kid.id);
      assert Contains(kid.kids[j], tree.id) ==> Contains(kid, tree.id);
    }
  }

  /** The three nodes that a split writes. */
  lemma SplitNodes(nodes: seq<Record>, t: nat, tree: Tree, i: nat)
    requires Holds(nodes, t, tree) && Separate(tree)
    requires i < |tree.kids| && |tree.keys| < 2 * t - 1 && |tree.kids[i].keys| == 2 * t - 1
    ensures tree.kids[i].kids != [] ==> |tree.kids[i].kids| == 2 * t
    ensures var kid, nodes' := tree.kids[i], AfterSplit(nodes, t, tree, i);
      && tree.id < |nodes| && kid.id < |nodes| && |nodes'| == |nodes| + 1
      && IsNode(nodes'[tree.id], t, SplitKid(tree, i, t, |nodes|))
      && IsNode(nodes'[kid.id], t, Part(kid, kid.id, 0, t - 1))
      && IsNode(nodes'[|nodes|], t, Part(kid, |nodes|, t, 2 * t - 1))
  {
    var kid := tree.kids[i];
    assert Holds(nodes, t, kid) && Contains(kid, kid.id);
    ParentIsNode(nodes[tree.id], t, tree, i, |nodes|);
    LowerHalfIsNode(nodes[kid.id], t, kid);
    UpperHalfIsNode(nodes[kid.id], t, kid, |nodes|);
  }

  lemma LowerHalfHolds(nodes: seq<Record>, t: nat, tree: Tree, i: nat)
    requires Holds(nodes, t, tree) && Separate(tree)
    requires i < |tree.kids| && |tree.keys| < 2 * t - 1 && |tree.kids[i].keys| == 2 * t - 1
    requires tree.kids[i].kids != [] ==> |tree.kids[i].kids| == 2 * t
    ensures Holds(AfterSplit(nodes, t, tree, i), t, Part(tree.kids[i], tree.kids[i].id, 0, t - 1))
  {
    var kid := tree.kids[i];
    SplitNodes(nodes, t, tree, i);
    SplitKeeps(nodes, t, tree, i);
    PartHolds(nodes, AfterSplit(nodes, t, tree, i), t, kid, kid.id, 0, t - 1);
  }

  lemma UpperHalfHolds(nodes: seq<Record>, t: nat, tree: Tree, i: nat)
    requires Holds(nodes, t, tree) && Separate(tree)
    requires i < |tree.kids| && |tree.keys| < 2 * t - 1 && |tree.kids[i].keys| == 2 * t - 1
    requires tree.kids[i].kids != [] ==> |tree.kids[i].kids| == 2 * t
    ensures Holds(AfterSplit(nodes, t, tree, i), t, Part(tree.kids[i], |nodes|, t, 2 * t - 1))
  {
    SplitNodes(nodes, t, tree, i);
    SplitKeeps(nodes, t, tree, i);
    PartHolds(nodes, AfterSplit(nodes, t, tree, i), t, tree.kids[i], |nodes|, t, 2 * t - 1);
  }

  lemma SplitHolds(nodes: seq<Record>, t: nat, tree: Tree, i: nat)
    requires Holds(nodes, t, tree) && Separate(tree)
    requires i < |tree.kids| && |tree.keys| < 2 * t - 1 && |tree.kids[i].keys| == 2 * t - 1
    requires tree.kids[i].kids != [] ==> |tree.kids[i].kids| == 2 * t
    ensures Holds(AfterSplit(nodes, t, tree, i), t, SplitKid(tree, i, t, |nodes|))
  {
    var nodes', split := AfterSplit(nodes, t, tree, i), SplitKid(tree, i, t, |nodes|);
    SplitNodes(nodes, t, tree, i);
    SplitKeeps(nodes, t, tree, i);
    LowerHalfHolds(nodes, t, tree, i);
    UpperHalfHolds(nodes, t, tree, i);
    forall j | 0 <= j < |split.kids|
      ensures Holds(nodes', t, split.kids[j])
    {
      if j < i {
        HoldsKept(nodes, nodes', t, tree.kids[j]);
        assert split.kids[j] == tree.kids[j];
      } else if j > i + 1 {
        HoldsKept(nodes, nodes', t, tree.kids[j - 1]);
        assert split.kids[j] == tree.kids[j - 1];
      }
    }
  }

  lemma PartSeparate(tree: Tree, id: nat, from: nat, to: nat)
    requires from <= to <= |tree.keys| && (tree.kids != [] ==> |tree.kids| == |tree.keys| + 1)
    requires Separate(tree) && (id == tree.id || Below(tree, id))
    ensures Separate(Part(tree, id, from, to))
  {
    var part := Part(tree, id, from, to);
    assert forall j :: 0 <= j < |part.kids| ==> part.kids[j] == tree.kids[from + j];
    forall j | 0 <= j < |part.kids|
      ensures !Contains(part.kids[j], id)
    {
      assert Contains(tree.kids[from + j], id) ==> Contains(tree, id);
    }
  }

  /** The two halves of a node share nothing, and have one node of their own. */
  lemma HalvesApart(tree: Tree, id: nat, m: nat, x: nat)
    requires m < |tree.keys| && (tree.kids != [] ==> |tree.kids| == |tree.keys| + 1)
    requires Separate(tree) && Below(tree, id) && Contains(Part(tree, tree.id, 0, m), x)
    ensures !Contains(Part(tree, id, m + 1, |tree.keys|), x) && Contains(tree, x)
  {
    PartContains(tree, tree.id, 0, m, x);
    assert Contains(tree, x);
    if Contains(Part(tree, id, m + 1, |tree.keys|), x) {
      PartContains(tree, id, m + 1, |tree.keys|, x);
    }
  }

  /** A node of a split tree was in the child where it came from, or is the new one. */
  lemma SplitOrigin(tree: Tree, i: nat, t: nat, n: nat, j: nat, x: nat)
    requires |tree.kids| == |tree.keys| + 1 && i < |tree.kids| && t > 0 && |tree.kids[i].keys| == 2 * t - 1
    requires tree.kids[i].kids != [] ==> |tree.kids[i].kids| == 2 * t
    requires j <= |tree.kids| && Contains(SplitKid(tree, i, t, n).kids[j], x)
    ensures (j == i + 1 && x == n) || Contains(tree.kids[if j <= i then j else j - 1], x)
  {
    var kid := tree.kids[i];
    if j == i {
      PartContains(kid, kid.id, 0, t - 1, x);
    } else if j == i + 1 {
      PartContains(kid, n, t, 2 * t - 1, x);
    }
  }

  lemma SplitSeparate(tree: Tree, i: nat, t: nat, n: nat)
    requires |tree.kids| == |tree.keys| + 1 && i < |tree.kids| && t > 0 && |tree.kids[i].keys| == 2 * t - 1
    requires tree.kids[i].kids != [] ==> |tree.kids[i].kids| == 2 * t
    requires Separate(tree) && Below(tree, n)
    ensures Separate(SplitKid(tree, i, t, n))
  {
    var kid, split := tree.kids[i], SplitKid(tree, i, t, n);
    assert Contains(tree, tree.id);
    assert Below(kid, n) by {
      assert forall x: nat :: Contains(kid, x) ==> Contains(tree, x);
    }
    PartSeparate(kid, kid.id, 0, t - 1);
    PartSeparate(kid, n, t, 2 * t - 1);
    forall j | 0 <= j < |split.kids|
      ensures Separate(split.kids[j]) && !Contains(split.kids[j], tree.id)
    {
      if Contains(split.kids[j], tree.id) {
        SplitOrigin(tree, i, t, n, j, tree.id);
      }
      assert j > i + 1 ==> split.kids[j] == tree.kids[j - 1];
    }
    forall j, k, x: nat | 0 <= j < k < |split.kids| && Contains(split.kids[j], x)
      ensures !Contains(split.kids[k], x)
    {
      if Contains(split.kids[k], x) {
        SplitPairApart(tree, i, t, n, j, k, x);
      }
    }
  }

  lemma SplitNotIn(tree: Tree, i: nat, t: nat, n: nat, k: nat, x: nat)
    requires |tree.kids| == |tree.keys| + 1 && i < |tree.kids| && t > 0 && |tree.kids[i].keys| == 2 * t - 1
    requires tree.kids[i].kids != [] ==> |tree.kids[i].kids| == 2 * t
    requires k <= |tree.kids| && !Contains(tree.kids[if k <= i then k else k - 1], x) && (k != i + 1 || x != n)
    ensures !Contains(SplitKid(tree, i, t, n).kids[k], x)
  {
    if Contains(SplitKid(tree, i, t, n).kids[k], x) {
      SplitOrigin(tree, i, t, n, k, x);
    }
  }

  lemma KidBelow(tree: Tree, i: nat, n: nat, x: nat)
    requires Below(tree, n) && i < |tree.kids|
    ensures Contains(tree.kids[i], x) ==> x < n
  {
    assert Contains(tree.kids[i], x) ==> Contains(tree, x);
  }

  lemma SplitPairApart(tree: Tree, i: nat, t: nat, n: nat, j: nat, k: nat, x: nat)
    requires |tree.kids| == |tree.keys| + 1 && i < |tree.kids| && t > 0 && |tree.kids[i].keys| == 2 * t - 1
    requires tree.kids[i].kids != [] ==> |tree.kids[i].kids| == 2 * t
    requires Separate(tree) && Below(tree, n) && j < k <= |tree.kids|
    requires Contains(SplitKid(tree, i, t, n).kids[j], x)
    ensures !Contains(SplitKid(tree, i, t, n).kids[k], x)
  {
    var kid, a, b := tree.kids[i], if j <= i then j else j - 1, if k <= i then k else k - 1;
    if j == i && k == i + 1 {
      assert Below(kid, n) by {
        forall y: nat | Contains(kid, y)
          ensures y < n
        {
          KidBelow(tree, i, n, y);
        }
      }
      HalvesApart(kid, n, t - 1, x);
    } else {
      SplitOrigin(tree, i, t, n, j, x);
      KidBelow(tree, a, n, x);
      KidBelow(tree, b, n, x);
      assert Contains(tree.kids[a], x) ==> !Contains(tree.kids[b], x);
      SplitNotIn(tree, i, t, n, k, x);
    }
  }

  lemma SplitGrown(tree: Tree, i: nat, t: nat, n: nat)
    requires |tree.kids| == |tree.keys| + 1 && i < |tree.kids| && t > 0 && |tree.kids[i].keys| == 2 * t - 1
    requires tree.kids[i].kids != [] ==> |tree.kids[i].kids| == 2 * t
    ensures GrownFrom(tree, SplitKid(tree, i, t, n), n, n + 1)
  {
    var split := SplitKid(tree, i, t, n);
    forall x: nat | Contains(split, x)
      ensures Contains(tree, x) || n <= x < n + 1
    {
      if x != tree.id {
        var j :| 0 <= j < |split.kids| && Contains(split.kids[j], x);
        SplitOrigin(tree, i, t, n, j, x);
      }
    }
  }
}
