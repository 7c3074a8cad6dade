/** Binary trees linked through memory, seen as a subtree and the frames around it. */
module RedBlackShape {

  /** The shape of a tree of nodes, each named by its place in memory. */
  datatype Tree = Leaf | Node(left: Tree, id: nat, right: Tree)

  /** A node on the way to a subtree: the subtree is one child, the sibling the other. */
  datatype Frame = Frame(id: nat, onLeft: bool, sibling: Tree)

  function Top(t: Tree): int {
    if t.Leaf? then -1 else t.id
  }

  function Up(f: Frame, t: Tree): Tree {
    if f.onLeft then Node(t, f.id, f.sibling) else Node(f.sibling, f.id, t)
  }

  function Last(fs: seq<Frame>): Frame
    requires fs != []
  {
    fs[|fs| - 1]
  }

  function Front(fs: seq<Frame>): seq<Frame>
    requires fs != []
  {
    fs[..|fs| - 1]
  }

  /** The whole tree; the last frame is the parent. */
  function Plug(fs: seq<Frame>, t: Tree): Tree {
    if fs == [] then t else Plug(Front(fs), Up(Last(fs), t))
  }

  // ---------- The order of the nodes ----------

  function Inorder(t: Tree): seq<nat> {
    if t.Leaf? then [] else Inorder(t.left) + [t.id] + Inorder(t.right)
  }

  /** The nodes to the left of the subtree. */
  function Before(fs: seq<Frame>): seq<nat> {
    if fs == [] then [] else
      var f := Last(fs);
      if f.onLeft then Before(Front(fs)) else Before(Front(fs)) + Inorder(f.sibling) + [f.id]
  }

  function After(fs: seq<Frame>): seq<nat> {
    if fs == [] then [] else
      var f := Last(fs);
      if f.onLeft then [f.id] + Inorder(f.sibling) + After(Front(fs)) else After(Front(fs))
  }

  lemma {:induction false} PlugInorder(fs: seq<Frame>, t: Tree)
    ensures Inorder(Plug(fs, t)) == Before(fs) + Inorder(t) + After(fs)
    decreases |fs|
  {
    if fs != [] {
      PlugInorder(Front(fs), Up(Last(fs), t));
      var f, b, a, x, s := Last(fs), Before(Front(fs)), After(Front(fs)), Inorder(t), Inorder(Last(fs).sibling);
      if f.onLeft {
        assert b + (x + [f.id] + s) + a == b + x + ([f.id] + s + a);
      } else {
        assert b + (s + [f.id] + x) + a == (b + s + [f.id]) + x + a;
      }
    }
  }

  // ---------- Links in memory ----------

  function Ids(t: Tree): set<nat> {
    if t.Leaf? then {} else Ids(t.left) + {t.id} + Ids(t.right)
  }

  function ContextIds(fs: seq<Frame>): set<nat> {
    if fs == [] then {} else ContextIds(Front(fs)) + {Last(fs).id} + Ids(Last(fs).sibling)
  }

  /** No node is used twice. */
  predicate Separate(t: Tree) {
    t.Node? ==>
      && Separate(t.left) && Separate(t.right) && Ids(t.left) !! Ids(t.right)
      && t.id !in Ids(t.left) && t.id !in Ids(t.right)
  }

  predicate ContextSeparate(fs: seq<Frame>) {
    fs == [] || (
      && ContextSeparate(Front(fs)) && Separate(Last(fs).sibling)
      && Last(fs).id !in ContextIds(Front(fs)) && Last(fs).id !in Ids(Last(fs).sibling)
      && ContextIds(Front(fs)) !! Ids(Last(fs).sibling))
  }

  /** Following the links from p gives the tree. */
  predicate Points(left: seq<int>, right: seq<int>, p: int, t: Tree)
    decreases t
  {
    match t
    case Leaf => p == -1
    case Node(l, id, r) =>
      && p == id < |left| == |right|
      && Points(left, right, left[id], l) && Points(left, right, right[id], r)
  }

  /** Following the links from the root gives the frames and comes to p. */
  predicate ContextPoints(left: seq<int>, right: seq<int>, root: int, fs: seq<Frame>, p: int) {
    if fs == [] then root == p else
      var f := Last(fs);
      && f.id < |left| == |right|
      && ContextPoints(left, right, root, Front(fs), f.id)
      && if f.onLeft then left[f.id] == p && Points(left, right, right[f.id], f.sibling)
         else right[f.id] == p && Points(left, right, left[f.id], f.sibling)
  }

  /** The memory holds the tree made of the frames and the subtree. */
  predicate Held(left: seq<int>, right: seq<int>, root: int, fs: seq<Frame>, t: Tree) {
    && ContextPoints(left, right, root, fs, Top(t)) && Points(left, right, Top(t), t)
    && ContextSeparate(fs) && Separate(t) && ContextIds(fs) !! Ids(t)
  }

  lemma PointsTop(left: seq<int>, right: seq<int>, p: int, t: Tree)
    requires Points(left, right, p, t)
    ensures p == Top(t)
  {
  }

  lemma ZipUp(left: seq<int>, right: seq<int>, root: int, fs: seq<Frame>, t: Tree)
    requires fs != [] && Held(left, right, root, fs, t)
    ensures Held(left, right, root, Front(fs), Up(Last(fs), t))
  {
  }

  lemma ZipDown(left: seq<int>, right: seq<int>, root: int, fs: seq<Frame>, f: Frame, t: Tree)
    requires Held(left, right, root, fs, Up(f, t))
    ensures Held(left, right, root, fs + [f], t)
  {
    var longer := fs + [f];
    assert Front(longer) == fs && Last(longer) == f;
    PointsTop(left, right, if f.onLeft then left[f.id] else right[f.id], t);
  }

  lemma {:induction false} HeldWhole(left: seq<int>, right: seq<int>, root: int, fs: seq<Frame>, t: Tree)
    requires Held(left, right, root, fs, t)
    ensures Held(left, right, root, [], Plug(fs, t))
    decreases |fs|
  {
    if fs != [] {
      ZipUp(left, right, root, fs, t);
      HeldWhole(left, right, root, Front(fs), Up(Last(fs), t));
    }
  }

  /** Nodes outside a tree may change their links. */
  lemma {:induction false} PointsKept(left: seq<int>, right: seq<int>, left': seq<int>, right': seq<int>, p: int, t: Tree)
    requires Points(left, right, p, t) && |left'| == |left| && |right'| == |right|
    requires forall id :: id in Ids(t) && id < |left| == |right| ==> left'[id] == left[id] && right'[id] == right[id]
    ensures Points(left', right', p, t)
    decreases t
  {
    if t.Node? {
      PointsKept(left, right, left', right', left[t.id], t.left);
      PointsKept(left, right, left', right', right[t.id], t.right);
    }
  }

  lemma {:induction false} ContextKept(left: seq<int>, right: seq<int>, left': seq<int>, right': seq<int>, root: int, fs: seq<Frame>, p: int)
    requires ContextPoints(left, right, root, fs, p) && |left'| == |left| && |right'| == |right|
    requires forall id :: id in ContextIds(fs) && id < |left| == |right| ==> left'[id] == left[id] && right'[id] == right[id]
    ensures ContextPoints(left', right', root, fs, p)
    decreases |fs|
  {
    if fs != [] {
      var f := Last(fs);
      ContextKept(left, right, left', right', root, Front(fs), f.id);
      PointsKept(left, right, left', right', if f.onLeft then right[f.id] else left[f.id], f.sibling);
    }
  }

  /** The link of a child in its parent, when there is one. */
  predicate Relinked(left: seq<int>, right: seq<int>, left': seq<int>, right': seq<int>, fs: seq<Frame>, p: int) {
    && |left'| == |left| == |right| == |right'|
    && (fs != [] ==>
          var f := Last(fs);
          && f.id < |left|
          && if f.onLeft then left'[f.id] == p && right'[f.id] == right[f.id]
             else left'[f.id] == left[f.id] && right'[f.id] == p)
    && forall id :: id in ContextIds(fs) && id < |left| && (fs == [] || id != Last(fs).id) ==>
         left'[id] == left[id] && right'[id] == right[id]
  }

  lemma ContextRelinked(left: seq<int>, right: seq<int>, left': seq<int>, right': seq<int>, root: int, fs: seq<Frame>, p: int, q: int)
    requires ContextPoints(left, right, root, fs, p) && ContextSeparate(fs) && Relinked(left, right, left', right', fs, q)
    ensures ContextPoints(left', right', if fs == [] then q else root, fs, q)
  {
    if fs != [] {
      var f := Last(fs);
      ContextKept(left, right, left', right', root, Front(fs), f.id);
      PointsKept(left, right, left', right', if f.onLeft then right[f.id] else left[f.id], f.sibling);
    }
  }

  /** A child is on the side where its frame says, and only there. */
  lemma ChildSide(left: seq<int>, right: seq<int>, root: int, fs: seq<Frame>, t: Tree)
    requires Held(left, right, root, fs, t) && fs != [] && t.Node?
    ensures var f := Last(fs); f.id < |left| == |right| && (left[f.id] == t.id <==> f.onLeft) && (right[f.id] == t.id <==> !f.onLeft)
  {
    var f := Last(fs);
    assert f.sibling.Node? ==> f.sibling.id in Ids(f.sibling);
    assert t.id in Ids(t);
    assert Ids(f.sibling) <= ContextIds(fs);
  }

  // ---------- Rotations ----------

  function RotatedRight(t: Tree): Tree
    requires t.Node? && t.left.Node?
  {
    Node(t.left.left, t.left.id, Node(t.left.right, t.id, t.right))
  }

  function RotatedLeft(t: Tree): Tree
    requires t.Node? && t.right.Node?
  {
    Node(Node(t.left, t.id, t.right.left), t.right.id, t.right.right)
  }

  lemma RightRotationKeepsOrder(t: Tree)
    requires t.Node? && t.left.Node?
    ensures Inorder(RotatedRight(t)) == Inorder(t)
  {
    var x, y, z := Inorder(t.left.left), Inorder(t.left.right), Inorder(t.right);
    assert Inorder(t.left) == x + [t.left.id] + y;
    assert Inorder(RotatedRight(t).right) == y + [t.id] + z;
    Regrouped(x, t.left.id, y, t.id, z);
  }

  lemma Regrouped(x: seq<nat>, a: nat, y: seq<nat>, b: nat, z: seq<nat>)
    ensures x + [a] + (y + [b] + z) == (x + [a] + y) + [b] + z
  {
  }

  lemma LeftRotationKeepsOrder(t: Tree)
    requires t.Node? && t.right.Node?
    ensures Inorder(RotatedLeft(t)) == Inorder(t)
  {
    RightRotationKeepsOrder(RotatedLeft(t));
    assert RotatedRight(RotatedLeft(t)) == t;
  }

  lemma RightRotationSeparate(t: Tree)
    requires t.Node? && t.left.Node? && Separate(t)
    ensures Separate(RotatedRight(t)) && Ids(RotatedRight(t)) == Ids(t)
  {
    assert Separate(t.left);
    assert Ids(t.left) == Ids(t.left.left) + {t.left.id} + Ids(t.left.right);
    assert Separate(RotatedRight(t).right);
    assert Ids(RotatedRight(t).right) == Ids(t.left.right) + {t.id} + Ids(t.right);
  }

  lemma LeftRotationSeparate(t: Tree)
    requires t.Node? && t.right.Node? && Separate(t)
    ensures Separate(RotatedLeft(t)) && Ids(RotatedLeft(t)) == Ids(t)
  {
    assert Separate(t.right);
    assert Ids(t.right) == Ids(t.right.left) + {t.right.id} + Ids(t.right.right);
    assert Separate(RotatedLeft(t).left);
    assert Ids(RotatedLeft(t).left) == Ids(t.left) + {t.id} + Ids(t.right.left);
  }

  predicate LinksKept(left: seq<int>, right: seq<int>, left': seq<int>, right': seq<int>, ids: set<nat>)
    requires |left'| == |left| == |right| == |right'|
  {
    forall id :: id in ids && id < |left| ==> left'[id] == left[id] && right'[id] == right[id]
  }

  lemma RightRotationPoints(left: seq<int>, right: seq<int>, left': seq<int>, right': seq<int>, t: Tree)
    requires t.Node? && t.left.Node? && Points(left, right, t.id, t)
    requires |left'| == |left| == |right| == |right'| && t.id < |left| && t.left.id < |left|
    requires left'[t.id] == right[t.left.id] && right'[t.id] == right[t.id]
    requires left'[t.left.id] == left[t.left.id] && right'[t.left.id] == t.id
    requires LinksKept(left, right, left', right', Ids(t.left.left) + Ids(t.left.right) + Ids(t.right))
    ensures Points(left', right', t.left.id, RotatedRight(t))
  {
    assert Points(left, right, left[t.id], t.left);
    PointsKept(left, right, left', right', left[t.left.id], t.left.left);
    PointsKept(left, right, left', right', right[t.left.id], t.left.right);
    PointsKept(left, right, left', right', right[t.id], t.right);
    assert Points(left', right', t.id, RotatedRight(t).right);
  }

  lemma LeftRotationPoints(left: seq<int>, right: seq<int>, left': seq<int>, right': seq<int>, t: Tree)
    requires t.Node? && t.right.Node? && Points(left, right, t.id, t)
    requires |left'| == |left| == |right| == |right'| && t.id < |left| && t.right.id < |left|
    requires left'[t.id] == left[t.id] && right'[t.id] == left[t.right.id]
    requires left'[t.right.id] == t.id && right'[t.right.id] == right[t.right.id]
    requires LinksKept(left, right, left', right', Ids(t.left) + Ids(t.right.left) + Ids(t.right.right))
    ensures Points(left', right', t.right.id, RotatedLeft(t))
  {
    assert Points(left, right, right[t.id], t.right);
    PointsKept(left, right, left', right', left[t.id], t.left);
    PointsKept(left, right, left', right', left[t.right.id], t.right.left);
    PointsKept(left, right, left', right', right[t.right.id], t.right.right);
    assert Points(left', right', t.id, RotatedLeft(t).left);
  }

  /** Where the two nodes of a rotation and their parent lie. */
  lemma Focus(left: seq<int>, right: seq<int>, root: int, fs: seq<Frame>, t: Tree)
    requires Held(left, right, root, fs, t) && t.Node?
    ensures t.id < |left| == |right|
    ensures t.left.Node? ==> t.left.id < |left| && left[t.id] == t.left.id && t.left.id != t.id
    ensures t.right.Node? ==> t.right.id < |left| && right[t.id] == t.right.id && t.right.id != t.id
    ensures fs != [] ==>
      && Last(fs).id < |left| && Last(fs).id !in Ids(t)
      && (left[Last(fs).id] == t.id <==> Last(fs).onLeft) && (right[Last(fs).id] == t.id <==> !Last(fs).onLeft)
  {
    assert Points(left, right, left[t.id], t.left) && Points(left, right, right[t.id], t.right);
    assert t.left.Node? ==> t.left.id in Ids(t.left);
    assert t.right.Node? ==> t.right.id in Ids(t.right);
    if fs != [] {
      ChildSide(left, right, root, fs, t);
    }
  }

  /** The left links after the child at the end of the frames is replaced by q. */
  function RelinkLeft(left: seq<int>, fs: seq<Frame>, q: int): seq<int>
    requires fs != [] ==> Last(fs).id < |left|
  {
    if fs != [] && Last(fs).onLeft then left[Last(fs).id := q] else left
  }

  function RelinkRight(right: seq<int>, fs: seq<Frame>, q: int): seq<int>
    requires fs != [] ==> Last(fs).id < |right|
  {
    if fs != [] && !Last(fs).onLeft then right[Last(fs).id := q] else right
  }

  lemma RelinkedAround(left: seq<int>, right: seq<int>, root: int, fs: seq<Frame>, t: Tree, q: int,
                       left': seq<int>, right': seq<int>)
    requires Held(left, right, root, fs, t) && |left| == |right| && (fs != [] ==> Last(fs).id < |left|)
    requires |left'| == |left| == |right'|
    requires forall id :: 0 <= id < |left| && id !in Ids(t) ==>
      left'[id] == RelinkLeft(left, fs, q)[id] && right'[id] == RelinkRight(right, fs, q)[id]
    ensures ContextPoints(left', right', if fs == [] then q else root, fs, q)
  {
    assert fs != [] ==> Last(fs).id in ContextIds(fs);
    ContextRelinked(left, right, left', right', root, fs, Top(t), q);
  }

  function RightRotatedLeft(left: seq<int>, right: seq<int>, fs: seq<Frame>, t: Tree): seq<int>
    requires t.Node? && t.left.Node? && |left| == |right| && t.id < |left| && t.left.id < |left|
    requires fs != [] ==> Last(fs).id < |left|
  {
    RelinkLeft(left, fs, t.left.id)[t.id := right[t.left.id]]
  }

  function RightRotatedRight(right: seq<int>, fs: seq<Frame>, t: Tree): seq<int>
    requires t.Node? && t.left.Node? && t.id < |right| && t.left.id < |right|
    requires fs != [] ==> Last(fs).id < |right|
  {
    RelinkRight(right, fs, t.left.id)[t.left.id := t.id]
  }

  lemma RightRotationHeld(left: seq<int>, right: seq<int>, root: int, fs: seq<Frame>, t: Tree)
    requires t.Node? && t.left.Node? && Held(left, right, root, fs, t)
    requires |left| == |right| && t.id < |left| && t.left.id < |left| && (fs != [] ==> Last(fs).id < |left|)
    ensures Held(RightRotatedLeft(left, right, fs, t), RightRotatedRight(right, fs, t),
                 if fs == [] then t.left.id else root, fs, RotatedRight(t))
  {
    var left', right' := RightRotatedLeft(left, right, fs, t), RightRotatedRight(right, fs, t);
    Focus(left, right, root, fs, t);
    assert Separate(t.left) && Ids(t.left) == Ids(t.left.left) + {t.left.id} + Ids(t.left.right);
    RelinkedAround(left, right, root, fs, t, t.left.id, left', right');
    RightRotationPoints(left, right, left', right', t);
    RightRotationSeparate(t);
  }

  function LeftRotatedLeft(left: seq<int>, fs: seq<Frame>, t: Tree): seq<int>
    requires t.Node? && t.right.Node? && t.id < |left| && t.right.id < |left|
    requires fs != [] ==> Last(fs).id < |left|
  {
    RelinkLeft(left, fs, t.right.id)[t.right.id := t.id]
  }

  function LeftRotatedRight(left: seq<int>, right: seq<int>, fs: seq<Frame>, t: Tree): seq<int>
    requires t.Node? && t.right.Node? && |left| == |right| && t.id < |right| && t.right.id < |right|
    requires fs != [] ==> Last(fs).id < |right|
  {
    RelinkRight(right, fs, t.right.id)[t.id := left[t.right.id]]
  }

  lemma LeftRotationHeld(left: seq<int>, right: seq<int>, root: int, fs: seq<Frame>, t: Tree)
    requires t.Node? && t.right.Node? && Held(left, right, root, fs, t)
    requires |left| == |right| && t.id < |left| && t.right.id < |left| && (fs != [] ==> Last(fs).id < |left|)
    ensures Held(LeftRotatedLeft(left, fs, t), LeftRotatedRight(left, right, fs, t),
                 if fs == [] then t.right.id else root, fs, RotatedLeft(t))
  {
    var left', right' := LeftRotatedLeft(left, fs, t), LeftRotatedRight(left, right, fs, t);
    Focus(left, right, root, fs, t);
    assert Separate(t.right) && Ids(t.right) == Ids(t.right.left) + {t.right.id} + Ids(t.right.right);
    RelinkedAround(left, right, root, fs, t, t.right.id, left', right');
    LeftRotationPoints(left, right, left', right', t);
    LeftRotationSeparate(t);
  }

  // ---------- A new leaf ----------

  lemma {:induction false} PlugIds(fs: seq<Frame>, t: Tree)
    ensures Ids(Plug(fs, t)) == ContextIds(fs) + Ids(t)
    decreases |fs|
  {
    if fs != [] {
      PlugIds(Front(fs), Up(Last(fs), t));
    }
  }

  function NewLeaf(id: nat): Tree {
    Node(Leaf, id, Leaf)
  }

  /** An unused node without children is linked into the empty place at the end of the frames. */
  lemma NewLeafHeld(left: seq<int>, right: seq<int>, root: int, fs: seq<Frame>, id: nat)
    requires Held(left, right, root, fs, Leaf) && id < |left| == |right| && id !in ContextIds(fs)
    requires fs != [] ==> Last(fs).id < |left|
    ensures Held(RelinkLeft(left[id := -1], fs, id), RelinkRight(right[id := -1], fs, id),
                 if fs == [] then id else root, fs, NewLeaf(id))
  {
    var left0, right0 := left[id := -1], right[id := -1];
    ContextKept(left, right, left0, right0, root, fs, -1);
    assert Held(left0, right0, root, fs, Leaf);
    assert fs != [] ==> Last(fs).id in ContextIds(fs);
    RelinkedAround(left0, right0, root, fs, Leaf, id, RelinkLeft(left0, fs, id), RelinkRight(right0, fs, id));
  }
}
