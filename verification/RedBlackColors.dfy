/** Red-black trees: what colours mean, inside a subtree and in the frames around it. */
module RedBlackColors {
  import opened RedBlackShape

  datatype Color = Red | Black

  predicate RedId(color: seq<Color>, id: nat) {
    id < |color| && color[id] == Red
  }

  predicate IsRed(color: seq<Color>, t: Tree) {
    t.Node? && RedId(color, t.id)
  }

  /** Every path down has h black nodes, counting the leaf, and no red node has a red child. */
  predicate Good(color: seq<Color>, t: Tree, h: int) {
    match t
    case Leaf => h == 1
    case Node(l, id, r) =>
      var k := if RedId(color, id) then h else h - 1;
      Good(color, l, k) && Good(color, r, k) && (RedId(color, id) ==> !IsRed(color, l) && !IsRed(color, r))
  }

  /** The frames make a red-black tree with any subtree of height h that does not clash with its parent. */
  predicate ContextGood(color: seq<Color>, fs: seq<Frame>, h: int) {
    fs == [] || (
      var f := Last(fs);
      && Good(color, f.sibling, h)
      && (RedId(color, f.id) ==> !IsRed(color, f.sibling) && |fs| > 1 && !RedId(color, fs[|fs| - 2].id))
      && ContextGood(color, Front(fs), if RedId(color, f.id) then h else h + 1))
  }

  ghost predicate IsRedBlack(color: seq<Color>, t: Tree) {
    !IsRed(color, t) && exists h :: Good(color, t, h)
  }

  /** No clash between a subtree and its parent: the whole tree is red-black. */
  lemma {:induction false} PlugIsRedBlack(color: seq<Color>, fs: seq<Frame>, t: Tree, h: int)
    requires ContextGood(color, fs, h) && Good(color, t, h)
    requires IsRed(color, t) ==> fs != [] && !RedId(color, Last(fs).id)
    ensures IsRedBlack(color, Plug(fs, t))
    decreases |fs|
  {
    if fs != [] {
      var f := Last(fs);
      PlugIsRedBlack(color, Front(fs), Up(f, t), if RedId(color, f.id) then h else h + 1);
    }
  }

  lemma {:induction false} GoodKept(color: seq<Color>, color': seq<Color>, t: Tree, h: int)
    requires Good(color, t, h) && |color'| == |color|
    requires forall id :: id in Ids(t) && id < |color| ==> color'[id] == color[id]
    ensures Good(color', t, h) && IsRed(color', t) == IsRed(color, t)
    decreases t
  {
    if t.Node? {
      var k := if RedId(color, t.id) then h else h - 1;
      GoodKept(color, color', t.left, k);
      GoodKept(color, color', t.right, k);
    }
  }

  lemma {:induction false} ContextGoodKept(color: seq<Color>, color': seq<Color>, fs: seq<Frame>, h: int)
    requires ContextGood(color, fs, h) && |color'| == |color|
    requires forall id :: id in ContextIds(fs) && id < |color| ==> color'[id] == color[id]
    ensures ContextGood(color', fs, h)
    decreases |fs|
  {
    if fs != [] {
      var f := Last(fs);
      GoodKept(color, color', f.sibling, h);
      if |fs| > 1 {
        assert Last(Front(fs)) == fs[|fs| - 2];
        assert fs[|fs| - 2].id in ContextIds(Front(fs));
      }
      ContextGoodKept(color, color', Front(fs), if RedId(color, f.id) then h else h + 1);
    }
  }

  /** A red node under a red parent: there is a black grandparent. */
  predicate Clash(color: seq<Color>, fs: seq<Frame>, t: Tree, h: int) {
    && |fs| > 1 && ContextGood(color, fs, h) && Good(color, t, h)
    && IsRed(color, t) && RedId(color, Last(fs).id)
  }

  lemma ClashUnfolds(color: seq<Color>, fs: seq<Frame>, t: Tree, h: int)
    requires Clash(color, fs, t, h)
    ensures var p, g := Last(fs), Last(Front(fs));
      && Good(color, p.sibling, h) && !IsRed(color, p.sibling) && !RedId(color, g.id)
      && Good(color, g.sibling, h) && ContextGood(color, Front(Front(fs)), h + 1)
  {
    assert Last(Front(fs)) == fs[|fs| - 2];
    assert ContextGood(color, Front(fs), h);
  }

  /** The subtree of the grandparent. */
  function Grand(fs: seq<Frame>, t: Tree): Tree
    requires |fs| > 1
  {
    Up(Last(Front(fs)), Up(Last(fs), t))
  }

  /** The nodes that change colour lie in none of the subtrees beside them. */
  lemma GrandSeparate(fs: seq<Frame>, t: Tree)
    requires |fs| > 1 && Separate(Grand(fs, t))
    ensures var p, g := Last(fs), Last(Front(fs));
      && p.id != g.id && {p.id, g.id} !! Ids(t) && {p.id, g.id} !! Ids(p.sibling) && {p.id, g.id} !! Ids(g.sibling)
      && Ids(g.sibling) !! Ids(t) && Ids(g.sibling) !! Ids(p.sibling) && Separate(g.sibling)
      && {p.id, g.id} <= Ids(Grand(fs, t)) && Ids(g.sibling) <= Ids(Grand(fs, t))
  {
    var p, g := Last(fs), Last(Front(fs));
    assert Separate(Up(p, t));
    assert Ids(Up(p, t)) == Ids(t) + {p.id} + Ids(p.sibling);
    assert Ids(Grand(fs, t)) == Ids(Up(p, t)) + {g.id} + Ids(g.sibling);
  }

  predicate SameColors(color: seq<Color>, color': seq<Color>, ids: set<nat>) {
    |color'| == |color| && forall id :: id in ids && id < |color| ==> color'[id] == color[id]
  }

  lemma RecoloredTree(color: seq<Color>, color': seq<Color>, g: Frame, p: Frame, t: Tree, h: int)
    requires Good(color, t, h) && Good(color, p.sibling, h) && Good(color, g.sibling, h) && IsRed(color, g.sibling)
    requires SameColors(color, color', Ids(t)) && SameColors(color, color', Ids(p.sibling))
    requires SameColors(color, color', Ids(g.sibling.left)) && SameColors(color, color', Ids(g.sibling.right))
    requires RedId(color', g.id) && !RedId(color', p.id) && !RedId(color', g.sibling.id)
    ensures Good(color', Up(g, Up(p, t)), h + 1)
  {
    var u := g.sibling;
    GoodKept(color, color', t, h);
    GoodKept(color, color', p.sibling, h);
    GoodKept(color, color', u.left, h);
    GoodKept(color, color', u.right, h);
    assert Good(color', Up(p, t), h + 1);
    assert Good(color', u, h + 1);
  }

  /** Painting the uncle leaves the other subtrees as they are. */
  lemma RecolorKeeps(color: seq<Color>, color': seq<Color>, fs: seq<Frame>, t: Tree)
    requires |fs| > 1 && Separate(Grand(fs, t)) && ContextIds(Front(Front(fs))) !! Ids(Grand(fs, t))
    requires var u := Last(Front(fs)).sibling; var g, p := Last(Front(fs)).id, Last(fs).id;
      u.Node? && u.id < |color| && g < |color| && p < |color| && color' == color[u.id := Black][p := Black][g := Red]
    ensures SameColors(color, color', ContextIds(Front(Front(fs))))
    ensures var p, g := Last(fs), Last(Front(fs));
      && SameColors(color, color', Ids(t)) && SameColors(color, color', Ids(p.sibling))
      && SameColors(color, color', Ids(g.sibling.left)) && SameColors(color, color', Ids(g.sibling.right))
      && RedId(color', g.id) && !RedId(color', p.id) && !RedId(color', g.sibling.id)
  {
    GrandSeparate(fs, t);
    var u := Last(Front(fs)).sibling;
    assert Ids(u) == Ids(u.left) + {u.id} + Ids(u.right);
  }

  /** Parent and uncle become black, the grandparent red. */
  lemma Recolored(color: seq<Color>, color': seq<Color>, fs: seq<Frame>, t: Tree, h: int)
    requires Clash(color, fs, t, h) && Separate(Grand(fs, t)) && ContextIds(Front(Front(fs))) !! Ids(Grand(fs, t))
    requires var u := Last(Front(fs)).sibling; var g, p := Last(Front(fs)).id, Last(fs).id;
      IsRed(color, u) && g < |color| && p < |color| && color' == color[u.id := Black][p := Black][g := Red]
    ensures ContextGood(color', Front(Front(fs)), h + 1) && Good(color', Grand(fs, t), h + 1)
  {
    ClashUnfolds(color, fs, t, h);
    RecolorKeeps(color, color', fs, t);
    RecoloredTree(color, color', Last(Front(fs)), Last(fs), t, h);
    ContextGoodKept(color, color', Front(Front(fs)), h + 1);
  }

  /** The grandparent goes down on the far side, and the parent takes its place. */
  function Lifted(fs: seq<Frame>, t: Tree): Tree
    requires |fs| > 1
  {
    var p, g := Last(fs), Last(Front(fs));
    if g.onLeft then Node(t, p.id, Node(p.sibling, g.id, g.sibling)) else Node(Node(g.sibling, g.id, p.sibling), p.id, t)
  }

  lemma LiftedTree(color: seq<Color>, color': seq<Color>, fs: seq<Frame>, t: Tree, h: int)
    requires |fs| > 1
    requires var p, g := Last(fs), Last(Front(fs));
      && Good(color, t, h) && Good(color, p.sibling, h) && Good(color, g.sibling, h)
      && !IsRed(color, p.sibling) && !IsRed(color, g.sibling)
      && SameColors(color, color', Ids(t)) && SameColors(color, color', Ids(p.sibling)) && SameColors(color, color', Ids(g.sibling))
      && RedId(color', g.id) && !RedId(color', p.id)
    ensures Good(color', Lifted(fs, t), h + 1) && !IsRed(color', Lifted(fs, t))
  {
    var p, g := Last(fs), Last(Front(fs));
    GoodKept(color, color', t, h);
    GoodKept(color, color', p.sibling, h);
    GoodKept(color, color', g.sibling, h);
    assert Good(color', if g.onLeft then Lifted(fs, t).right else Lifted(fs, t).left, h);
  }

  lemma LiftKeeps(color: seq<Color>, color': seq<Color>, fs: seq<Frame>, t: Tree)
    requires |fs| > 1 && Separate(Grand(fs, t)) && ContextIds(Front(Front(fs))) !! Ids(Grand(fs, t))
    requires var g, p := Last(Front(fs)).id, Last(fs).id; g < |color| && p < |color| && color' == color[p := Black][g := Red]
    ensures SameColors(color, color', ContextIds(Front(Front(fs))))
    ensures var p, g := Last(fs), Last(Front(fs));
      && SameColors(color, color', Ids(t)) && SameColors(color, color', Ids(p.sibling)) && SameColors(color, color', Ids(g.sibling))
      && RedId(color', g.id) && !RedId(color', p.id)
  {
    GrandSeparate(fs, t);
  }

  /** With a black uncle and the two red nodes on one side, lifting a black parent over a red grandparent ends the clash. */
  lemma LiftedIsGood(color: seq<Color>, color': seq<Color>, fs: seq<Frame>, t: Tree, h: int)
    requires Clash(color, fs, t, h) && Separate(Grand(fs, t)) && ContextIds(Front(Front(fs))) !! Ids(Grand(fs, t))
    requires !IsRed(color, Last(Front(fs)).sibling)
    requires var g, p := Last(Front(fs)).id, Last(fs).id; g < |color| && p < |color| && color' == color[p := Black][g := Red]
    ensures ContextGood(color', Front(Front(fs)), h + 1) && Good(color', Lifted(fs, t), h + 1) && !IsRed(color', Lifted(fs, t))
  {
    ClashUnfolds(color, fs, t, h);
    LiftKeeps(color, color', fs, t);
    LiftedTree(color, color', fs, t, h);
    ContextGoodKept(color, color', Front(Front(fs)), h + 1);
  }

  /** The frame of the node and the subtree of the parent after the two change places. */
  function LinedFrame(fs: seq<Frame>, t: Tree): Frame
    requires |fs| > 1 && t.Node?
  {
    if Last(Front(fs)).onLeft then Frame(t.id, true, t.right) else Frame(t.id, false, t.left)
  }

  function LinedTree(fs: seq<Frame>, t: Tree): Tree
    requires |fs| > 1 && t.Node?
  {
    if Last(Front(fs)).onLeft then Node(Last(fs).sibling, Last(fs).id, t.left)
    else Node(t.right, Last(fs).id, Last(fs).sibling)
  }

  /** Making the two red nodes lined keeps the clash, now between the other two. */
  lemma LinedClash(color: seq<Color>, fs: seq<Frame>, t: Tree, h: int)
    requires Clash(color, fs, t, h) && Last(fs).onLeft != Last(Front(fs)).onLeft
    ensures Clash(color, Front(fs) + [LinedFrame(fs, t)], LinedTree(fs, t), h)
  {
    ClashUnfolds(color, fs, t, h);
    var lined := Front(fs) + [LinedFrame(fs, t)];
    assert Front(lined) == Front(fs) && Last(lined) == LinedFrame(fs, t);
    assert lined[|lined| - 2] == Last(Front(fs));
    assert ContextGood(color, Front(fs), h);
  }

  /** The root can always be painted black. */
  lemma BlackRoot(color: seq<Color>, t: Tree, h: int)
    requires t.Node? && t.id < |color| && Good(color, t, h) && Separate(t)
    ensures IsRedBlack(color[t.id := Black], t)
  {
    var k := if RedId(color, t.id) then h else h - 1;
    GoodKept(color, color[t.id := Black], t.left, k);
    GoodKept(color, color[t.id := Black], t.right, k);
    assert Good(color[t.id := Black], t, k + 1);
  }

  lemma LiftKeepsOrder(fs: seq<Frame>, t: Tree)
    requires |fs| > 1 && Last(fs).onLeft == Last(Front(fs)).onLeft
    ensures Inorder(Plug(Front(Front(fs)), Lifted(fs, t))) == Inorder(Plug(fs, t))
    ensures Lifted(fs, t) == if Last(fs).onLeft then RotatedRight(Grand(fs, t)) else RotatedLeft(Grand(fs, t))
  {
    PlugInorder(Front(Front(fs)), Lifted(fs, t));
    PlugInorder(Front(Front(fs)), Grand(fs, t));
    if Last(fs).onLeft {
      RightRotationKeepsOrder(Grand(fs, t));
    } else {
      LeftRotationKeepsOrder(Grand(fs, t));
    }
  }

  lemma LinedKeepsOrder(fs: seq<Frame>, t: Tree)
    requires |fs| > 1 && t.Node? && Last(fs).onLeft != Last(Front(fs)).onLeft
    ensures Inorder(Plug(Front(fs) + [LinedFrame(fs, t)], LinedTree(fs, t))) == Inorder(Plug(fs, t))
    ensures Up(LinedFrame(fs, t), LinedTree(fs, t))
         == if Last(fs).onLeft then RotatedRight(Up(Last(fs), t)) else RotatedLeft(Up(Last(fs), t))
  {
    var lined, lower := Front(fs) + [LinedFrame(fs, t)], Up(Last(fs), t);
    assert Front(lined) == Front(fs) && Last(lined) == LinedFrame(fs, t);
    PlugInorder(Front(fs), Up(LinedFrame(fs, t), LinedTree(fs, t)));
    PlugInorder(Front(fs), lower);
    if Last(fs).onLeft {
      RightRotationKeepsOrder(lower);
    } else {
      LeftRotationKeepsOrder(lower);
    }
  }
}
