/** The order of values in a red-black tree, the way down to a new leaf, and the length of paths. */
module RedBlackOrder {
  import opened Powers
  import opened RedBlackColors
  import opened RedBlackShape
  import opened SortedSequences

  // ---------- Values in order ----------

  function ValueAt(value: seq<int>, id: nat): int {
    if id < |value| then value[id] else 0
  }

  function ValuesOf(value: seq<int>, ids: seq<nat>): (vs: seq<int>)
    ensures |vs| == |ids| && forall i :: 0 <= i < |ids| ==> vs[i] == ValueAt(value, ids[i])
  {
    seq(|ids|, i requires 0 <= i < |ids| => ValueAt(value, ids[i]))
  }

  predicate SortedIds(value: seq<int>, ids: seq<nat>) {
    Sorted(ValuesOf(value, ids))
  }

  /** The place of a new value is behind all that are not greater. */
  function Inserted(vs: seq<int>, v: int): seq<int> {
    if vs == [] || v < vs[0] then [v] + vs else [vs[0]] + Inserted(vs[1..], v)
  }

  lemma {:induction false} InsertedBetween(a: seq<int>, b: seq<int>, v: int)
    requires forall i :: 0 <= i < |a| ==> a[i] <= v
    requires forall i :: 0 <= i < |b| ==> v < b[i]
    ensures Inserted(a + b, v) == a + [v] + b
    decreases |a|
  {
    if a == [] {
      assert a + b == b;
    } else {
      InsertedBetween(a[1..], b, v);
      assert (a + b)[1..] == a[1..] + b;
    }
  }

  lemma {:induction false} InsertedAdds(vs: seq<int>, v: int, x: int)
    ensures multiset(Inserted(vs, v))[x] == multiset(vs)[x] + (if x == v then 1 else 0)
    decreases |vs|
  {
    if vs != [] && vs[0] <= v {
      InsertedAdds(vs[1..], v, x);
      assert vs == [vs[0]] + vs[1..];
    }
  }

  /** What a series of insertions leaves. */
  function AllInserted(vs: seq<int>): seq<int> {
    if vs == [] then [] else Inserted(AllInserted(vs[..|vs| - 1]), vs[|vs| - 1])
  }

  lemma {:induction false} AllInsertedIsSorted(vs: seq<int>)
    ensures Sorted(AllInserted(vs))
    decreases |vs|
  {
    if vs != [] {
      AllInsertedIsSorted(vs[..|vs| - 1]);
      SortedInserted(AllInserted(vs[..|vs| - 1]), vs[|vs| - 1]);
    }
  }

  lemma {:induction false} AllInsertedCounts(vs: seq<int>, x: int)
    ensures multiset(AllInserted(vs))[x] == multiset(vs)[x]
    decreases |vs|
  {
    if vs != [] {
      AllInsertedCounts(vs[..|vs| - 1], x);
      InsertedAdds(AllInserted(vs[..|vs| - 1]), vs[|vs| - 1], x);
      assert vs == vs[..|vs| - 1] + [vs[|vs| - 1]];
    }
  }

  /** A series of insertions sorts the values and loses none. */
  lemma AllInsertedSorts(vs: seq<int>)
    ensures Sorted(AllInserted(vs)) && multiset(AllInserted(vs)) == multiset(vs)
  {
    AllInsertedIsSorted(vs);
    forall x
      ensures multiset(AllInserted(vs))[x] == multiset(vs)[x]
    {
      AllInsertedCounts(vs, x);
    }
  }

  lemma SortedParts(value: seq<int>, a: seq<nat>, b: seq<nat>)
    requires SortedIds(value, a + b)
    ensures SortedIds(value, a) && SortedIds(value, b)
    ensures forall i, j :: 0 <= i < |a| && 0 <= j < |b| ==> ValueAt(value, a[i]) <= ValueAt(value, b[j])
  {
    var vs := ValuesOf(value, a + b);
    forall i, j | 0 <= i < j < |a|
      ensures ValuesOf(value, a)[i] <= ValuesOf(value, a)[j]
    {
      assert vs[i] <= vs[j];
    }
    forall i, j | 0 <= i < j < |b|
      ensures ValuesOf(value, b)[i] <= ValuesOf(value, b)[j]
    {
      assert vs[|a| + i] <= vs[|a| + j];
    }
    forall i, j | 0 <= i < |a| && 0 <= j < |b|
      ensures ValueAt(value, a[i]) <= ValueAt(value, b[j])
    {
      assert vs[i] <= vs[|a| + j];
    }
  }

  lemma {:induction false} SortedInserted(vs: seq<int>, v: int)
    requires Sorted(vs)
    ensures Sorted(Inserted(vs, v))
    ensures Inserted(vs, v)[0] == if vs != [] && vs[0] <= v then vs[0] else v
  {
    if vs != [] && vs[0] <= v {
      SortedInserted(vs[1..], v);
      SortedWithHead(vs[0], Inserted(vs[1..], v));
    }
  }

  // ---------- The way down ----------

  /** Everything before the frames' hole is at most v, everything after it greater. */
  predicate Around(value: seq<int>, fs: seq<Frame>, v: int) {
    && (forall i :: 0 <= i < |Before(fs)| ==> ValueAt(value, Before(fs)[i]) <= v)
    && (forall i :: 0 <= i < |After(fs)| ==> v < ValueAt(value, After(fs)[i]))
  }

  /** The frame that is added when the search goes to one child of a node. */
  function Step(t: Tree, toLeft: bool): Frame
    requires t.Node?
  {
    Frame(t.id, toLeft, if toLeft then t.right else t.left)
  }

  function Child(t: Tree, toLeft: bool): Tree
    requires t.Node?
  {
    if toLeft then t.left else t.right
  }

  lemma StepDown(fs: seq<Frame>, t: Tree, toLeft: bool)
    requires t.Node?
    ensures Up(Step(t, toLeft), Child(t, toLeft)) == t
    ensures Plug(fs + [Step(t, toLeft)], Child(t, toLeft)) == Plug(fs, t)
  {
    var longer := fs + [Step(t, toLeft)];
    assert Front(longer) == fs && Last(longer) == Step(t, toLeft);
  }

  lemma StepAround(value: seq<int>, fs: seq<Frame>, t: Tree, v: int)
    requires t.Node? && Around(value, fs, v) && SortedIds(value, Inorder(t))
    ensures var toLeft := v < ValueAt(value, t.id);
      Around(value, fs + [Step(t, toLeft)], v) && SortedIds(value, Inorder(Child(t, toLeft)))
  {
    var toLeft := v < ValueAt(value, t.id);
    var longer := fs + [Step(t, toLeft)];
    assert Front(longer) == fs && Last(longer) == Step(t, toLeft);
    SortedParts(value, Inorder(t.left) + [t.id], Inorder(t.right));
    SortedParts(value, Inorder(t.left), [t.id]);
    if toLeft {
      forall i | 0 <= i < |Inorder(t.right)|
        ensures v < ValueAt(value, Inorder(t.right)[i])
      {
        assert (Inorder(t.left) + [t.id])[|Inorder(t.left)|] == t.id;
      }
    } else {
      forall i | 0 <= i < |Inorder(t.left)|
        ensures ValueAt(value, Inorder(t.left)[i]) <= v
      {
        assert [t.id][0] == t.id;
      }
    }
  }

  lemma StepGood(color: seq<Color>, fs: seq<Frame>, t: Tree, h: int, toLeft: bool) returns (k: int)
    requires t.Node? && ContextGood(color, fs, h) && Good(color, t, h)
    requires IsRed(color, t) ==> fs != [] && !RedId(color, Last(fs).id)
    ensures ContextGood(color, fs + [Step(t, toLeft)], k) && Good(color, Child(t, toLeft), k)
    ensures IsRed(color, Child(t, toLeft)) ==> !RedId(color, t.id)
  {
    var longer := fs + [Step(t, toLeft)];
    assert Front(longer) == fs && Last(longer) == Step(t, toLeft);
    k := if RedId(color, t.id) then h else h - 1;
  }

  /** The side of the last step can be read off the value of its node. */
  lemma LastSide(value: seq<int>, fs: seq<Frame>, v: int)
    requires fs != [] && Around(value, fs, v)
    ensures Last(fs).onLeft <==> v < ValueAt(value, Last(fs).id)
  {
    var f := Last(fs);
    if f.onLeft {
      assert After(fs)[0] == f.id;
    } else {
      assert Before(fs)[|Before(fs)| - 1] == f.id;
    }
  }

  /** A red leaf at the end of the way down clashes at most with its parent. */
  lemma NewLeafFits(color: seq<Color>, color': seq<Color>, fs: seq<Frame>, id: nat)
    requires ContextGood(color, fs, 1) && id < |color| && id !in ContextIds(fs) && color' == color[id := Red]
    ensures ContextGood(color', fs, 1) && Good(color', NewLeaf(id), 1)
  {
    ContextGoodKept(color, color', fs, 1);
  }

  lemma ValuesConcat(value: seq<int>, a: seq<nat>, b: seq<nat>)
    ensures ValuesOf(value, a + b) == ValuesOf(value, a) + ValuesOf(value, b)
  {
  }

  lemma ValuesKept(value: seq<int>, ids: seq<nat>, id: nat, v: int)
    requires id < |value| && id !in ids
    ensures ValuesOf(value[id := v], ids) == ValuesOf(value, ids)
  {
  }

  lemma ValuesWithNew(value: seq<int>, a: seq<nat>, b: seq<nat>, id: nat, v: int)
    requires id < |value| && id !in a && id !in b
    ensures ValuesOf(value[id := v], a + [id] + b) == ValuesOf(value, a) + [v] + ValuesOf(value, b)
  {
    ValuesConcat(value[id := v], a + [id], b);
    ValuesConcat(value[id := v], a, [id]);
    ValuesKept(value, a, id, v);
    ValuesKept(value, b, id, v);
    assert ValuesOf(value[id := v], [id]) == [v];
  }

  /** The values of the tree with the new leaf are the old ones with the new value in its place. */
  lemma NewLeafValues(value: seq<int>, fs: seq<Frame>, id: nat, v: int)
    requires Around(value, fs, v) && id < |value| && id !in ContextIds(fs)
    ensures ValuesOf(value[id := v], Inorder(Plug(fs, NewLeaf(id)))) == Inserted(ValuesOf(value, Inorder(Plug(fs, Leaf))), v)
  {
    PlugInorder(fs, NewLeaf(id));
    PlugInorder(fs, Leaf);
    ContextInorder(fs);
    var a, b := Before(fs), After(fs);
    assert Inorder(NewLeaf(id)) == [id] && a + [] + b == a + b;
    InsertedBetween(ValuesOf(value, a), ValuesOf(value, b), v);
    ValuesConcat(value, a, b);
    ValuesWithNew(value, a, b, id, v);
  }

  lemma Insertion(value: seq<int>, fs: seq<Frame>, tree: Tree, id: nat, v: int)
    requires Plug(fs, Leaf) == tree && Around(value, fs, v) && id < |value| && id !in Ids(tree)
    requires Sorted(ValuesOf(value, Inorder(tree)))
    ensures id !in ContextIds(fs) && Ids(Plug(fs, NewLeaf(id))) == Ids(tree) + {id}
    ensures ValuesOf(value[id := v], Inorder(Plug(fs, NewLeaf(id)))) == Inserted(ValuesOf(value, Inorder(tree)), v)
    ensures Sorted(Inserted(ValuesOf(value, Inorder(tree)), v))
  {
    PlugIds(fs, Leaf);
    PlugIds(fs, NewLeaf(id));
    NewLeafValues(value, fs, id, v);
    SortedInserted(ValuesOf(value, Inorder(tree)), v);
  }

  lemma {:induction false} InorderIds(t: Tree)
    ensures forall id :: id in Inorder(t) <==> id in Ids(t)
  {
    if t.Node? {
      InorderIds(t.left);
      InorderIds(t.right);
    }
  }

  lemma SameOrderSameIds(t: Tree, u: Tree)
    requires Inorder(t) == Inorder(u)
    ensures Ids(t) == Ids(u)
  {
    InorderIds(t);
    InorderIds(u);
  }

  lemma {:induction false} ContextInorder(fs: seq<Frame>)
    ensures forall i :: 0 <= i < |Before(fs)| ==> Before(fs)[i] in ContextIds(fs)
    ensures forall i :: 0 <= i < |After(fs)| ==> After(fs)[i] in ContextIds(fs)
    decreases |fs|
  {
    if fs != [] {
      ContextInorder(Front(fs));
      InorderIds(Last(fs).sibling);
    }
  }

  // ---------- Paths ----------

  /** Left is true; the path ends at a leaf. */
  predicate IsPath(t: Tree, path: seq<bool>) {
    if t.Leaf? then path == [] else path != [] && IsPath(Child(t, path[0]), path[1..])
  }

  /** The black nodes on a path, with the leaf. */
  function BlackOnPath(color: seq<Color>, t: Tree, path: seq<bool>): nat
    requires IsPath(t, path)
  {
    if t.Leaf? then 1 else (if RedId(color, t.id) then 0 else 1) + BlackOnPath(color, Child(t, path[0]), path[1..])
  }

  lemma {:induction false} EveryPathIsBlack(color: seq<Color>, t: Tree, h: int, path: seq<bool>)
    requires Good(color, t, h) && IsPath(t, path)
    ensures BlackOnPath(color, t, path) == h
    ensures |path| <= 2 * (h - 1) + (if IsRed(color, t) then 1 else 0)
    decreases t
  {
    if t.Node? {
      EveryPathIsBlack(color, Child(t, path[0]), if RedId(color, t.id) then h else h - 1, path[1..]);
    }
  }

  lemma {:induction false} ManyNodes(color: seq<Color>, t: Tree, h: int)
    requires Good(color, t, h)
    ensures h >= 1 && |Inorder(t)| + 1 >= Power(2, h - 1)
    decreases t
  {
    if t.Node? {
      var k := if RedId(color, t.id) then h else h - 1;
      ManyNodes(color, t.left, k);
      ManyNodes(color, t.right, k);
    }
  }

  lemma {:induction false} NotManyMore(color: seq<Color>, t: Tree, h: int)
    requires Good(color, t, h)
    ensures h >= 1 && |Inorder(t)| + 1 <= (if IsRed(color, t) then 2 else 1) * Power(4, h - 1)
    decreases t
  {
    if t.Node? {
      var k := if RedId(color, t.id) then h else h - 1;
      NotManyMore(color, t.left, k);
      NotManyMore(color, t.right, k);
    }
  }

  /** No path is longer than twice the logarithm of the number of nodes. */
  lemma PathsAreShort(color: seq<Color>, t: Tree, path: seq<bool>)
    requires IsRedBlack(color, t) && IsPath(t, path)
    ensures Power(2, |path| / 2) <= |Inorder(t)| + 1
  {
    var h :| Good(color, t, h);
    EveryPathIsBlack(color, t, h, path);
    ManyNodes(color, t, h);
    PowerMonotone(2, |path| / 2, h - 1);
  }
}
