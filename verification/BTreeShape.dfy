/** The trees that the nodes of a B-tree in memory make up. */
module BTreeShape {
  import opened Powers
  import opened SortedSequences

  /** A node by its place in memory, its keys and its children; a leaf has no children. */
  datatype Tree = Tree(id: nat, keys: seq<int>, kids: seq<Tree>)

  // ---------- Keys in order ----------

  function Inorder(t: Tree): seq<int>
    decreases t
  {
    if |t.kids| == |t.keys| + 1 then Interleaved(t.keys, t.kids) else t.keys
  }

  function Interleaved(keys: seq<int>, kids: seq<Tree>): seq<int>
    requires |kids| == |keys| + 1
    decreases kids
  {
    if keys == [] then Inorder(kids[0]) else Inorder(kids[0]) + [keys[0]] + Interleaved(keys[1..], kids[1..])
  }

  lemma {:induction false} InterleavedSplit(k1: seq<int>, c1: seq<Tree>, m: int, k2: seq<int>, c2: seq<Tree>)
    requires |c1| == |k1| + 1 && |c2| == |k2| + 1
    ensures Interleaved(k1 + [m] + k2, c1 + c2) == Interleaved(k1, c1) + [m] + Interleaved(k2, c2)
    decreases |k1|
  {
    var keys, kids := k1 + [m] + k2, c1 + c2;
    if k1 == [] {
      assert keys[1..] == k2 && kids[1..] == c2;
    } else {
      InterleavedSplit(k1[1..], c1[1..], m, k2, c2);
      assert keys[1..] == k1[1..] + [m] + k2 && kids[1..] == c1[1..] + c2;
      var a, b, c := Inorder(c1[0]), Interleaved(k1[1..], c1[1..]), Interleaved(k2, c2);
      assert a + [k1[0]] + (b + [m] + c) == (a + [k1[0]] + b) + [m] + c;
    }
  }

  /** The keys before a child, those of the child, and those behind it. */
  function KeysBefore(t: Tree, i: nat): seq<int>
    requires |t.kids| == |t.keys| + 1 && i < |t.kids|
  {
    if i == 0 then [] else Interleaved(t.keys[..i - 1], t.kids[..i]) + [t.keys[i - 1]]
  }

  function KeysBehind(t: Tree, i: nat): seq<int>
    requires |t.kids| == |t.keys| + 1 && i < |t.kids|
  {
    if i == |t.keys| then [] else [t.keys[i]] + Interleaved(t.keys[i + 1..], t.kids[i + 1..])
  }

  lemma InorderAround(t: Tree, i: nat)
    requires |t.kids| == |t.keys| + 1 && i < |t.kids|
    ensures Inorder(t) == KeysBefore(t, i) + Inorder(t.kids[i]) + KeysBehind(t, i)
  {
    var n := |t.keys|;
    if i > 0 {
      assert t.keys == t.keys[..i - 1] + [t.keys[i - 1]] + t.keys[i..] && t.kids == t.kids[..i] + t.kids[i..];
      InterleavedSplit(t.keys[..i - 1], t.kids[..i], t.keys[i - 1], t.keys[i..], t.kids[i..]);
    } else {
      assert t.keys[i..] == t.keys && t.kids[i..] == t.kids;
    }
    RestAround(t, i);
  }

  lemma RestAround(t: Tree, i: nat)
    requires |t.kids| == |t.keys| + 1 && i < |t.kids|
    ensures Interleaved(t.keys[i..], t.kids[i..]) == Inorder(t.kids[i]) + KeysBehind(t, i)
  {
    var keys, kids := t.keys[i..], t.kids[i..];
    if i < |t.keys| {
      assert keys[1..] == t.keys[i + 1..] && kids[1..] == t.kids[i + 1..];
    }
  }

  // ---------- Inserting into a sorted sequence ----------

  /** The place of a new value is before all that are not smaller. */
  function Inserted(vs: seq<int>, v: int): seq<int> {
    if vs == [] || v <= vs[0] then [v] + vs else [vs[0]] + Inserted(vs[1..], v)
  }

  predicate AllBelow(vs: seq<int>, v: int) {
    forall i :: 0 <= i < |vs| ==> vs[i] < v
  }

  predicate NoneBelow(vs: seq<int>, v: int) {
    forall i :: 0 <= i < |vs| ==> v <= vs[i]
  }

  lemma {:induction false} InsertedBehind(a: seq<int>, b: seq<int>, v: int)
    requires AllBelow(a, v)
    ensures Inserted(a + b, v) == a + Inserted(b, v)
    decreases |a|
  {
    if a == [] {
      assert a + b == b;
    } else {
      InsertedBehind(a[1..], b, v);
      assert (a + b)[1..] == a[1..] + b;
    }
  }

  lemma {:induction false} InsertedBefore(a: seq<int>, b: seq<int>, v: int)
    requires NoneBelow(b, v)
    ensures Inserted(a + b, v) == Inserted(a, v) + b
    decreases |a|
  {
    if a == [] {
      assert a + b == b;
      assert Inserted(b, v) == [v] + b;
    } else {
      assert (a + b)[0] == a[0];
      if a[0] < v {
        InsertedBefore(a[1..], b, v);
        assert (a + b)[1..] == a[1..] + b;
      } else {
        assert Inserted(a + b, v) == [v] + (a + b);
      }
    }
  }

  lemma InsertedInside(a: seq<int>, x: seq<int>, b: seq<int>, v: int)
    requires AllBelow(a, v) && NoneBelow(b, v)
    ensures Inserted(a + x + b, v) == a + Inserted(x, v) + b
  {
    InsertedBefore(a + x, b, v);
    InsertedBehind(a, x, v);
  }

  lemma {:induction false} SortedInserted(vs: seq<int>, v: int)
    requires Sorted(vs)
    ensures Sorted(Inserted(vs, v))
    ensures Inserted(vs, v)[0] == if vs != [] && vs[0] < v then vs[0] else v
    decreases |vs|
  {
    if vs != [] && vs[0] < v {
      SortedInserted(vs[1..], v);
      SortedWithHead(vs[0], Inserted(vs[1..], v));
    }
  }

  lemma {:induction false} InsertedAdds(vs: seq<int>, v: int, x: int)
    ensures multiset(Inserted(vs, v))[x] == multiset(vs)[x] + (if x == v then 1 else 0)
    decreases |vs|
  {
    if vs != [] && vs[0] < v {
      InsertedAdds(vs[1..], v, x);
      assert vs == [vs[0]] + vs[1..];
    }
  }

  // ---------- Shape ----------

  /** All leaves are h levels down, and below the root every node has at least t - 1 keys, at most 2t - 1. */
  predicate HasShape(tree: Tree, t: nat, h: nat)
    decreases h
  {
    && |tree.keys| <= 2 * t - 1
    && if h <= 1 then h == 1 && tree.kids == [] else
         && |tree.kids| == |tree.keys| + 1
         && forall i :: 0 <= i < |tree.kids| ==> HasShape(tree.kids[i], t, h - 1) && |tree.kids[i].keys| >= t - 1
  }

  /** Half of a full node, from its key number from on. */
  function Part(tree: Tree, id: nat, from: nat, to: nat): Tree
    requires from <= to <= |tree.keys| && (tree.kids != [] ==> |tree.kids| == |tree.keys| + 1)
  {
    Tree(id, tree.keys[from..to], if tree.kids == [] then [] else tree.kids[from..to + 1])
  }

  lemma PartHasShape(tree: Tree, id: nat, from: nat, to: nat, t: nat, h: nat)
    requires HasShape(tree, t, h) && from <= to <= |tree.keys|
    ensures HasShape(Part(tree, id, from, to), t, h)
  {
    if h > 1 {
      var part := Part(tree, id, from, to);
      forall i | 0 <= i < |part.kids|
        ensures HasShape(part.kids[i], t, h - 1) && |part.kids[i].keys| >= t - 1
      {
        assert part.kids[i] == tree.kids[from + i];
      }
    }
  }

  /** The two parts of a node and the key between them hold its keys in order. */
  lemma PartsInorder(tree: Tree, m: nat, id: nat)
    requires m < |tree.keys| && (tree.kids != [] ==> |tree.kids| == |tree.keys| + 1)
    ensures Inorder(tree)
         == Inorder(Part(tree, tree.id, 0, m)) + [tree.keys[m]] + Inorder(Part(tree, id, m + 1, |tree.keys|))
  {
    var k, n := tree.keys, |tree.keys|;
    assert k == k[0..m] + [k[m]] + k[m + 1..n];
    if tree.kids != [] {
      assert tree.kids == tree.kids[0..m + 1] + tree.kids[m + 1..n + 1];
      InterleavedSplit(k[0..m], tree.kids[0..m + 1], k[m], k[m + 1..n], tree.kids[m + 1..n + 1]);
    }
  }

  // ---------- Splitting a child ----------

  /** A child gives way to two, with a key between them. */
  function SplitAt(tree: Tree, i: nat, left: Tree, m: int, right: Tree): Tree
    requires |tree.kids| == |tree.keys| + 1 && i < |tree.kids|
  {
    Tree(tree.id, tree.keys[..i] + [m] + tree.keys[i..], tree.kids[..i] + [left, right] + tree.kids[i + 1..])
  }

  lemma SplitAtBefore(tree: Tree, i: nat, left: Tree, m: int, right: Tree)
    requires |tree.kids| == |tree.keys| + 1 && i < |tree.kids|
    ensures KeysBefore(SplitAt(tree, i, left, m, right), i) == KeysBefore(tree, i)
  {
    var split := SplitAt(tree, i, left, m, right);
    if i > 0 {
      assert split.keys[..i - 1] == tree.keys[..i - 1] && split.kids[..i] == tree.kids[..i];
    }
  }

  lemma SplitAtBehind(tree: Tree, i: nat, left: Tree, m: int, right: Tree)
    requires |tree.kids| == |tree.keys| + 1 && i < |tree.kids|
    ensures KeysBehind(SplitAt(tree, i, left, m, right), i) == [m] + (Inorder(right) + KeysBehind(tree, i))
  {
    var split := SplitAt(tree, i, left, m, right);
    var keys, kids := split.keys[i + 1..], split.kids[i + 1..];
    assert keys == tree.keys[i..] && kids == [right] + tree.kids[i + 1..];
    if i < |tree.keys| {
      assert keys[1..] == tree.keys[i + 1..] && kids[1..] == tree.kids[i + 1..];
    }
  }

  lemma SplitAtInorder(tree: Tree, i: nat, left: Tree, m: int, right: Tree)
    requires |tree.kids| == |tree.keys| + 1 && i < |tree.kids|
    requires Inorder(tree.kids[i]) == Inorder(left) + [m] + Inorder(right)
    ensures Inorder(SplitAt(tree, i, left, m, right)) == Inorder(tree)
  {
    InorderAround(tree, i);
    InorderAround(SplitAt(tree, i, left, m, right), i);
    SplitAtBefore(tree, i, left, m, right);
    SplitAtBehind(tree, i, left, m, right);
    Regrouped(KeysBefore(tree, i), Inorder(left), m, Inorder(right), KeysBehind(tree, i));
  }

  lemma Regrouped(a: seq<int>, x: seq<int>, m: int, y: seq<int>, b: seq<int>)
    ensures a + (x + [m] + y) + b == a + x + ([m] + (y + b))
  {
  }

  /** The middle key of a full child moves up between its two halves. */
  function SplitKid(tree: Tree, i: nat, t: nat, id: nat): Tree
    requires |tree.kids| == |tree.keys| + 1 && i < |tree.kids| && t > 0 && |tree.kids[i].keys| == 2 * t - 1
    requires tree.kids[i].kids != [] ==> |tree.kids[i].kids| == 2 * t
  {
    var kid := tree.kids[i];
    SplitAt(tree, i, Part(kid, kid.id, 0, t - 1), kid.keys[t - 1], Part(kid, id, t, 2 * t - 1))
  }

  lemma SplitKidInorder(tree: Tree, i: nat, t: nat, id: nat)
    requires |tree.kids| == |tree.keys| + 1 && i < |tree.kids| && t > 0 && |tree.kids[i].keys| == 2 * t - 1
    requires tree.kids[i].kids != [] ==> |tree.kids[i].kids| == 2 * t
    ensures Inorder(SplitKid(tree, i, t, id)) == Inorder(tree)
  {
    var kid := tree.kids[i];
    PartsInorder(kid, t - 1, id);
    SplitAtInorder(tree, i, Part(kid, kid.id, 0, t - 1), kid.keys[t - 1], Part(kid, id, t, 2 * t - 1));
  }

  lemma SplitAtShape(tree: Tree, i: nat, left: Tree, m: int, right: Tree, t: nat, h: nat)
    requires h > 1 && HasShape(tree, t, h) && |tree.keys| < 2 * t - 1 && i < |tree.kids|
    requires HasShape(left, t, h - 1) && |left.keys| >= t - 1 && HasShape(right, t, h - 1) && |right.keys| >= t - 1
    ensures HasShape(SplitAt(tree, i, left, m, right), t, h)
  {
    var split := SplitAt(tree, i, left, m, right);
    forall j | 0 <= j < |split.kids|
      ensures HasShape(split.kids[j], t, h - 1) && |split.kids[j].keys| >= t - 1
    {
      if j < i {
        assert split.kids[j] == tree.kids[j];
      } else if j > i + 1 {
        assert split.kids[j] == tree.kids[j - 1];
      }
    }
  }

  lemma KidHasShape(tree: Tree, i: nat, t: nat, h: nat)
    requires h > 1 && HasShape(tree, t, h) && i < |tree.kids|
    ensures HasShape(tree.kids[i], t, h - 1) && |tree.kids[i].keys| >= t - 1
    ensures tree.kids[i].kids != [] ==> |tree.kids[i].kids| == |tree.kids[i].keys| + 1
  {
  }

  /** Both halves of a full node are just full enough. */
  lemma HalvesHaveShape(tree: Tree, t: nat, id: nat, h: nat)
    requires t >= 2 && HasShape(tree, t, h) && |tree.keys| == 2 * t - 1
    ensures HasShape(Part(tree, tree.id, 0, t - 1), t, h) && |Part(tree, tree.id, 0, t - 1).keys| == t - 1
    ensures HasShape(Part(tree, id, t, 2 * t - 1), t, h) && |Part(tree, id, t, 2 * t - 1).keys| == t - 1
  {
    PartHasShape(tree, tree.id, 0, t - 1, t, h);
    PartHasShape(tree, id, t, 2 * t - 1, t, h);
  }

  lemma SplitKidShape(tree: Tree, i: nat, t: nat, id: nat, h: nat)
    requires t >= 2 && h > 1 && HasShape(tree, t, h) && |tree.keys| < 2 * t - 1
    requires i < |tree.kids| && |tree.kids[i].keys| == 2 * t - 1
    ensures tree.kids[i].kids != [] ==> |tree.kids[i].kids| == 2 * t
    ensures HasShape(SplitKid(tree, i, t, id), t, h)
  {
    var kid := tree.kids[i];
    KidHasShape(tree, i, t, h);
    HalvesHaveShape(kid, t, id, h - 1);
    SplitAtShape(tree, i, Part(kid, kid.id, 0, t - 1), kid.keys[t - 1], Part(kid, id, t, 2 * t - 1), t, h);
  }

  // ---------- Replacing a child ----------

  function WithKid(tree: Tree, i: nat, kid: Tree): Tree
    requires i < |tree.kids|
  {
    tree.(kids := tree.kids[i := kid])
  }

  /** Inserting into the child between the keys around the value is inserting into the tree. */
  lemma WithKidInorder(tree: Tree, i: nat, kid: Tree, v: int)
    requires |tree.kids| == |tree.keys| + 1 && i < |tree.kids| && Sorted(Inorder(tree))
    requires Inorder(kid) == Inserted(Inorder(tree.kids[i]), v)
    requires (i > 0 ==> tree.keys[i - 1] < v) && (i < |tree.keys| ==> v <= tree.keys[i])
    ensures Inorder(WithKid(tree, i, kid)) == Inserted(Inorder(tree), v)
  {
    var u := WithKid(tree, i, kid);
    InorderAround(tree, i);
    InorderAround(u, i);
    assert u.kids[..i] == tree.kids[..i] && u.kids[i + 1..] == tree.kids[i + 1..];
    var a, x, b := KeysBefore(tree, i), Inorder(tree.kids[i]), KeysBehind(tree, i);
    SortedAround(a, x, b, v);
    InsertedInside(a, x, b, v);
  }

  lemma SortedAround(a: seq<int>, x: seq<int>, b: seq<int>, v: int)
    requires Sorted(a + x + b) && (a != [] ==> a[|a| - 1] < v) && (b != [] ==> v <= b[0])
    ensures AllBelow(a, v) && NoneBelow(b, v)
  {
    var s := a + x + b;
    forall i | 0 <= i < |a|
      ensures a[i] < v
    {
      assert i < |a| - 1 ==> s[i] <= s[|a| - 1];
    }
    forall i | 0 <= i < |b|
      ensures v <= b[i]
    {
      assert s[|a| + |x|] == b[0] && s[|a| + |x| + i] == b[i];
    }
  }

  lemma KidIsSorted(tree: Tree, i: nat)
    requires |tree.kids| == |tree.keys| + 1 && i < |tree.kids| && Sorted(Inorder(tree))
    ensures Sorted(Inorder(tree.kids[i]))
  {
    InorderAround(tree, i);
    var a, x := KeysBefore(tree, i), Inorder(tree.kids[i]);
    forall j, k | 0 <= j < k < |x|
      ensures x[j] <= x[k]
    {
      assert Inorder(tree)[|a| + j] == x[j] && Inorder(tree)[|a| + k] == x[k];
    }
  }

  /** The keys of a node are sorted among themselves. */
  lemma KeysAreSorted(tree: Tree, i: nat, j: nat)
    requires (tree.kids == [] || |tree.kids| == |tree.keys| + 1) && Sorted(Inorder(tree)) && i < j < |tree.keys|
    ensures tree.keys[i] <= tree.keys[j]
  {
    if tree.kids != [] {
      InorderAround(tree, j);
      KeyAt(tree, i);
      KeyAt(tree, j);
      PrefixLengths(tree, i + 1, j + 1);
    }
  }

  /** Where a key of an inner node stands among all keys. */
  lemma KeyAt(tree: Tree, i: nat)
    requires |tree.kids| == |tree.keys| + 1 && i < |tree.keys|
    ensures |KeysBefore(tree, i + 1)| > 0 && |KeysBefore(tree, i + 1)| <= |Inorder(tree)|
    ensures Inorder(tree)[|KeysBefore(tree, i + 1)| - 1] == tree.keys[i]
  {
    InorderAround(tree, i + 1);
  }

  lemma PrefixLengths(tree: Tree, i: nat, j: nat)
    requires |tree.kids| == |tree.keys| + 1 && 0 < i < j < |tree.kids|
    ensures |KeysBefore(tree, i)| < |KeysBefore(tree, j)|
  {
    var keys, kids := tree.keys[..j - 1], tree.kids[..j];
    assert keys == tree.keys[..i - 1] + [tree.keys[i - 1]] + tree.keys[i..j - 1];
    assert kids == tree.kids[..i] + tree.kids[i..j];
    InterleavedSplit(tree.keys[..i - 1], tree.kids[..i], tree.keys[i - 1], tree.keys[i..j - 1], tree.kids[i..j]);
  }

  // ---------- How many keys ----------

  lemma {:induction false} ManyKeys(tree: Tree, t: nat, h: nat)
    requires t >= 2 && HasShape(tree, t, h) && |tree.keys| >= t - 1
    ensures |Inorder(tree)| >= Power(t, h) - 1
    decreases h, 1
  {
    if h == 1 {
      assert Power(t, 1) == t * Power(t, 0);
    } else {
      ManyInKids(tree.keys, tree.kids, t, h);
      PowerMonotone(t, 0, h - 1);
      MulMonotone(t, |tree.kids|, Power(t, h - 1));
    }
  }

  lemma {:induction false} ManyInKids(keys: seq<int>, kids: seq<Tree>, t: nat, h: nat)
    requires t >= 2 && h >= 2 && |kids| == |keys| + 1
    requires forall i :: 0 <= i < |kids| ==> HasShape(kids[i], t, h - 1) && |kids[i].keys| >= t - 1
    ensures |Interleaved(keys, kids)| >= |kids| * Power(t, h - 1) - 1
    decreases h, 0, |kids|
  {
    ManyKeys(kids[0], t, h - 1);
    if keys != [] {
      ManyInKids(keys[1..], kids[1..], t, h);
      assert |kids| * Power(t, h - 1) == Power(t, h - 1) + (|kids| - 1) * Power(t, h - 1);
    }
  }

  /** A tree of height h with a root that is not empty has at least twice the h - 1-th power of t keys, less one. */
  lemma HeightIsLogarithmic(tree: Tree, t: nat, h: nat)
    requires t >= 2 && HasShape(tree, t, h) && |tree.keys| >= 1
    ensures |Inorder(tree)| >= 2 * Power(t, h - 1) - 1
  {
    if h > 1 {
      ManyInKids(tree.keys, tree.kids, t, h);
      PowerMonotone(t, 0, h - 1);
      MulMonotone(2, |tree.kids|, Power(t, h - 1));
    }
  }

  /** And a tree of h levels has no room for more keys than all its nodes full. */
  lemma {:induction false} NoMoreKeys(tree: Tree, t: nat, h: nat)
    requires t > 0 && HasShape(tree, t, h)
    ensures |Inorder(tree)| <= Power(2 * t, h) - 1
    decreases h, 1
  {
    if h == 1 {
      assert Power(2 * t, 1) == 2 * t * Power(2 * t, 0);
    } else {
      NoMoreInterleaved(tree.keys, tree.kids, t, h);
      MulMonotone(|tree.kids|, 2 * t, Power(2 * t, h - 1));
    }
  }

  lemma {:induction false} NoMoreInterleaved(keys: seq<int>, kids: seq<Tree>, t: nat, h: nat)
    requires t > 0 && h > 1 && |kids| == |keys| + 1
    requires forall i :: 0 <= i < |kids| ==> HasShape(kids[i], t, h - 1)
    ensures |Interleaved(keys, kids)| <= |kids| * Power(2 * t, h - 1) - 1
    decreases h, 0, |kids|
  {
    NoMoreKeys(kids[0], t, h - 1);
    if keys != [] {
      NoMoreInterleaved(keys[1..], kids[1..], t, h);
      assert |kids| * Power(2 * t, h - 1) == Power(2 * t, h - 1) + (|kids| - 1) * Power(2 * t, h - 1);
    }
  }
}
