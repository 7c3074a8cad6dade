/** Binary trees, their weighted path length, and why merging two least weights is optimal. */
module HuffmanOptimality {

  datatype Tree<V> = Leaf(value: V) | Node(left: Tree<V>, right: Tree<V>)

  function Leaves<V>(t: Tree<V>): (s: seq<V>)
    ensures |s| >= 1
  {
    match t
    case Leaf(v) => [v]
    case Node(l, r) => Leaves(l) + Leaves(r)
  }

  function Weight(t: Tree<nat>): nat {
    match t
    case Leaf(w) => w
    case Node(l, r) => Weight(l) + Weight(r)
  }

  /** The sum of weight times depth over all leaves, the root lying at the given depth. */
  function PathLength(t: Tree<nat>, depth: nat): nat {
    match t
    case Leaf(w) => w * depth
    case Node(l, r) => PathLength(l, depth + 1) + PathLength(r, depth + 1)
  }

  /** The same sum counted by inner nodes: every merge costs the weight of what it merges. */
  function Cost(t: Tree<nat>): nat {
    match t
    case Leaf(_) => 0
    case Node(l, r) => Cost(l) + Cost(r) + Weight(l) + Weight(r)
  }

  lemma {:induction false} CostIsPathLength(t: Tree<nat>, depth: nat)
    ensures PathLength(t, depth) == Cost(t) + depth * Weight(t)
  {
    match t
    case Leaf(_) =>
    case Node(l, r) =>
      CostIsPathLength(l, depth + 1);
      CostIsPathLength(r, depth + 1);
      assert (depth + 1) * Weight(l) + (depth + 1) * Weight(r) == depth * (Weight(l) + Weight(r)) + Weight(l) + Weight(r);
  }

  // ---------- Leaves and depths in order ----------

  function Depths<V>(t: Tree<V>, depth: nat): (s: seq<nat>)
    ensures |s| == |Leaves(t)|
  {
    match t
    case Leaf(_) => [depth]
    case Node(l, r) => Depths(l, depth + 1) + Depths(r, depth + 1)
  }

  function Dot(ws: seq<nat>, ds: seq<nat>): nat
    requires |ws| == |ds|
  {
    if ws == [] then 0 else ws[0] * ds[0] + Dot(ws[1..], ds[1..])
  }

  lemma {:induction false} DotConcat(ws: seq<nat>, ds: seq<nat>, ws': seq<nat>, ds': seq<nat>)
    requires |ws| == |ds| && |ws'| == |ds'|
    ensures Dot(ws + ws', ds + ds') == Dot(ws, ds) + Dot(ws', ds')
  {
    if ws == [] {
      assert ws + ws' == ws' && ds + ds' == ds';
    } else {
      assert (ws + ws')[1..] == ws[1..] + ws' && (ds + ds')[1..] == ds[1..] + ds';
      DotConcat(ws[1..], ds[1..], ws', ds');
    }
  }

  lemma {:induction false} PathLengthIsDot(t: Tree<nat>, depth: nat)
    ensures PathLength(t, depth) == Dot(Leaves(t), Depths(t, depth))
  {
    match t
    case Leaf(w) =>
      assert Dot([w], [depth]) == w * depth + Dot([], []);
    case Node(l, r) =>
      PathLengthIsDot(l, depth + 1);
      PathLengthIsDot(r, depth + 1);
      DotConcat(Leaves(l), Depths(l, depth + 1), Leaves(r), Depths(r, depth + 1));
  }

  /** The tree of the same shape with other leaves. */
  function Relabel<V>(t: Tree<V>, ws: seq<V>): (t': Tree<V>)
    requires |ws| == |Leaves(t)|
    ensures Leaves(t') == ws
    ensures forall depth :: Depths(t', depth) == Depths(t, depth)
  {
    match t
    case Leaf(_) => Leaf(ws[0])
    case Node(l, r) =>
      var n := |Leaves(l)|;
      Node(Relabel(l, ws[..n]), Relabel(r, ws[n..]))
  }

  function Swap<T>(s: seq<T>, i: nat, j: nat): seq<T>
    requires i < |s| && j < |s|
  {
    s[i := s[j]][j := s[i]]
  }

  lemma {:induction false} DotUpdate(ws: seq<nat>, ds: seq<nat>, i: nat, w: nat)
    requires |ws| == |ds| && i < |ws|
    ensures Dot(ws[i := w], ds) + ws[i] * ds[i] == Dot(ws, ds) + w * ds[i]
  {
    if i > 0 {
      assert ws[i := w][1..] == ws[1..][i - 1 := w];
      DotUpdate(ws[1..], ds[1..], i - 1, w);
    } else {
      assert ws[i := w][1..] == ws[1..];
    }
  }

  lemma Rearrangement(a: nat, b: nat, d: nat, e: nat)
    requires a <= b && d <= e
    ensures b * d + a * e <= a * d + b * e
  {
    assert (b - a) * (e - d) >= 0;
  }

  lemma SwapPermutes<T>(s: seq<T>, i: nat, j: nat)
    requires i < |s| && j < |s|
    ensures multiset(Swap(s, i, j)) == multiset(s)
  {
    assert multiset(s[i := s[j]]) == multiset(s) - multiset{s[i]} + multiset{s[j]};
  }

  /** Moving the lighter of two weights to the deeper place does not make the sum larger. */
  lemma SwapToDeeper(ws: seq<nat>, ds: seq<nat>, i: nat, j: nat)
    requires |ws| == |ds| && i < |ws| && j < |ws|
    requires ws[i] <= ws[j] && ds[i] <= ds[j]
    ensures Dot(Swap(ws, i, j), ds) <= Dot(ws, ds)
  {
    if i == j {
      assert Swap(ws, i, j) == ws;
    } else {
      DotUpdate(ws, ds, i, ws[j]);
      DotUpdate(ws[i := ws[j]], ds, j, ws[i]);
      Rearrangement(ws[i], ws[j], ds[i], ds[j]);
    }
  }

  // ---------- The deepest pair of siblings ----------

  /** The leaves at places i and i + 1 are the two children of one node. */
  predicate Siblings<V>(t: Tree<V>, i: nat) {
    match t
    case Leaf(_) => false
    case Node(l, r) =>
      var n := |Leaves(l)|;
      || (l.Leaf? && r.Leaf? && i == 0)
      || (i + 1 < n && Siblings(l, i))
      || (i >= n && Siblings(r, i - n))
  }

  lemma {:induction false} SiblingsInRange<V>(t: Tree<V>, i: nat)
    requires Siblings(t, i)
    ensures i + 1 < |Leaves(t)|
  {
    match t
    case Node(l, r) =>
      if i >= |Leaves(l)| && Siblings(r, i - |Leaves(l)|) {
        SiblingsInRange(r, i - |Leaves(l)|);
      }
  }

  ghost predicate DeepestAt(ds: seq<nat>, i: nat) {
    i + 1 < |ds| && ds[i] == ds[i + 1] && forall j :: 0 <= j < |ds| ==> ds[j] <= ds[i]
  }

  lemma {:induction false} DepthsAtLeast<V>(t: Tree<V>, depth: nat, j: nat)
    requires j < |Leaves(t)|
    ensures Depths(t, depth)[j] >= depth + (if t.Node? then 1 else 0)
  {
    match t
    case Leaf(_) =>
    case Node(l, r) =>
      if j < |Leaves(l)| {
        DepthsAtLeast(l, depth + 1, j);
      } else {
        DepthsAtLeast(r, depth + 1, j - |Leaves(l)|);
      }
  }

  lemma {:induction false} DeepestSiblings<V>(t: Tree<V>, depth: nat) returns (i: nat)
    requires t.Node?
    ensures Siblings(t, i) && DeepestAt(Depths(t, depth), i)
  {
    var l, r := t.left, t.right;
    var n := |Leaves(l)|;
    var dl, dr := Depths(l, depth + 1), Depths(r, depth + 1);
    if l.Leaf? && r.Leaf? {
      i := 0;
    } else if l.Leaf? {
      var j := DeepestSiblings(r, depth + 1);
      DepthsAtLeast(r, depth + 1, j);
      i := n + j;
      DeepestRight(dl, dr, j);
    } else if r.Leaf? {
      i := DeepestSiblings(l, depth + 1);
      DepthsAtLeast(l, depth + 1, i);
      DeepestLeft(dl, dr, i);
    } else {
      i := DeepestSiblings(l, depth + 1);
      var j := DeepestSiblings(r, depth + 1);
      if dl[i] >= dr[j] {
        DeepestLeft(dl, dr, i);
      } else {
        i := n + j;
        DeepestRight(dl, dr, j);
      }
    }
  }

  lemma DeepestLeft(dl: seq<nat>, dr: seq<nat>, i: nat)
    requires DeepestAt(dl, i) && forall j :: 0 <= j < |dr| ==> dr[j] <= dl[i]
    ensures DeepestAt(dl + dr, i)
  {
  }

  lemma DeepestRight(dl: seq<nat>, dr: seq<nat>, i: nat)
    requires DeepestAt(dr, i) && forall j :: 0 <= j < |dl| ==> dl[j] <= dr[i]
    ensures DeepestAt(dl + dr, |dl| + i)
  {
  }

  /** The shape decides which leaves are siblings. */
  lemma {:induction false} RelabelKeepsSiblings<V>(t: Tree<V>, ws: seq<V>, i: nat)
    requires |ws| == |Leaves(t)| && Siblings(t, i)
    ensures Siblings(Relabel(t, ws), i)
  {
    match t
    case Node(l, r) =>
      var n := |Leaves(l)|;
      if i + 1 < n && Siblings(l, i) {
        RelabelKeepsSiblings(l, ws[..n], i);
      } else if i >= n && Siblings(r, i - n) {
        RelabelKeepsSiblings(r, ws[n..], i - n);
      }
  }

  /** The tree with two sibling leaves made one leaf of their joint weight. */
  function Merged(t: Tree<nat>, i: nat): Tree<nat>
    requires Siblings(t, i)
  {
    var n := |Leaves(t.left)|;
    if t.left.Leaf? && t.right.Leaf? then Leaf(t.left.value + t.right.value)
    else if i + 1 < n && Siblings(t.left, i) then Node(Merged(t.left, i), t.right)
    else Node(t.left, Merged(t.right, i - n))
  }

  lemma {:induction false} MergedLeaves(t: Tree<nat>, i: nat)
    requires Siblings(t, i)
    ensures i + 1 < |Leaves(t)|
    ensures Leaves(Merged(t, i)) == Leaves(t)[..i] + [Leaves(t)[i] + Leaves(t)[i + 1]] + Leaves(t)[i + 2..]
  {
    var n := |Leaves(t.left)|;
    if t.left.Leaf? && t.right.Leaf? {
    } else if i + 1 < n && Siblings(t.left, i) {
      MergedLeaves(t.left, i);
    } else {
      MergedLeaves(t.right, i - n);
    }
  }

  lemma {:induction false} MergedCost(t: Tree<nat>, i: nat)
    requires Siblings(t, i)
    ensures i + 1 < |Leaves(t)|
    ensures Weight(Merged(t, i)) == Weight(t)
    ensures Cost(t) == Cost(Merged(t, i)) + Leaves(t)[i] + Leaves(t)[i + 1]
  {
    var n := |Leaves(t.left)|;
    if t.left.Leaf? && t.right.Leaf? {
    } else if i + 1 < n && Siblings(t.left, i) {
      MergedCost(t.left, i);
    } else {
      MergedCost(t.right, i - n);
    }
  }

  // ---------- One step of the construction ----------

  /** a and b are two least elements of m. */
  ghost predicate TwoLeast(m: multiset<nat>, a: nat, b: nat) {
    && a in m
    && b in m - multiset{a}
    && a <= b
    && (forall w :: w in m - multiset{a} ==> b <= w)
  }

  function Join(m: multiset<nat>, a: nat, b: nat): multiset<nat> {
    m - multiset{a} - multiset{b} + multiset{a + b}
  }

  function LeafBag(t: Tree<nat>): multiset<nat> {
    multiset(Leaves(t))
  }

  /** Two least weights can be brought to the two deepest siblings without raising the sum. */
  lemma BringDown(ws: seq<nat>, ds: seq<nat>, i: nat, a: nat, b: nat) returns (ws': seq<nat>)
    requires |ws| == |ds| && DeepestAt(ds, i) && TwoLeast(multiset(ws), a, b)
    ensures |ws'| == |ws| && multiset(ws') == multiset(ws)
    ensures ws'[i] == a && ws'[i + 1] == b
    ensures Dot(ws', ds) <= Dot(ws, ds)
  {
    var vs := BringFirst(ws, ds, i, a, b);
    var q := SecondPlace(vs, i, a, b);
    SwapToDeeper(vs, ds, q, i + 1);
    SwapPermutes(vs, q, i + 1);
    ws' := Swap(vs, q, i + 1);
  }

  lemma BringFirst(ws: seq<nat>, ds: seq<nat>, i: nat, a: nat, b: nat) returns (vs: seq<nat>)
    requires |ws| == |ds| && DeepestAt(ds, i) && TwoLeast(multiset(ws), a, b)
    ensures |vs| == |ws| && multiset(vs) == multiset(ws) && TwoLeast(multiset(vs), a, b)
    ensures vs[i] == a
    ensures Dot(vs, ds) <= Dot(ws, ds)
  {
    assert a in multiset(ws);
    var p :| 0 <= p < |ws| && ws[p] == a;
    LeastIsLeast(multiset(ws), a, b, ws[i]);
    SwapToDeeper(ws, ds, p, i);
    SwapPermutes(ws, p, i);
    vs := Swap(ws, p, i);
  }

  lemma LeastIsLeast(m: multiset<nat>, a: nat, b: nat, w: nat)
    requires TwoLeast(m, a, b) && w in m
    ensures a <= w
  {
    if w != a {
      assert w in m - multiset{a};
    }
  }

  /** Once a stands at place i, b stands at another place and is least of the rest. */
  lemma SecondPlace(vs: seq<nat>, i: nat, a: nat, b: nat) returns (q: nat)
    requires i + 1 < |vs| && vs[i] == a && TwoLeast(multiset(vs), a, b)
    ensures q < |vs| && q != i && vs[q] == b && b <= vs[i + 1]
  {
    var rest := vs[..i] + vs[i + 1..];
    assert vs == vs[..i] + [vs[i]] + vs[i + 1..];
    assert multiset(rest) == multiset(vs) - multiset{a};
    assert b in multiset(rest);
    var j :| 0 <= j < |rest| && rest[j] == b;
    q := if j < i then j else j + 1;
    assert vs[i + 1] == rest[i];
    assert vs[i + 1] in multiset(rest);
  }

  /** Two least weights can be made siblings without raising the cost. */
  lemma MakeSiblings(t: Tree<nat>, a: nat, b: nat) returns (u: Tree<nat>, i: nat)
    requires TwoLeast(LeafBag(t), a, b)
    ensures LeafBag(u) == LeafBag(t) && Cost(u) <= Cost(t)
    ensures Siblings(u, i) && i + 1 < |Leaves(u)| && Leaves(u)[i] == a && Leaves(u)[i + 1] == b
  {
    i := DeepestSiblings(t, 0);
    var ws := BringDown(Leaves(t), Depths(t, 0), i, a, b);
    u := Relabel(t, ws);
    RelabelKeepsSiblings(t, ws, i);
    CostIsDot(t);
    CostIsDot(u);
  }

  /** From any tree over some weights one can pass to a tree over the weights with two least ones
      joined whose cost is smaller by at least their sum. */
  lemma JoinLeast(t: Tree<nat>, a: nat, b: nat) returns (t': Tree<nat>)
    requires TwoLeast(LeafBag(t), a, b)
    ensures LeafBag(t') == Join(LeafBag(t), a, b)
    ensures Cost(t') + a + b <= Cost(t)
  {
    var u, i := MakeSiblings(t, a, b);
    t' := JoinSiblings(u, i);
  }

  lemma JoinSiblings(u: Tree<nat>, i: nat) returns (t': Tree<nat>)
    requires Siblings(u, i)
    ensures i + 1 < |Leaves(u)|
    ensures LeafBag(t') == Join(LeafBag(u), Leaves(u)[i], Leaves(u)[i + 1])
    ensures Cost(t') + Leaves(u)[i] + Leaves(u)[i + 1] == Cost(u)
  {
    t' := Merged(u, i);
    MergedCost(u, i);
    MergedLeaves(u, i);
    JoinedBag(Leaves(u), i, Leaves(t'));
  }

  lemma CostIsDot(t: Tree<nat>)
    ensures Cost(t) == Dot(Leaves(t), Depths(t, 0))
  {
    CostIsPathLength(t, 0);
    PathLengthIsDot(t, 0);
  }

  lemma JoinedBag(ws: seq<nat>, i: nat, vs: seq<nat>)
    requires i + 1 < |ws| && vs == ws[..i] + [ws[i] + ws[i + 1]] + ws[i + 2..]
    ensures multiset(vs) == Join(multiset(ws), ws[i], ws[i + 1])
  {
    assert ws == ws[..i] + [ws[i], ws[i + 1]] + ws[i + 2..];
    assert multiset(ws) == multiset(ws[..i]) + (multiset{ws[i]} + multiset{ws[i + 1]}) + multiset(ws[i + 2..]);
  }

  // ---------- Optimality as an invariant ----------

  /** Every tree over the bag `start` costs at least `spent` more than some tree over the bag `now`. */
  ghost predicate Dominates(start: multiset<nat>, now: multiset<nat>, spent: nat) {
    forall t :: LeafBag(t) == start ==> Improves(t, now, spent)
  }

  ghost predicate Improves(t: Tree<nat>, now: multiset<nat>, spent: nat) {
    exists t' :: LeafBag(t') == now && spent + Cost(t') <= Cost(t)
  }

  lemma DominatesAtStart(start: multiset<nat>)
    ensures Dominates(start, start, 0)
  {
    forall t | LeafBag(t) == start
      ensures Improves(t, start, 0)
    {
      assert 0 + Cost(t) <= Cost(t);
    }
  }

  lemma DominatesAfterJoin(start: multiset<nat>, now: multiset<nat>, spent: nat, a: nat, b: nat)
    requires Dominates(start, now, spent) && TwoLeast(now, a, b)
    ensures Dominates(start, Join(now, a, b), spent + a + b)
  {
    forall t | LeafBag(t) == start
      ensures Improves(t, Join(now, a, b), spent + a + b)
    {
      assert Improves(t, now, spent);
      var u :| LeafBag(u) == now && spent + Cost(u) <= Cost(t);
      var v := JoinLeast(u, a, b);
    }
  }
}
