/** Connectivity, spanning trees, and why greedily chosen edges make a shortest one. */
module SpanningTrees {

  datatype Edge = Edge(u: nat, v: nat, length: nat)

  predicate InRange(n: nat, es: seq<Edge>) {
    forall i :: 0 <= i < |es| ==> es[i].u < n && es[i].v < n
  }

  // ---------- Connectivity by walks ----------

  predicate Joins(e: Edge, x: nat, y: nat) {
    (e.u == x && e.v == y) || (e.u == y && e.v == x)
  }

  predicate Adjacent(es: seq<Edge>, x: nat, y: nat) {
    exists i :: 0 <= i < |es| && Joins(es[i], x, y)
  }

  predicate IsWalk(es: seq<Edge>, walk: seq<nat>) {
    |walk| > 0 && forall i :: 0 <= i < |walk| - 1 ==> Adjacent(es, walk[i], walk[i + 1])
  }

  ghost predicate Connected(es: seq<Edge>, x: nat, y: nat) {
    exists walk :: IsWalk(es, walk) && walk[0] == x && walk[|walk| - 1] == y
  }

  ghost predicate AllConnected(n: nat, es: seq<Edge>) {
    forall x, y :: 0 <= x < n && 0 <= y < n ==> Connected(es, x, y)
  }

  lemma ConnectedTransitive(es: seq<Edge>, x: nat, y: nat, z: nat)
    requires Connected(es, x, y) && Connected(es, y, z)
    ensures Connected(es, x, z)
  {
    var p :| IsWalk(es, p) && p[0] == x && p[|p| - 1] == y;
    var q :| IsWalk(es, q) && q[0] == y && q[|q| - 1] == z;
    var r := p + q[1..];
    forall i | 0 <= i < |r| - 1
      ensures Adjacent(es, r[i], r[i + 1])
    {
      if i < |p| - 1 {
        assert Adjacent(es, p[i], p[i + 1]);
      } else {
        assert Adjacent(es, q[i - |p| + 1], q[i - |p| + 2]);
      }
    }
    assert IsWalk(es, r) && r[0] == x && r[|r| - 1] == z;
  }

  lemma ConnectedReflexive(es: seq<Edge>, x: nat)
    ensures Connected(es, x, x)
  {
    assert IsWalk(es, [x]);
  }

  lemma EdgeConnects(es: seq<Edge>, i: nat, x: nat, y: nat)
    requires i < |es| && Joins(es[i], x, y)
    ensures Connected(es, x, y)
  {
    var walk := [x, y];
    assert Adjacent(es, walk[0], walk[1]);
    assert IsWalk(es, walk);
  }

  /** More edges connect more. */
  lemma ConnectedMonotone(es: seq<Edge>, fs: seq<Edge>, x: nat, y: nat)
    requires (forall i :: 0 <= i < |es| ==> es[i] in fs) && Connected(es, x, y)
    ensures Connected(fs, x, y)
  {
    var p :| IsWalk(es, p) && p[0] == x && p[|p| - 1] == y;
    forall i | 0 <= i < |p| - 1
      ensures Adjacent(fs, p[i], p[i + 1])
    {
      assert Adjacent(es, p[i], p[i + 1]);
      var j :| 0 <= j < |es| && Joins(es[j], p[i], p[i + 1]);
      var k :| 0 <= k < |fs| && fs[k] == es[j];
    }
    assert IsWalk(fs, p);
  }

  // ---------- Connectivity by labels ----------

  function Merge(labels: seq<nat>, e: Edge): (r: seq<nat>)
    requires e.u < |labels| && e.v < |labels|
    ensures |r| == |labels|
  {
    seq(|labels|, x requires 0 <= x < |labels| => if labels[x] == labels[e.u] then labels[e.v] else labels[x])
  }

  function Identity(n: nat): (labels: seq<nat>)
    ensures |labels| == n
  {
    seq(n, x => x)
  }

  /** Vertices get equal labels exactly when the edges connect them. */
  function Labels(n: nat, es: seq<Edge>): (labels: seq<nat>)
    requires InRange(n, es)
    ensures |labels| == n
  {
    if es == [] then Identity(n)
    else Merge(Labels(n, es[..|es| - 1]), es[|es| - 1])
  }

  ghost predicate Same(n: nat, es: seq<Edge>, x: nat, y: nat)
    requires InRange(n, es) && x < n && y < n
  {
    Labels(n, es)[x] == Labels(n, es)[y]
  }

  lemma {:induction false} EdgesShareLabels(n: nat, es: seq<Edge>, i: nat)
    requires InRange(n, es) && i < |es|
    ensures Same(n, es, es[i].u, es[i].v)
  {
    if i < |es| - 1 {
      EdgesShareLabels(n, es[..|es| - 1], i);
    }
  }

  lemma {:induction false} WalkSharesLabels(n: nat, es: seq<Edge>, walk: seq<nat>)
    requires InRange(n, es) && IsWalk(es, walk) && walk[0] < n
    ensures walk[|walk| - 1] < n && Same(n, es, walk[0], walk[|walk| - 1])
  {
    if |walk| > 1 {
      assert Adjacent(es, walk[0], walk[1]);
      var i :| 0 <= i < |es| && Joins(es[i], walk[0], walk[1]);
      EdgesShareLabels(n, es, i);
      forall j | 0 <= j < |walk[1..]| - 1
        ensures Adjacent(es, walk[1..][j], walk[1..][j + 1])
      {
        assert Adjacent(es, walk[j + 1], walk[j + 2]);
      }
      WalkSharesLabels(n, es, walk[1..]);
    }
  }

  lemma {:induction false} LabelsConnect(n: nat, es: seq<Edge>, x: nat, y: nat)
    requires InRange(n, es) && x < n && y < n && Same(n, es, x, y)
    ensures Connected(es, x, y)
    decreases |es|, 1
  {
    if es == [] {
      ConnectedReflexive(es, x);
    } else {
      var last := |es| - 1;
      var before, e := es[..last], es[last];
      var labels := Labels(n, before);
      if labels[x] == labels[y] {
        Bridge(n, es, x, y);
      } else if labels[x] == labels[e.u] {
        Bridge(n, es, x, e.u);
        EdgeConnects(es, last, e.u, e.v);
        Bridge(n, es, e.v, y);
        ConnectedTransitive(es, x, e.u, e.v);
        ConnectedTransitive(es, x, e.v, y);
      } else {
        Bridge(n, es, x, e.v);
        EdgeConnects(es, last, e.v, e.u);
        Bridge(n, es, e.u, y);
        ConnectedTransitive(es, x, e.v, e.u);
        ConnectedTransitive(es, x, e.u, y);
      }
    }
  }

  lemma {:induction false} Bridge(n: nat, es: seq<Edge>, x: nat, y: nat)
    requires InRange(n, es) && es != [] && x < n && y < n && Same(n, es[..|es| - 1], x, y)
    ensures Connected(es, x, y)
    decreases |es|, 0
  {
    LabelsConnect(n, es[..|es| - 1], x, y);
    ConnectedMonotone(es[..|es| - 1], es, x, y);
  }

  /** The two notions agree. */
  lemma ConnectedIsSame(n: nat, es: seq<Edge>, x: nat, y: nat)
    requires InRange(n, es) && x < n && y < n
    ensures Connected(es, x, y) <==> Same(n, es, x, y)
  {
    if Connected(es, x, y) {
      var walk :| IsWalk(es, walk) && walk[0] == x && walk[|walk| - 1] == y;
      WalkSharesLabels(n, es, walk);
    }
    if Same(n, es, x, y) {
      LabelsConnect(n, es, x, y);
    }
  }

  // ---------- Counting components ----------

  function LabelSet(labels: seq<nat>): set<nat> {
    set x | 0 <= x < |labels| :: labels[x]
  }

  function Components(n: nat, es: seq<Edge>): nat
    requires InRange(n, es)
  {
    |LabelSet(Labels(n, es))|
  }

  /** An edge joins two components or leaves their number alone. */
  lemma MergeComponents(labels: seq<nat>, e: Edge)
    requires e.u < |labels| && e.v < |labels|
    ensures |LabelSet(Merge(labels, e))| == |LabelSet(labels)| - (if labels[e.u] == labels[e.v] then 0 else 1)
  {
    var a, b := labels[e.u], labels[e.v];
    var after := LabelSet(Merge(labels, e));
    if a == b {
      assert Merge(labels, e) == labels;
    } else {
      assert a in LabelSet(labels);
      forall c | c in LabelSet(labels) && c != a
        ensures c in after
      {
        var x :| 0 <= x < |labels| && labels[x] == c;
        assert Merge(labels, e)[x] == c;
      }
      forall c | c in after
        ensures c in LabelSet(labels) && c != a
      {
        var x :| 0 <= x < |labels| && Merge(labels, e)[x] == c;
        assert labels[x] in LabelSet(labels) && b in LabelSet(labels);
      }
      assert after == LabelSet(labels) - {a};
    }
  }

  lemma {:induction false} IdentityLabels(n: nat)
    ensures |LabelSet(Identity(n))| == n
  {
    if n > 0 {
      IdentityLabels(n - 1);
      assert Identity(n)[..n - 1] == Identity(n - 1);
      LabelSetLast(Identity(n));
    }
  }

  /** Each edge removes at most one component. */
  lemma {:induction false} ComponentsAtLeast(n: nat, es: seq<Edge>, fs: seq<Edge>)
    requires InRange(n, es) && InRange(n, es + fs)
    ensures Components(n, es + fs) + |fs| >= Components(n, es)
    decreases |fs|
  {
    if fs == [] {
      assert es + fs == es;
    } else {
      var last := |fs| - 1;
      assert (es + fs)[..|es + fs| - 1] == es + fs[..last];
      assert (es + fs)[|es| + last] == fs[last];
      ComponentsAtLeast(n, es, fs[..last]);
      MergeComponents(Labels(n, es + fs[..last]), fs[last]);
    }
  }

  lemma ComponentsOfFew(n: nat, es: seq<Edge>)
    requires InRange(n, es)
    ensures Components(n, es) + |es| >= n
  {
    assert [] + es == es;
    ComponentsAtLeast(n, [], es);
    IdentityLabels(n);
  }

  /** A coarser labelling has no more labels. */
  lemma {:induction false} CoarserLabels(fine: seq<nat>, coarse: seq<nat>)
    requires |fine| == |coarse|
    requires forall x, y :: 0 <= x < |fine| && 0 <= y < |fine| && fine[x] == fine[y] ==> coarse[x] == coarse[y]
    ensures |LabelSet(coarse)| <= |LabelSet(fine)|
  {
    if fine != [] {
      var last := |fine| - 1;
      CoarserLabels(fine[..last], coarse[..last]);
      LabelSetLast(fine);
      LabelSetLast(coarse);
      if fine[last] in LabelSet(fine[..last]) {
        var x :| 0 <= x < last && fine[..last][x] == fine[last];
        assert coarse[..last][x] == coarse[last];
      }
    }
  }

  lemma LabelSetLast(labels: seq<nat>)
    requires labels != []
    ensures LabelSet(labels) == LabelSet(labels[..|labels| - 1]) + {labels[|labels| - 1]}
  {
    var last := |labels| - 1;
    forall c | c in LabelSet(labels)
      ensures c in LabelSet(labels[..last]) + {labels[last]}
    {
      var x :| 0 <= x < |labels| && labels[x] == c;
      assert x == last || labels[..last][x] == c;
    }
    forall c | c in LabelSet(labels[..last])
      ensures c in LabelSet(labels)
    {
      var x :| 0 <= x < last && labels[..last][x] == c;
      assert labels[x] == c;
    }
  }

  lemma OneComponent(n: nat, es: seq<Edge>)
    requires InRange(n, es) && n > 0
    ensures Components(n, es) >= 1
    ensures Components(n, es) == 1 <==> AllConnected(n, es)
  {
    var labels := Labels(n, es);
    assert labels[0] in LabelSet(labels);
    assert |{labels[0]}| == 1;
    if AllConnected(n, es) {
      forall x | 0 <= x < n
        ensures labels[x] == labels[0]
      {
        assert Connected(es, x, 0);
        ConnectedIsSame(n, es, x, 0);
      }
      assert LabelSet(labels) == {labels[0]};
    }
    if Components(n, es) == 1 {
      forall x, y | 0 <= x < n && 0 <= y < n
        ensures Connected(es, x, y)
      {
        assert labels[x] in LabelSet(labels) && labels[y] in LabelSet(labels);
        OnlyElement(LabelSet(labels), labels[x], labels[y]);
        ConnectedIsSame(n, es, x, y);
      }
    }
  }

  lemma OnlyElement(s: set<nat>, x: nat, y: nat)
    requires |s| == 1 && x in s && y in s
    ensures x == y
  {
    assert |s - {x}| == 0;
    assert y !in s - {x};
  }

  // ---------- Minimality ----------

  function TotalLength(es: seq<Edge>): nat {
    if es == [] then 0 else es[0].length + TotalLength(es[1..])
  }

  /** The edges that are not longer than w. */
  function Upto(es: seq<Edge>, w: nat): (r: seq<Edge>)
    ensures |r| <= |es|
  {
    if es == [] then [] else (if es[0].length <= w then [es[0]] else []) + Upto(es[1..], w)
  }

  /** The edges that are longer than w. */
  function Beyond(es: seq<Edge>, w: nat): (r: seq<Edge>)
    ensures |r| + |Upto(es, w)| == |es|
  {
    if es == [] then [] else (if es[0].length <= w then [] else [es[0]]) + Beyond(es[1..], w)
  }

  lemma {:induction false} UptoElements(es: seq<Edge>, w: nat, e: Edge)
    ensures e in Upto(es, w) <==> e in es && e.length <= w
    ensures e in Beyond(es, w) <==> e in es && e.length > w
  {
    if es != [] {
      UptoElements(es[1..], w, e);
    }
  }

  lemma UptoInRange(n: nat, es: seq<Edge>, w: nat)
    requires InRange(n, es)
    ensures InRange(n, Upto(es, w)) && InRange(n, Upto(es, w) + Beyond(es, w))
  {
    var parts := Upto(es, w) + Beyond(es, w);
    forall i | 0 <= i < |parts|
      ensures parts[i].u < n && parts[i].v < n
    {
      UptoElements(es, w, parts[i]);
      assert parts[i] in es;
    }
    assert forall i :: 0 <= i < |Upto(es, w)| ==> Upto(es, w)[i] == parts[i];
  }

  /** The total length, layer by layer: each edge counts once for every w below its length. */
  function Layers(es: seq<Edge>, w: nat): nat {
    if w == 0 then 0 else Layers(es, w - 1) + |Beyond(es, w - 1)|
  }

  lemma {:induction false} LayersOfOne(es: seq<Edge>, w: nat)
    requires es != []
    ensures Layers(es, w) == Layers(es[1..], w) + (if es[0].length < w then es[0].length else w)
  {
    if w > 0 {
      LayersOfOne(es, w - 1);
    }
  }

  lemma {:induction false} LengthIsLayers(es: seq<Edge>, w: nat)
    requires forall i :: 0 <= i < |es| ==> es[i].length <= w
    ensures TotalLength(es) == Layers(es, w)
  {
    if es == [] {
      NoLayers(w);
    } else {
      LengthIsLayers(es[1..], w);
      LayersOfOne(es, w);
    }
  }

  lemma {:induction false} NoLayers(w: nat)
    ensures Layers([], w) == 0
  {
    if w > 0 {
      NoLayers(w - 1);
    }
  }

  lemma {:induction false} FewerLayers(es: seq<Edge>, fs: seq<Edge>, w: nat)
    requires forall v: nat :: |Beyond(es, v)| <= |Beyond(fs, v)|
    ensures Layers(es, w) <= Layers(fs, w)
  {
    if w > 0 {
      FewerLayers(es, fs, w - 1);
    }
  }

  function Longest(es: seq<Edge>): (w: nat)
    ensures forall i :: 0 <= i < |es| ==> es[i].length <= w
  {
    if es == [] then 0
    else
      var w := Longest(es[1..]);
      if es[0].length <= w then w else es[0].length
  }

  /** A spanning tree: one edge less than there are vertices, all from the graph, connecting everything. */
  ghost predicate IsSpanningTree(n: nat, edges: seq<Edge>, tree: seq<Edge>) {
    && |tree| + 1 == n
    && (forall i :: 0 <= i < |tree| ==> tree[i] in edges)
    && AllConnected(n, tree)
  }

  /** Every edge of the graph joins vertices that chosen edges no longer than it already connect. */
  ghost predicate Greedy(n: nat, edges: seq<Edge>, chosen: seq<Edge>)
    requires InRange(n, edges) && InRange(n, chosen)
  {
    forall e :: e in edges ==> BridgedBy(n, chosen, e)
  }

  ghost predicate BridgedBy(n: nat, chosen: seq<Edge>, e: Edge)
    requires InRange(n, chosen)
  {
    && e.u < n && e.v < n
    && InRange(n, Upto(chosen, e.length))
    && Same(n, Upto(chosen, e.length), e.u, e.v)
  }

  /** The edges of a spanning tree up to a length are independent: each removes a component. */
  lemma TreePartIndependent(n: nat, tree: seq<Edge>, w: nat)
    requires InRange(n, tree) && |tree| + 1 == n && AllConnected(n, tree)
    ensures InRange(n, Upto(tree, w)) && Components(n, Upto(tree, w)) <= n - |Upto(tree, w)|
  {
    var low, high := Upto(tree, w), Beyond(tree, w);
    UptoInRange(n, tree, w);
    ComponentsAtLeast(n, low, high);
    forall x, y | 0 <= x < n && 0 <= y < n
      ensures Connected(low + high, x, y)
    {
      assert Connected(tree, x, y);
      forall i | 0 <= i < |tree|
        ensures tree[i] in low + high
      {
        UptoElements(tree, w, tree[i]);
      }
      ConnectedMonotone(tree, low + high, x, y);
    }
    OneComponent(n, low + high);
  }

  /** Edges that the greedy choice bridges connect nothing that the chosen edges do not. */
  lemma BridgedLabels(n: nat, part: seq<Edge>, chosen: seq<Edge>)
    requires InRange(n, part) && InRange(n, chosen)
    requires forall i :: 0 <= i < |part| ==> Same(n, chosen, part[i].u, part[i].v)
    ensures Components(n, chosen) <= Components(n, part)
  {
    var fine, coarse := Labels(n, part), Labels(n, chosen);
    forall x, y | 0 <= x < n && 0 <= y < n && fine[x] == fine[y]
      ensures coarse[x] == coarse[y]
    {
      FinerThan(n, part, coarse, x, y);
    }
    CoarserLabels(fine, coarse);
  }

  lemma {:induction false} FinerThan(n: nat, part: seq<Edge>, coarse: seq<nat>, x: nat, y: nat)
    requires InRange(n, part) && |coarse| == n && x < n && y < n
    requires forall i :: 0 <= i < |part| ==> coarse[part[i].u] == coarse[part[i].v]
    requires Labels(n, part)[x] == Labels(n, part)[y]
    ensures coarse[x] == coarse[y]
    decreases |part|
  {
    if part != [] {
      var before, e := part[..|part| - 1], part[|part| - 1];
      var labels := Labels(n, before);
      if labels[x] == labels[y] {
        FinerThan(n, before, coarse, x, y);
      } else if labels[x] == labels[e.u] {
        FinerThan(n, before, coarse, x, e.u);
        FinerThan(n, before, coarse, e.v, y);
      } else {
        FinerThan(n, before, coarse, x, e.v);
        FinerThan(n, before, coarse, e.u, y);
      }
    }
  }

  /** Of the edges up to any length, a spanning tree has no more than the greedy choice. */
  lemma GreedyHasMost(n: nat, edges: seq<Edge>, chosen: seq<Edge>, tree: seq<Edge>, w: nat)
    requires InRange(n, edges) && InRange(n, chosen) && Greedy(n, edges, chosen)
    requires IsSpanningTree(n, edges, tree)
    ensures |Upto(tree, w)| <= |Upto(chosen, w)|
  {
    assert InRange(n, tree);
    TreePartIndependent(n, tree, w);
    UptoInRange(n, chosen, w);
    var part := Upto(tree, w);
    forall i | 0 <= i < |part|
      ensures Same(n, Upto(chosen, w), part[i].u, part[i].v)
    {
      UptoElements(tree, w, part[i]);
      assert BridgedBy(n, chosen, part[i]);
      MoreSame(n, chosen, part[i].length, w, part[i].u, part[i].v);
    }
    BridgedLabels(n, part, Upto(chosen, w));
    ComponentsOfFew(n, Upto(chosen, w));
  }

  lemma MoreSame(n: nat, chosen: seq<Edge>, v: nat, w: nat, x: nat, y: nat)
    requires InRange(n, chosen) && v <= w && x < n && y < n
    requires InRange(n, Upto(chosen, v)) && Same(n, Upto(chosen, v), x, y)
    ensures InRange(n, Upto(chosen, w)) && Same(n, Upto(chosen, w), x, y)
  {
    UptoInRange(n, chosen, w);
    ConnectedIsSame(n, Upto(chosen, v), x, y);
    forall i | 0 <= i < |Upto(chosen, v)|
      ensures Upto(chosen, v)[i] in Upto(chosen, w)
    {
      UptoElements(chosen, v, Upto(chosen, v)[i]);
      UptoElements(chosen, w, Upto(chosen, v)[i]);
    }
    ConnectedMonotone(Upto(chosen, v), Upto(chosen, w), x, y);
    ConnectedIsSame(n, Upto(chosen, w), x, y);
  }

  /** A greedy choice of as many edges as a spanning tree has is not longer than any spanning tree. */
  lemma GreedyIsShortest(n: nat, edges: seq<Edge>, chosen: seq<Edge>, tree: seq<Edge>)
    requires InRange(n, edges) && InRange(n, chosen) && Greedy(n, edges, chosen)
    requires |chosen| + 1 == n && IsSpanningTree(n, edges, tree)
    ensures TotalLength(chosen) <= TotalLength(tree)
  {
    forall w: nat
      ensures |Beyond(chosen, w)| <= |Beyond(tree, w)|
    {
      GreedyHasMost(n, edges, chosen, tree, w);
    }
    var w := Longest(chosen + tree);
    assert forall i :: 0 <= i < |chosen| ==> chosen[i] == (chosen + tree)[i];
    assert forall i :: 0 <= i < |tree| ==> tree[i] == (chosen + tree)[|chosen| + i];
    LengthIsLayers(chosen, w);
    LengthIsLayers(tree, w);
    FewerLayers(chosen, tree, w);
  }
}
