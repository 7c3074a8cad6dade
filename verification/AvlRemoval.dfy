/** When a removal keeps an AVL tree balanced. */
module AvlRemoval {
  import opened AvlTree
  import opened Options

  // ---------- The condition ----------

  /** When the subtree on one side has lost a level, so has the node. */
  predicate Passes(t: Tree, onLeft: bool)
    requires t.Node?
  {
    if onLeft then GetBalanceFactor(t) == -1 || (GetBalanceFactor(t) == 1 && GetBalanceFactor(t.right) != 0)
    else GetBalanceFactor(t) == 1 || (GetBalanceFactor(t) == -1 && GetBalanceFactor(t.left) != 0)
  }

  /** The child on the other side is deeper by one and even, and its inner child leans inwards. */
  predicate IsTrap(t: Tree, onLeft: bool)
    requires t.Node?
  {
    if onLeft then
      && GetBalanceFactor(t) == 1 && t.right.Node? && GetBalanceFactor(t.right) == 0
      && t.right.left.Node? && GetBalanceFactor(t.right.left) == -1
    else
      && GetBalanceFactor(t) == -1 && t.left.Node? && GetBalanceFactor(t.left) == 0
      && t.left.right.Node? && GetBalanceFactor(t.left.right) == 1
  }

  /** The tree loses a level: at a node with at most one child, and from there up as long as it passes on. */
  predicate Loses(t: Tree, probe: Entry)
    decreases Size(t)
  {
    t.Node? &&
    var c := EntryCompare(probe, t.entry);
    if c < 0 then Loses(t.left, probe) && Passes(t, true)
    else if c > 0 then Loses(t.right, probe) && Passes(t, false)
    else if t.left.Empty? || t.right.Empty? then true
    else Loses(WithMinimal(t.right, t.entry), t.entry) && Passes(t, false)
  }

  /** Somewhere on the path, the subtree ahead loses a level and the node is a trap. */
  predicate Meets(t: Tree, probe: Entry)
    decreases Size(t)
  {
    t.Node? &&
    var c := EntryCompare(probe, t.entry);
    if c < 0 then Meets(t.left, probe) || (Loses(t.left, probe) && IsTrap(t, true))
    else if c > 0 then Meets(t.right, probe) || (Loses(t.right, probe) && IsTrap(t, false))
    else if t.left.Empty? || t.right.Empty? then false
    else
      var right := WithMinimal(t.right, t.entry);
      Meets(right, t.entry) || (Loses(right, t.entry) && IsTrap(t, false))
  }

  // ---------- One node ----------

  /** What a removal below has made of a tree. */
  predicate Became(was: Tree, now: Tree, loses: bool, meets: bool) {
    && DepthsOk(now) && GetDepth(now) == (if loses then GetDepth(was) - 1 else GetDepth(was))
    && (Balanced(now) <==> !meets) && !(loses && meets)
  }

  /** Rotations at a node too deep by two on one side make it one level shallower unless the deeper child is even. */
  lemma LeftHeavyDepth(t: Tree)
    requires NodeOk(t) && DepthsOk(t) && Balanced(t.left) && GetBalanceFactor(t) == -2
    ensures GetDepth(Rebalance(t)) == if GetBalanceFactor(t.left) == 0 then t.depth else t.depth - 1
  {
    DepthIsNatural(t.right);
    DepthIsNatural(t.left.left);
    DepthIsNatural(t.left.right);
    if t.left.right.Node? {
      DepthIsNatural(t.left.right.left);
      DepthIsNatural(t.left.right.right);
    }
  }

  lemma RightHeavyDepth(t: Tree)
    requires NodeOk(t) && DepthsOk(t) && Balanced(t.right) && GetBalanceFactor(t) == 2
    ensures GetDepth(Rebalance(t)) == if GetBalanceFactor(t.right) == 0 then t.depth else t.depth - 1
  {
    DepthIsNatural(t.left);
    DepthIsNatural(t.right.left);
    DepthIsNatural(t.right.right);
    if t.right.left.Node? {
      DepthIsNatural(t.right.left.left);
      DepthIsNatural(t.right.left.right);
    }
  }

  lemma LeftSame(t: Tree, child: Tree, meets: bool)
    requires t.Node? && DepthsOk(t) && Balanced(t) && Became(t.left, child, false, meets)
    ensures Became(t, Restored(t.(left := child), None).0, false, meets)
  {
    DepthIsNatural(child);
    DepthIsNatural(t.right);
  }

  lemma LeftShorterDepth(t: Tree, child: Tree)
    requires t.Node? && DepthsOk(t) && Balanced(t) && Became(t.left, child, true, false)
    ensures GetDepth(Restored(t.(left := child), None).0) == if Passes(t, true) then GetDepth(t) - 1 else GetDepth(t)
  {
    var u := UpdateDepth(t.(left := child));
    if GetBalanceFactor(u) == 2 {
      RightHeavyDepth(u);
    }
  }

  lemma LeftShorter(t: Tree, child: Tree)
    requires t.Node? && DepthsOk(t) && Balanced(t) && Became(t.left, child, true, false)
    ensures Became(t, Restored(t.(left := child), None).0, Passes(t, true), IsTrap(t, true))
  {
    LeftShorterDepth(t, child);
    RebalanceBalances(UpdateDepth(t.(left := child)));
  }

  lemma LeftPath(t: Tree, child: Tree, loses: bool, meets: bool)
    requires t.Node? && DepthsOk(t) && Balanced(t) && Became(t.left, child, loses, meets)
    ensures Became(t, Restored(t.(left := child), None).0,
                   loses && Passes(t, true), meets || (loses && IsTrap(t, true)))
  {
    if loses {
      LeftShorter(t, child);
    } else {
      LeftSame(t, child, meets);
    }
  }

  lemma RightSame(t: Tree, e: Entry, child: Tree, meets: bool)
    requires t.Node? && DepthsOk(t) && Balanced(t) && Became(t.right, child, false, meets)
    ensures Became(t, Restored(t.(entry := e, right := child), None).0, false, meets)
  {
    DepthIsNatural(child);
    DepthIsNatural(t.left);
  }

  lemma RightShorterDepth(t: Tree, e: Entry, child: Tree)
    requires t.Node? && DepthsOk(t) && Balanced(t) && Became(t.right, child, true, false)
    ensures GetDepth(Restored(t.(entry := e, right := child), None).0)
         == if Passes(t, false) then GetDepth(t) - 1 else GetDepth(t)
  {
    var u := UpdateDepth(t.(entry := e, right := child));
    if GetBalanceFactor(u) == -2 {
      LeftHeavyDepth(u);
    }
  }

  lemma RightShorter(t: Tree, e: Entry, child: Tree)
    requires t.Node? && DepthsOk(t) && Balanced(t) && Became(t.right, child, true, false)
    ensures Became(t, Restored(t.(entry := e, right := child), None).0, Passes(t, false), IsTrap(t, false))
  {
    RightShorterDepth(t, e, child);
    RebalanceBalances(UpdateDepth(t.(entry := e, right := child)));
  }

  lemma RightPath(t: Tree, e: Entry, child: Tree, loses: bool, meets: bool)
    requires t.Node? && DepthsOk(t) && Balanced(t) && Became(t.right, child, loses, meets)
    ensures Became(t, Restored(t.(entry := e, right := child), None).0,
                   loses && Passes(t, false), meets || (loses && IsTrap(t, false)))
  {
    if loses {
      RightShorter(t, e, child);
    } else {
      RightSame(t, e, child, meets);
    }
  }

  lemma OnlyChild(t: Tree)
    requires t.Node? && DepthsOk(t) && Balanced(t) && (t.left.Empty? || t.right.Empty?)
    ensures var child := if t.left.Node? then t.left else t.right;
      child.Node? ==> NodeOk(child) && Became(t, Restored(child, None).0, true, false)
  {
    DepthIsNatural(t.left);
    DepthIsNatural(t.right);
    var child := if t.left.Node? then t.left else t.right;
    if child.Node? {
      DepthIsNatural(child.left);
      DepthIsNatural(child.right);
    }
  }

  lemma {:induction false} WithMinimalBalanced(t: Tree, e: Entry)
    requires t.Node? && DepthsOk(t) && Balanced(t)
    ensures DepthsOk(WithMinimal(t, e)) && Balanced(WithMinimal(t, e))
    decreases t
  {
    WithMinimalDepths(t, e);
    if t.left.Node? {
      WithMinimalBalanced(t.left, e);
    }
  }

  // ---------- The whole path ----------

  /**
   * A removal from a balanced tree costs at most one level, and it leaves the tree balanced exactly when it meets no
   * trap; a tree that it leaves unbalanced has the depth it had.
   */
  lemma {:induction false} RemovalBalances(t: Tree, probe: Entry)
    requires DepthsOk(t) && Balanced(t)
    ensures var r := RemoveImpl(t, probe).0;
      && GetDepth(t) - 1 <= GetDepth(r) <= GetDepth(t) && (GetDepth(r) < GetDepth(t) <==> Loses(t, probe))
      && (Balanced(r) <==> !Meets(t, probe)) && (!Balanced(r) ==> GetDepth(r) == GetDepth(t))
  {
    RemovalBecomes(t, probe);
  }

  lemma {:induction false} RemovalBecomes(t: Tree, probe: Entry)
    requires DepthsOk(t) && Balanced(t)
    ensures Became(t, RemoveImpl(t, probe).0, Loses(t, probe), Meets(t, probe))
    decreases Size(t)
  {
    if t.Node? {
      var c := EntryCompare(probe, t.entry);
      if c < 0 {
        RemovalBecomes(t.left, probe);
        LeftPath(t, RemoveImpl(t.left, probe).0, Loses(t.left, probe), Meets(t.left, probe));
      } else if c > 0 {
        RemovalBecomes(t.right, probe);
        RightPath(t, t.entry, RemoveImpl(t.right, probe).0, Loses(t.right, probe), Meets(t.right, probe));
      } else if t.left.Empty? || t.right.Empty? {
        OnlyChild(t);
      } else {
        var right, e := WithMinimal(t.right, t.entry), t.entry;
        WithMinimalBalanced(t.right, e);
        RemovalBecomes(right, e);
        RightPath(t, Minimal(t.right), RemoveImpl(right, e).0, Loses(right, e), Meets(right, e));
      }
    }
  }

  // ---------- A removal that loses the balance ----------

  function LeafOf(e: Entry): Tree {
    Node(Empty, e, Empty, 1)
  }

  /** Even, but its right child leans to the right. */
  function LeftPart(es: seq<Entry>): Tree
    requires |es| == 8
  {
    Node(Node(LeafOf(es[0]), es[1], Empty, 2), es[2], Node(Empty, es[3], LeafOf(es[4]), 2), 3)
  }

  function RightPart(es: seq<Entry>): Tree
    requires |es| == 8
  {
    Node(Empty, es[6], LeafOf(es[7]), 2)
  }

  function Leaning(es: seq<Entry>): Tree
    requires |es| == 8
  {
    Node(LeftPart(es), es[5], RightPart(es), 4)
  }

  lemma LeafIsBalanced(e: Entry)
    ensures DepthsOk(LeafOf(e)) && Balanced(LeafOf(e)) && GetDepth(LeafOf(e)) == 1
  {
    assert DepthsOk(Empty) && Balanced(Empty);
  }

  lemma PartsAreBalanced(es: seq<Entry>)
    requires |es| == 8
    ensures DepthsOk(LeftPart(es)) && Balanced(LeftPart(es)) && DepthsOk(RightPart(es)) && Balanced(RightPart(es))
  {
    var l := LeftPart(es);
    LeafIsBalanced(es[0]);
    LeafIsBalanced(es[4]);
    LeafIsBalanced(es[7]);
    assert DepthsOk(l.left) && DepthsOk(l.right) && Balanced(l.left) && Balanced(l.right);
  }

  lemma PartsAreFlat(es: seq<Entry>)
    requires |es| == 8
    ensures Flat(LeftPart(es)) == es[..5] && Flat(RightPart(es)) == es[6..] && Flat(Leaning(es)) == es
  {
    var l, r := LeftPart(es), RightPart(es);
    assert Flat(l.left) == [es[0], es[1]] && Flat(l.right) == [es[3], es[4]];
    assert Flat(l) == es[..5] && Flat(r) == es[6..];
    assert es[..5] + [es[5]] + es[6..] == es;
  }

  /** One insertion after the other, into an empty tree. */
  function InsertAll(es: seq<Entry>): (u: Tree)
    ensures DepthsOk(u)
  {
    if es == [] then Empty else InsertImpl(InsertAll(es[..|es| - 1]), es[|es| - 1]).0
  }

  lemma InsertAllStep(es: seq<Entry>, e: Entry)
    ensures InsertAll(es + [e]) == InsertImpl(InsertAll(es), e).0
  {
    assert (es + [e])[..|es|] == es;
  }

  /** An insertion that needs no rotation. */
  lemma InsertsLeft(t: Tree, e: Entry, child: Tree) returns (u: Tree)
    requires t.Node? && DepthsOk(t) && EntryCompare(e, t.entry) < 0 && InsertImpl(t.left, e).0 == child
    requires -1 <= GetDepth(t.right) - GetDepth(child) <= 1
    ensures u == UpdateDepth(t.(left := child)) && InsertImpl(t, e).0 == u && DepthsOk(u)
  {
    u := UpdateDepth(t.(left := child));
  }

  lemma InsertsRight(t: Tree, e: Entry, child: Tree) returns (u: Tree)
    requires t.Node? && DepthsOk(t) && EntryCompare(e, t.entry) > 0 && InsertImpl(t.right, e).0 == child
    requires -1 <= GetDepth(child) - GetDepth(t.left) <= 1
    ensures u == UpdateDepth(t.(right := child)) && InsertImpl(t, e).0 == u && DepthsOk(u)
  {
    u := UpdateDepth(t.(right := child));
  }

  predicate AllCompared(es: seq<Entry>) {
    forall i, j :: 0 <= i < j < |es| ==> EntryCompare(es[i], es[j]) < 0 && EntryCompare(es[j], es[i]) > 0
  }

  lemma SortedIsCompared(es: seq<Entry>)
    requires IsSorted(es) && TellsApart(es)
    ensures AllCompared(es)
  {
    forall i, j | 0 <= i < j < |es|
      ensures EntryCompare(es[i], es[j]) < 0 && EntryCompare(es[j], es[i]) > 0
    {
      CompareOrdersKeys(es[i], es[j]);
      CompareOrdersKeys(es[j], es[i]);
    }
  }

  function ThreeInserted(es: seq<Entry>): Tree
    requires |es| == 8
  {
    Node(LeafOf(es[2]), es[5], LeafOf(es[6]), 2)
  }

  function SixInserted(es: seq<Entry>): Tree
    requires |es| == 8
  {
    Node(Node(LeafOf(es[1]), es[2], LeafOf(es[3]), 2), es[5], RightPart(es), 3)
  }

  lemma FirstThree(es: seq<Entry>)
    requires |es| == 8 && AllCompared(es)
    ensures InsertAll([es[5], es[2], es[6]]) == ThreeInserted(es)
  {
    InsertAllStep([], es[5]);
    assert [] + [es[5]] == [es[5]];
    InsertAllStep([es[5]], es[2]);
    InsertAllStep([es[5], es[2]], es[6]);
    assert [es[5]] + [es[2]] == [es[5], es[2]] && [es[5], es[2]] + [es[6]] == [es[5], es[2], es[6]];
    var t := InsertsLeft(LeafOf(es[5]), es[2], LeafOf(es[2]));
    t := InsertsRight(t, es[6], LeafOf(es[6]));
  }

  lemma NextThree(es: seq<Entry>, done: seq<Entry>)
    requires |es| == 8 && AllCompared(es) && InsertAll(done) == ThreeInserted(es)
    ensures InsertAll(done + [es[1]] + [es[3]] + [es[7]]) == SixInserted(es)
  {
    InsertAllStep(done, es[1]);
    InsertAllStep(done + [es[1]], es[3]);
    InsertAllStep(done + [es[1]] + [es[3]], es[7]);
    var l := InsertsLeft(LeafOf(es[2]), es[1], LeafOf(es[1]));
    var t := InsertsLeft(ThreeInserted(es), es[1], l);
    l := InsertsRight(l, es[3], LeafOf(es[3]));
    t := InsertsLeft(t, es[3], l);
    var r := InsertsRight(LeafOf(es[6]), es[7], LeafOf(es[7]));
    t := InsertsRight(t, es[7], r);
  }

  lemma LastTwo(es: seq<Entry>, done: seq<Entry>)
    requires |es| == 8 && AllCompared(es) && InsertAll(done) == SixInserted(es)
    ensures InsertAll(done + [es[0]] + [es[4]]) == Leaning(es)
  {
    InsertAllStep(done, es[0]);
    InsertAllStep(done + [es[0]], es[4]);
    var six := SixInserted(es);
    var ll := InsertsLeft(LeafOf(es[1]), es[0], LeafOf(es[0]));
    var l := InsertsLeft(six.left, es[0], ll);
    var t := InsertsLeft(six, es[0], l);
    var lr := InsertsRight(LeafOf(es[3]), es[4], LeafOf(es[4]));
    l := InsertsRight(l, es[4], lr);
    t := InsertsLeft(t, es[4], l);
  }

  lemma BuiltByInsertions(es: seq<Entry>)
    requires |es| == 8 && AllCompared(es)
    ensures InsertAll([es[5], es[2], es[6], es[1], es[3], es[7], es[0], es[4]]) == Leaning(es)
  {
    FirstThree(es);
    var three := [es[5], es[2], es[6]];
    NextThree(es, three);
    var six := three + [es[1]] + [es[3]] + [es[7]];
    LastTwo(es, six);
    assert six + [es[0]] + [es[4]] == [es[5], es[2], es[6], es[1], es[3], es[7], es[0], es[4]];
  }

  lemma LeaningMeets(es: seq<Entry>)
    requires |es| == 8 && AllCompared(es)
    ensures Meets(Leaning(es), es[7])
  {
    var t, r := Leaning(es), RightPart(es);
    assert EntryCompare(es[7], es[7]) == 0;
    assert Loses(LeafOf(es[7]), es[7]);
    assert Loses(r, es[7]);
    assert IsTrap(t, false);
  }

  /**
   * The trap is met: inserting any eight entries in a certain order gives a balanced tree, and removing the last of
   * them leaves an unbalanced one.
   */
  lemma RemovalUnbalances(es: seq<Entry>)
    requires |es| == 8 && IsSorted(es) && TellsApart(es)
    ensures var t := InsertAll([es[5], es[2], es[6], es[1], es[3], es[7], es[0], es[4]]);
      DepthsOk(t) && Balanced(t) && Flat(t) == es && Meets(t, es[7]) && !Balanced(RemoveImpl(t, es[7]).0)
  {
    SortedIsCompared(es);
    BuiltByInsertions(es);
    PartsAreBalanced(es);
    PartsAreFlat(es);
    LeaningMeets(es);
    RemovalBalances(Leaning(es), es[7]);
  }

  /** Such entries exist: a hash tells keys of different lengths apart. */
  lemma EightEntries() returns (es: seq<Entry>)
    ensures |es| == 8 && IsSorted(es) && TellsApart(es)
  {
    es := seq(8, i requires 0 <= i < 8 => MakeEntry(seq(i, _ => 0), 1));
  }
}
