/** AVL trees of hash map entries, ordered by the comparator of the hash map. */
module AvlTree {
  import opened Extremes
  import opened MachineWords
  import opened Options

  // ---------- Entries and their order ----------

  type Key = seq<Byte>

  /** The size of the key is its length. */
  datatype Entry = Entry(key: Key, data: int, hash: nat)

  function Djb2(key: Key): nat {
    if key == [] then 5381 else Uint64(Djb2(key[..|key| - 1]) * 33 + key[|key| - 1])
  }

  method Djb2Hash(key: Key) returns (hash: nat)
    ensures hash == Djb2(key)
  {
    hash := 5381;
    for i := 0 to |key|
      invariant hash == Djb2(key[..i])
    {
      assert key[..i + 1][..i] == key[..i];
      hash := Uint64(hash * 33 + key[i]);
    }
    assert key[..|key|] == key;
  }

  function MakeEntry(key: Key, data: int): Entry {
    Entry(key, data, Djb2(key))
  }

  predicate IsEntry(e: Entry) {
    e.hash == Djb2(e.key)
  }

  /** Only the sign matters. */
  function Memcmp(a: Key, b: Key): int
    requires |a| == |b|
  {
    if a == [] then 0 else if a[0] != b[0] then a[0] - b[0] else Memcmp(a[1..], b[1..])
  }

  function EntryCompare(a: Entry, b: Entry): int {
    if |a.key| < |b.key| then -1 else if |a.key| > |b.key| then 1
    else if a.hash == b.hash then 0 else Memcmp(a.key, b.key)
  }

  /** Shorter keys first, keys of one length byte by byte. */
  predicate KeyLess(a: Key, b: Key) {
    |a| < |b| || (|a| == |b| && Memcmp(a, b) < 0)
  }

  lemma {:induction false} MemcmpSign(a: Key, b: Key)
    requires |a| == |b|
    ensures Memcmp(a, b) == 0 <==> a == b
    ensures Memcmp(a, b) == -Memcmp(b, a)
    decreases |a|
  {
    if a != [] {
      MemcmpSign(a[1..], b[1..]);
      assert a == [a[0]] + a[1..] && b == [b[0]] + b[1..];
    }
  }

  /** Of two keys of one length, the one with the smaller byte at the first difference is the smaller. */
  lemma {:induction false} FirstDifference(a: Key, b: Key, k: nat)
    requires |a| == |b| && k < |a| && a[..k] == b[..k] && a[k] < b[k]
    ensures KeyLess(a, b) && !KeyLess(b, a)
    decreases |a|
  {
    if k > 0 {
      assert a[0] == a[..k][0] == b[..k][0] == b[0];
      assert a[1..][..k - 1] == a[..k][1..] && b[1..][..k - 1] == b[..k][1..];
      FirstDifference(a[1..], b[1..], k - 1);
    }
  }

  lemma {:induction false} MemcmpTransitive(a: Key, b: Key, c: Key)
    requires |a| == |b| == |c| && Memcmp(a, b) < 0 && Memcmp(b, c) < 0
    ensures Memcmp(a, c) < 0
    decreases |a|
  {
    if a[0] == b[0] == c[0] {
      MemcmpTransitive(a[1..], b[1..], c[1..]);
    }
  }

  lemma KeyLessTransitive(a: Key, b: Key, c: Key)
    requires KeyLess(a, b) && KeyLess(b, c)
    ensures KeyLess(a, c)
  {
    if |a| == |b| == |c| {
      MemcmpTransitive(a, b, c);
    }
  }

  lemma KeyLessTotal(a: Key, b: Key)
    ensures a == b || KeyLess(a, b) || KeyLess(b, a)
    ensures !(KeyLess(a, b) && KeyLess(b, a)) && !KeyLess(a, a)
  {
    if |a| == |b| {
      MemcmpSign(a, b);
    }
    MemcmpSign(a, a);
  }

  /** Different keys of one length have different hashes. */
  predicate Tells(a: Key, b: Key) {
    |a| == |b| && Djb2(a) == Djb2(b) ==> a == b
  }

  /** The comparator orders entries by their keys exactly when the hash tells the keys apart. */
  lemma CompareOrdersKeys(a: Entry, b: Entry)
    requires IsEntry(a) && IsEntry(b)
    ensures Tells(a.key, b.key) <==> (EntryCompare(a, b) == 0 <==> a.key == b.key)
    ensures Tells(a.key, b.key) ==>
      (EntryCompare(a, b) < 0 <==> KeyLess(a.key, b.key)) && (EntryCompare(a, b) > 0 <==> KeyLess(b.key, a.key))
  {
    KeyLessTotal(a.key, b.key);
    if |a.key| == |b.key| {
      MemcmpSign(a.key, b.key);
    }
  }

  // ---------- Trees ----------

  datatype Tree = Empty | Node(left: Tree, entry: Entry, right: Tree, depth: int)

  function GetDepth(t: Tree): int {
    if t.Empty? then 0 else t.depth
  }

  function UpdateDepth(t: Tree): Tree
    requires t.Node?
  {
    t.(depth := 1 + Max(GetDepth(t.left), GetDepth(t.right)))
  }

  function GetBalanceFactor(t: Tree): int {
    if t.Empty? then 0 else GetDepth(t.right) - GetDepth(t.left)
  }

  function RotateLeft(a: Tree): Tree
    requires a.Node? && a.right.Node?
  {
    UpdateDepth(a.right.(left := UpdateDepth(a.(right := a.right.left))))
  }

  function RotateRight(a: Tree): Tree
    requires a.Node? && a.left.Node?
  {
    UpdateDepth(a.left.(right := UpdateDepth(a.(left := a.left.right))))
  }

  function RotateLeftRight(a: Tree): Tree
    requires a.Node? && a.left.Node? && a.left.right.Node?
  {
    RotateRight(a.(left := RotateLeft(a.left)))
  }

  function RotateRightLeft(a: Tree): Tree
    requires a.Node? && a.right.Node? && a.right.left.Node?
  {
    RotateLeft(a.(right := RotateRight(a.right)))
  }

  /** Every node stores the depth of its subtree. */
  predicate DepthsOk(t: Tree) {
    t.Node? ==> DepthsOk(t.left) && DepthsOk(t.right) && t.depth == 1 + Max(GetDepth(t.left), GetDepth(t.right))
  }

  lemma {:induction false} DepthIsNatural(t: Tree)
    requires DepthsOk(t)
    ensures GetDepth(t) >= 0 && (t.Node? ==> GetDepth(t) > 0)
  {
    if t.Node? {
      DepthIsNatural(t.left);
      DepthIsNatural(t.right);
    }
  }

  /** The children's depths are stored; the node's own was just computed. */
  predicate NodeOk(t: Tree) {
    t.Node? && DepthsOk(t.left) && DepthsOk(t.right)
  }

  function Rebalance(t: Tree): Tree
    requires NodeOk(t)
  {
    DepthIsNatural(t.left);
    DepthIsNatural(t.right);
    if GetBalanceFactor(t) < -1 then
      if GetBalanceFactor(t.left) < 0 then RotateRight(t) else
        DepthIsNatural(t.left.left);
        DepthIsNatural(t.left.right);
        RotateLeftRight(t)
    else if GetBalanceFactor(t) > 1 then
      if GetBalanceFactor(t.right) > 0 then RotateLeft(t) else
        DepthIsNatural(t.right.left);
        DepthIsNatural(t.right.right);
        RotateRightLeft(t)
    else t
  }

  // ---------- Entries in order ----------

  function Flat(t: Tree): seq<Entry> {
    if t.Empty? then [] else Flat(t.left) + [t.entry] + Flat(t.right)
  }

  lemma Regrouped(x: seq<Entry>, a: Entry, y: seq<Entry>, b: Entry, z: seq<Entry>)
    ensures x + [a] + (y + [b] + z) == (x + [a] + y) + [b] + z
  {
  }

  lemma RotateRightKeeps(t: Tree)
    requires t.Node? && t.left.Node?
    ensures Flat(RotateRight(t)) == Flat(t)
  {
    var x, y, z := Flat(t.left.left), Flat(t.left.right), Flat(t.right);
    assert Flat(t.left) == x + [t.left.entry] + y;
    assert Flat(RotateRight(t).right) == y + [t.entry] + z;
    Regrouped(x, t.left.entry, y, t.entry, z);
  }

  lemma RotateLeftKeeps(t: Tree)
    requires t.Node? && t.right.Node?
    ensures Flat(RotateLeft(t)) == Flat(t)
  {
    var x, y, z := Flat(t.left), Flat(t.right.left), Flat(t.right.right);
    assert Flat(t.right) == y + [t.right.entry] + z;
    assert Flat(RotateLeft(t).left) == x + [t.entry] + y;
    Regrouped(x, t.entry, y, t.right.entry, z);
  }

  lemma RebalanceKeeps(t: Tree)
    requires NodeOk(t)
    ensures Flat(Rebalance(t)) == Flat(t)
  {
    DepthIsNatural(t.left);
    DepthIsNatural(t.right);
    if GetBalanceFactor(t) < -1 {
      if GetBalanceFactor(t.left) < 0 {
        RotateRightKeeps(t);
      } else {
        DepthIsNatural(t.left.left);
        DepthIsNatural(t.left.right);
        RotateLeftKeeps(t.left);
        RotateRightKeeps(t.(left := RotateLeft(t.left)));
      }
    } else if GetBalanceFactor(t) > 1 {
      if GetBalanceFactor(t.right) > 0 {
        RotateLeftKeeps(t);
      } else {
        DepthIsNatural(t.right.left);
        DepthIsNatural(t.right.right);
        RotateRightKeeps(t.right);
        RotateLeftKeeps(t.(right := RotateRight(t.right)));
      }
    }
  }

  lemma RebalanceDepths(t: Tree)
    requires NodeOk(t) && DepthsOk(t)
    ensures DepthsOk(Rebalance(t)) && Rebalance(t).Node?
  {
    DepthIsNatural(t.left);
    DepthIsNatural(t.right);
    if t.left.Node? {
      DepthIsNatural(t.left.left);
      DepthIsNatural(t.left.right);
    }
    if t.right.Node? {
      DepthIsNatural(t.right.left);
      DepthIsNatural(t.right.right);
    }
  }

  // ---------- Balance ----------

  predicate Balanced(t: Tree) {
    t.Node? ==> Balanced(t.left) && Balanced(t.right) && -1 <= GetBalanceFactor(t) <= 1
  }

  /** What a child too deep by two must not look like. */
  predicate Awkward(t: Tree) {
    || (GetBalanceFactor(t) == -2 && t.left.Node? && t.left.right.Node?
        && GetBalanceFactor(t.left) == 0 && GetBalanceFactor(t.left.right) == 1)
    || (GetBalanceFactor(t) == 2 && t.right.Node? && t.right.left.Node?
        && GetBalanceFactor(t.right) == 0 && GetBalanceFactor(t.right.left) == -1)
  }

  lemma RebalanceLeftHeavy(t: Tree)
    requires NodeOk(t) && DepthsOk(t) && Balanced(t.left) && Balanced(t.right) && GetBalanceFactor(t) == -2
    ensures Balanced(Rebalance(t)) <==> !Awkward(t)
  {
    DepthIsNatural(t.left);
    DepthIsNatural(t.right);
    DepthIsNatural(t.left.left);
    DepthIsNatural(t.left.right);
    if t.left.right.Node? {
      DepthIsNatural(t.left.right.left);
      DepthIsNatural(t.left.right.right);
    }
  }

  lemma RebalanceRightHeavy(t: Tree)
    requires NodeOk(t) && DepthsOk(t) && Balanced(t.left) && Balanced(t.right) && GetBalanceFactor(t) == 2
    ensures Balanced(Rebalance(t)) <==> !Awkward(t)
  {
    DepthIsNatural(t.left);
    DepthIsNatural(t.right);
    DepthIsNatural(t.right.left);
    DepthIsNatural(t.right.right);
    if t.right.left.Node? {
      DepthIsNatural(t.right.left.left);
      DepthIsNatural(t.right.left.right);
    }
  }

  /** With children that differ by at most two levels, rebalancing fails in exactly one shape and its mirror image. */
  lemma RebalanceBalances(t: Tree)
    requires NodeOk(t) && DepthsOk(t) && Balanced(t.left) && Balanced(t.right) && -2 <= GetBalanceFactor(t) <= 2
    ensures Balanced(Rebalance(t)) <==> !Awkward(t)
  {
    if GetBalanceFactor(t) == -2 {
      RebalanceLeftHeavy(t);
    } else if GetBalanceFactor(t) == 2 {
      RebalanceRightHeavy(t);
    }
  }

  // ---------- Sorted entries ----------

  predicate IsSorted(es: seq<Entry>) {
    && (forall i :: 0 <= i < |es| ==> IsEntry(es[i]))
    && (forall i, j :: 0 <= i < j < |es| ==> KeyLess(es[i].key, es[j].key))
  }

  predicate TellsAll(es: seq<Entry>, key: Key) {
    forall i :: 0 <= i < |es| ==> Tells(key, es[i].key)
  }

  function Optional(x: Option<Entry>): seq<Entry> {
    if x.None? then [] else [x.value]
  }

  /** What stands for the key, if anything, gives way to x. */
  function Updated(es: seq<Entry>, key: Key, x: Option<Entry>): seq<Entry> {
    if es == [] || KeyLess(key, es[0].key) then Optional(x) + es
    else if key == es[0].key then Optional(x) + es[1..]
    else [es[0]] + Updated(es[1..], key, x)
  }

  lemma UpdatedStep(es: seq<Entry>, key: Key, x: Option<Entry>)
    requires es != [] && KeyLess(es[0].key, key)
    ensures Updated(es, key, x) == [es[0]] + Updated(es[1..], key, x)
  {
    KeyLessTotal(es[0].key, key);
  }

  lemma {:induction false} UpdatedBehind(a: seq<Entry>, b: seq<Entry>, key: Key, x: Option<Entry>)
    requires forall i :: 0 <= i < |a| ==> KeyLess(a[i].key, key)
    ensures Updated(a + b, key, x) == a + Updated(b, key, x)
    decreases |a|
  {
    if a == [] {
      assert a + b == b;
    } else {
      UpdatedBehind(a[1..], b, key, x);
      UpdatedStep(a + b, key, x);
      assert (a + b)[1..] == a[1..] + b;
    }
  }

  lemma {:induction false} UpdatedBefore(a: seq<Entry>, b: seq<Entry>, key: Key, x: Option<Entry>)
    requires forall i :: 0 <= i < |b| ==> KeyLess(key, b[i].key)
    ensures Updated(a + b, key, x) == Updated(a, key, x) + b
    decreases |a|
  {
    if a == [] {
      assert a + b == b;
    } else if !KeyLess(key, a[0].key) && key != a[0].key {
      UpdatedBefore(a[1..], b, key, x);
      assert (a + b)[1..] == a[1..] + b;
    } else {
      assert (a + b)[1..] == a[1..] + b;
    }
  }

  lemma SortedParts(a: seq<Entry>, m: Entry, b: seq<Entry>)
    requires IsSorted(a + [m] + b)
    ensures IsSorted(a) && IsSorted(b) && IsEntry(m)
    ensures forall i :: 0 <= i < |a| ==> KeyLess(a[i].key, m.key)
    ensures forall i :: 0 <= i < |b| ==> KeyLess(m.key, b[i].key)
  {
    var es := a + [m] + b;
    assert es[|a|] == m;
    assert forall i :: 0 <= i < |a| ==> es[i] == a[i];
    assert forall i :: 0 <= i < |b| ==> es[|a| + 1 + i] == b[i];
  }

  /** In a sorted sequence, the place of the key is on the side where it compares. */
  lemma UpdatedLeft(a: seq<Entry>, m: Entry, b: seq<Entry>, key: Key, x: Option<Entry>)
    requires IsSorted(a + [m] + b) && KeyLess(key, m.key)
    ensures Updated(a + [m] + b, key, x) == Updated(a, key, x) + [m] + b
  {
    SortedParts(a, m, b);
    forall i | 0 <= i < |[m] + b|
      ensures KeyLess(key, ([m] + b)[i].key)
    {
      if i > 0 {
        KeyLessTransitive(key, m.key, b[i - 1].key);
      }
    }
    UpdatedBefore(a, [m] + b, key, x);
    assert a + [m] + b == a + ([m] + b);
  }

  lemma UpdatedRight(a: seq<Entry>, m: Entry, b: seq<Entry>, key: Key, x: Option<Entry>)
    requires IsSorted(a + [m] + b) && KeyLess(m.key, key)
    ensures Updated(a + [m] + b, key, x) == a + [m] + Updated(b, key, x)
  {
    SortedParts(a, m, b);
    forall i | 0 <= i < |a + [m]|
      ensures KeyLess((a + [m])[i].key, key)
    {
      if i < |a| {
        KeyLessTransitive(a[i].key, m.key, key);
      }
    }
    UpdatedBehind(a + [m], b, key, x);
  }

  lemma UpdatedHere(a: seq<Entry>, m: Entry, b: seq<Entry>, x: Option<Entry>)
    requires IsSorted(a + [m] + b)
    ensures Updated(a + [m] + b, m.key, x) == a + Optional(x) + b
  {
    SortedParts(a, m, b);
    UpdatedBehind(a, [m] + b, m.key, x);
    KeyLessTotal(m.key, m.key);
    assert a + [m] + b == a + ([m] + b);
    assert ([m] + b)[1..] == b;
  }

  /** What a comparison at the root tells about the order of keys. */
  lemma AtRoot(t: Tree, e: Entry) returns (c: int)
    requires t.Node? && IsEntry(e) && IsSorted(Flat(t)) && TellsAll(Flat(t), e.key)
    ensures IsEntry(t.entry) && IsSorted(Flat(t.left)) && IsSorted(Flat(t.right)) && c == EntryCompare(e, t.entry)
    ensures TellsAll(Flat(t.left), e.key) && TellsAll(Flat(t.right), e.key)
    ensures c < 0 ==> KeyLess(e.key, t.entry.key)
    ensures c > 0 ==> KeyLess(t.entry.key, e.key)
    ensures c == 0 ==> e.key == t.entry.key
  {
    var a, m, b := Flat(t.left), t.entry, Flat(t.right);
    SortedParts(a, m, b);
    assert (a + [m] + b)[|a|] == m;
    assert forall i :: 0 <= i < |a| ==> Flat(t)[i] == a[i];
    assert forall i :: 0 <= i < |b| ==> Flat(t)[|a| + 1 + i] == b[i];
    CompareOrdersKeys(e, m);
    c := EntryCompare(e, m);
  }

  // ---------- Finding ----------

  function Find(t: Tree, probe: Entry): Option<Entry> {
    if t.Empty? then None else
      var c := EntryCompare(probe, t.entry);
      if c < 0 then Find(t.left, probe) else if c > 0 then Find(t.right, probe) else Some(t.entry)
  }

  /** The entry of the key in a sequence, if there is one. */
  predicate IsLookup(es: seq<Entry>, key: Key, found: Option<Entry>) {
    match found
    case None => forall i :: 0 <= i < |es| ==> es[i].key != key
    case Some(e) => e in es && e.key == key
  }

  lemma {:induction false} FindLooksUp(t: Tree, probe: Entry)
    requires IsEntry(probe) && IsSorted(Flat(t)) && TellsAll(Flat(t), probe.key)
    ensures IsLookup(Flat(t), probe.key, Find(t, probe))
    decreases t
  {
    if t.Node? {
      var a, m, b := Flat(t.left), t.entry, Flat(t.right);
      SortedParts(a, m, b);
      var c := AtRoot(t, probe);
      if c < 0 {
        FindLooksUp(t.left, probe);
        NotBehind(probe.key, m, b);
      } else if c > 0 {
        FindLooksUp(t.right, probe);
        NotBefore(probe.key, m, a);
      } else {
        assert (a + [m] + b)[|a|] == m;
      }
    }
  }

  lemma NotBehind(key: Key, m: Entry, b: seq<Entry>)
    requires KeyLess(key, m.key) && forall i :: 0 <= i < |b| ==> KeyLess(m.key, b[i].key)
    ensures key != m.key && forall i :: 0 <= i < |b| ==> b[i].key != key
  {
    KeyLessTotal(key, m.key);
    forall i | 0 <= i < |b|
      ensures b[i].key != key
    {
      KeyLessTotal(m.key, b[i].key);
    }
  }

  lemma NotBefore(key: Key, m: Entry, a: seq<Entry>)
    requires KeyLess(m.key, key) && forall i :: 0 <= i < |a| ==> KeyLess(a[i].key, m.key)
    ensures key != m.key && forall i :: 0 <= i < |a| ==> a[i].key != key
  {
    KeyLessTotal(key, m.key);
    forall i | 0 <= i < |a|
      ensures a[i].key != key
    {
      KeyLessTotal(m.key, a[i].key);
    }
  }

  /** The loop of the search. */
  method FindLoop(t: Tree, probe: Entry) returns (found: Option<Entry>)
    ensures found == Find(t, probe)
  {
    var curNode := t;
    while curNode.Node?
      invariant Find(curNode, probe) == Find(t, probe)
      decreases curNode
    {
      var cmpResult := EntryCompare(probe, curNode.entry);
      if cmpResult < 0 {
        curNode := curNode.left;
      } else if cmpResult > 0 {
        curNode := curNode.right;
      } else {
        return Some(curNode.entry);
      }
    }
    return None;
  }

  // ---------- Inserting ----------

  function InsertImpl(t: Tree, e: Entry): (Tree, bool)
    requires DepthsOk(t)
    ensures DepthsOk(InsertImpl(t, e).0) && InsertImpl(t, e).0.Node?
  {
    if t.Empty? then (Node(Empty, e, Empty, 1), true) else
      var c := EntryCompare(e, t.entry);
      if c == 0 then (t.(entry := e), false) else
        var (child, inserted) := InsertImpl(if c < 0 then t.left else t.right, e);
        var grown := UpdateDepth(if c < 0 then t.(left := child) else t.(right := child));
        RebalanceDepths(grown);
        (Rebalance(grown), inserted)
  }

  /** The entry takes the place of the key, new or not. */
  lemma {:induction false} InsertUpdates(t: Tree, e: Entry)
    requires IsEntry(e) && IsSorted(Flat(t)) && DepthsOk(t) && TellsAll(Flat(t), e.key)
    ensures Flat(InsertImpl(t, e).0) == Updated(Flat(t), e.key, Some(e))
    ensures InsertImpl(t, e).1 <==> Find(t, e) == None
    decreases t
  {
    if t.Node? {
      var a, m, b := Flat(t.left), t.entry, Flat(t.right);
      var c := AtRoot(t, e);
      if c < 0 {
        InsertUpdates(t.left, e);
        RebalanceKeeps(UpdateDepth(t.(left := InsertImpl(t.left, e).0)));
        UpdatedLeft(a, m, b, e.key, Some(e));
      } else if c > 0 {
        InsertUpdates(t.right, e);
        RebalanceKeeps(UpdateDepth(t.(right := InsertImpl(t.right, e).0)));
        UpdatedRight(a, m, b, e.key, Some(e));
      } else {
        UpdatedHere(a, m, b, Some(e));
      }
    }
  }

  /** Insertion alone keeps a tree balanced. */
  lemma {:induction false} InsertBalances(t: Tree, e: Entry)
    requires DepthsOk(t) && Balanced(t)
    ensures Grown(t, InsertImpl(t, e).0)
    decreases t
  {
    if t.Node? {
      var c := EntryCompare(e, t.entry);
      if c < 0 {
        InsertBalances(t.left, e);
        LeftGrows(t, InsertImpl(t.left, e).0);
      } else if c > 0 {
        InsertBalances(t.right, e);
        RightGrows(t, InsertImpl(t.right, e).0);
      }
    }
  }

  /** A child has not become shallower, and if it has become deeper it is new or leans to one side. */
  predicate Grown(was: Tree, child: Tree) {
    && DepthsOk(child) && Balanced(child) && child.Node?
    && GetDepth(was) <= GetDepth(child) <= GetDepth(was) + 1
    && (GetDepth(child) == GetDepth(was) + 1 ==> was.Empty? || GetBalanceFactor(child) != 0)
  }

  lemma LeftGrows(t: Tree, child: Tree)
    requires t.Node? && DepthsOk(t) && Balanced(t) && Grown(t.left, child)
    ensures var grown := UpdateDepth(t.(left := child)); NodeOk(grown) && Grown(t, Rebalance(grown))
  {
    var grown := UpdateDepth(t.(left := child));
    DepthIsNatural(t.left);
    DepthIsNatural(t.right);
    DepthIsNatural(child.left);
    DepthIsNatural(child.right);
    RebalanceBalances(grown);
    RebalanceDepths(grown);
    if child.right.Node? {
      DepthIsNatural(child.right.left);
      DepthIsNatural(child.right.right);
    }
  }

  lemma RightGrows(t: Tree, child: Tree)
    requires t.Node? && DepthsOk(t) && Balanced(t) && Grown(t.right, child)
    ensures var grown := UpdateDepth(t.(right := child)); NodeOk(grown) && Grown(t, Rebalance(grown))
  {
    var grown := UpdateDepth(t.(right := child));
    DepthIsNatural(t.left);
    DepthIsNatural(t.right);
    DepthIsNatural(child.left);
    DepthIsNatural(child.right);
    RebalanceBalances(grown);
    RebalanceDepths(grown);
    if child.left.Node? {
      DepthIsNatural(child.left.left);
      DepthIsNatural(child.left.right);
    }
  }

  // ---------- Removing ----------

  function Size(t: Tree): nat {
    if t.Empty? then 0 else Size(t.left) + 1 + Size(t.right)
  }

  function Minimal(t: Tree): Entry
    requires t.Node?
  {
    if t.left.Empty? then t.entry else Minimal(t.left)
  }

  /** The tree with another entry in its leftmost node. */
  function WithMinimal(t: Tree, e: Entry): (u: Tree)
    requires t.Node?
    ensures Size(u) == Size(t) && u.Node? && u.depth == t.depth
  {
    if t.left.Empty? then t.(entry := e) else t.(left := WithMinimal(t.left, e))
  }

  lemma {:induction false} WithMinimalDepths(t: Tree, e: Entry)
    requires t.Node? && DepthsOk(t)
    ensures DepthsOk(WithMinimal(t, e))
    decreases t
  {
    if t.left.Node? {
      WithMinimalDepths(t.left, e);
    }
  }

  lemma {:induction false} MinimalIsFirst(t: Tree, e: Entry)
    requires t.Node?
    ensures Flat(t) != [] && Minimal(t) == Flat(t)[0]
    ensures Flat(WithMinimal(t, e)) == [e] + Flat(t)[1..]
    decreases t
  {
    if t.left.Node? {
      MinimalIsFirst(t.left, e);
      HeadOfThree(Flat(t.left), [t.entry], Flat(t.right), [e]);
    }
  }

  lemma HeadOfThree(a: seq<Entry>, m: seq<Entry>, b: seq<Entry>, e: seq<Entry>)
    requires a != []
    ensures (a + m + b)[0] == a[0] && e + (a + m + b)[1..] == e + a[1..] + m + b
  {
    assert (a + m + b)[1..] == a[1..] + m + b;
  }

  lemma HeadReplaced(m: Entry, b: seq<Entry>)
    requires b != [] && IsSorted([m] + b)
    ensures IsSorted([m] + b[1..])
  {
    var es, fs := [m] + b, [m] + b[1..];
    forall i | 0 <= i < |fs|
      ensures fs[i] == es[if i == 0 then 0 else i + 1]
    {
    }
  }

  lemma HeadRemoved(m: Entry, b: seq<Entry>)
    ensures Updated([m] + b, m.key, None) == b
  {
    KeyLessTotal(m.key, m.key);
    assert ([m] + b)[1..] == b && Optional(None) + b == b;
  }

  lemma SortedTail(a: seq<Entry>, m: Entry, b: seq<Entry>)
    requires IsSorted(a + [m] + b)
    ensures IsSorted([m] + b)
  {
    assert forall i :: 0 <= i < |[m] + b| ==> ([m] + b)[i] == (a + [m] + b)[|a| + i];
  }

  function RemoveImpl(t: Tree, probe: Entry): (Tree, Option<Entry>)
    requires DepthsOk(t)
    ensures DepthsOk(RemoveImpl(t, probe).0)
    decreases Size(t)
  {
    if t.Empty? then (Empty, None) else
      var c := EntryCompare(probe, t.entry);
      if c < 0 then
        var (left, removed) := RemoveImpl(t.left, probe);
        Restored(t.(left := left), removed)
      else if c > 0 then
        var (right, removed) := RemoveImpl(t.right, probe);
        Restored(t.(right := right), removed)
      else if t.left.Empty? && t.right.Empty? then (Empty, Some(t.entry))
      else if t.left.Empty? || t.right.Empty? then
        assert DepthsOk(t.left) && DepthsOk(t.right);
        Restored(if t.left.Node? then t.left else t.right, Some(t.entry))
      else
        WithMinimalDepths(t.right, t.entry);
        var (right, removed) := RemoveImpl(WithMinimal(t.right, t.entry), t.entry);
        Restored(t.(entry := Minimal(t.right), right := right), removed)
  }

  /** The way back up from a removal. */
  function Restored(t: Tree, removed: Option<Entry>): (Tree, Option<Entry>)
    requires NodeOk(t)
    ensures DepthsOk(Restored(t, removed).0)
  {
    RebalanceDepths(UpdateDepth(t));
    (Rebalance(UpdateDepth(t)), removed)
  }

  lemma RestoredKeeps(t: Tree, removed: Option<Entry>)
    requires NodeOk(t)
    ensures Flat(Restored(t, removed).0) == Flat(t)
  {
    RebalanceKeeps(UpdateDepth(t));
  }

  predicate TellsApart(es: seq<Entry>) {
    forall i, j :: 0 <= i < |es| && 0 <= j < |es| ==> Tells(es[i].key, es[j].key)
  }

  lemma TellsParts(a: seq<Entry>, m: Entry, b: seq<Entry>)
    requires TellsApart(a + [m] + b)
    ensures TellsApart(a) && TellsApart(b)
  {
    var es := a + [m] + b;
    assert forall i :: 0 <= i < |a| ==> es[i] == a[i];
    assert forall i :: 0 <= i < |b| ==> es[|a| + 1 + i] == b[i];
  }

  lemma TellsWithHead(a: seq<Entry>, m: Entry, b: seq<Entry>)
    requires TellsApart(a + [m] + b) && b != []
    ensures TellsApart([m] + b[1..]) && TellsAll([m] + b[1..], m.key)
  {
    var es, fs := a + [m] + b, [m] + b[1..];
    assert forall i :: 0 <= i < |fs| ==> fs[i] == es[if i == 0 then |a| else |a| + 1 + i];
    assert forall i :: 0 <= i < |fs| ==> Tells(fs[0].key, fs[i].key);
  }

  lemma JoinedAtHead(a: seq<Entry>, b: seq<Entry>)
    requires b != []
    ensures a + [b[0]] + b[1..] == a + b
  {
  }

  /** With two children, the next entry comes up to the root and the one to remove goes down in its place. */
  lemma {:induction false} RemoveInner(t: Tree, probe: Entry)
    requires t.Node? && t.left.Node? && t.right.Node? && IsEntry(probe) && IsEntry(t.entry)
    requires IsSorted(Flat(t)) && DepthsOk(t) && TellsApart(Flat(t)) && EntryCompare(probe, t.entry) == 0
    ensures Flat(RemoveImpl(t, probe).0) == Flat(t.left) + Flat(t.right) && RemoveImpl(t, probe).1 == Some(t.entry)
    decreases Size(t), 0
  {
    SwappedDown(t);
    var right := RemoveFirst(WithMinimal(t.right, t.entry), t.entry, Flat(t.right)[1..]);
    RestoredKeeps(t.(entry := Minimal(t.right), right := right), Some(t.entry));
    JoinedAtHead(Flat(t.left), Flat(t.right));
  }

  lemma {:induction false} RemoveFirst(r: Tree, m: Entry, rest: seq<Entry>) returns (right: Tree)
    requires IsEntry(m) && Flat(r) == [m] + rest && IsSorted(Flat(r)) && DepthsOk(r)
    requires TellsApart(Flat(r)) && TellsAll(Flat(r), m.key)
    ensures RemoveImpl(r, m) == (right, Some(m)) && Flat(right) == rest && DepthsOk(right)
    decreases Size(r), 4
  {
    RemoveUpdates(r, m);
    HeadRemoved(m, rest);
    FindFirst(r, m);
    right := RemoveImpl(r, m).0;
  }

  lemma SwappedDown(t: Tree)
    requires t.Node? && t.right.Node? && IsSorted(Flat(t)) && DepthsOk(t) && TellsApart(Flat(t))
    ensures var r, b := WithMinimal(t.right, t.entry), Flat(t.right);
      && b != [] && Minimal(t.right) == b[0] && Flat(r) == [t.entry] + b[1..]
      && IsSorted(Flat(r)) && DepthsOk(r) && TellsApart(Flat(r)) && TellsAll(Flat(r), t.entry.key)
  {
    var a, m, b := Flat(t.left), t.entry, Flat(t.right);
    MinimalIsFirst(t.right, m);
    WithMinimalDepths(t.right, m);
    SortedTail(a, m, b);
    HeadReplaced(m, b);
    TellsWithHead(a, m, b);
  }

  lemma {:induction false} RemoveRoot(t: Tree, probe: Entry) returns (rest: Tree)
    requires t.Node? && IsEntry(probe) && IsEntry(t.entry) && IsSorted(Flat(t)) && DepthsOk(t) && TellsApart(Flat(t))
    requires EntryCompare(probe, t.entry) == 0
    ensures RemoveImpl(t, probe) == (rest, Some(t.entry)) && Flat(rest) == Flat(t.left) + Flat(t.right)
    decreases Size(t), 1
  {
    rest := RemoveImpl(t, probe).0;
    if t.left.Node? && t.right.Node? {
      RemoveInner(t, probe);
    } else if t.left.Node? || t.right.Node? {
      assert DepthsOk(t.left) && DepthsOk(t.right);
      RestoredKeeps(if t.left.Node? then t.left else t.right, Some(t.entry));
    }
  }

  /** An entry of the tree is found. */
  lemma FindFirst(t: Tree, e: Entry)
    requires IsEntry(e) && IsSorted(Flat(t)) && TellsAll(Flat(t), e.key) && Flat(t) != [] && Flat(t)[0] == e
    ensures Find(t, e) == Some(e)
  {
    FindLooksUp(t, e);
    var es := Flat(t);
    assert es[0].key == e.key;
    forall i | 0 < i < |es|
      ensures es[i].key != e.key
    {
      KeyLessTotal(es[0].key, es[i].key);
    }
  }

  lemma RemoveHere(t: Tree, probe: Entry) returns (rest: Tree)
    requires t.Node? && IsEntry(probe) && IsEntry(t.entry) && IsSorted(Flat(t)) && DepthsOk(t) && TellsApart(Flat(t))
    requires EntryCompare(probe, t.entry) == 0 && probe.key == t.entry.key
    ensures RemoveImpl(t, probe) == (rest, Some(t.entry)) && Flat(rest) == Updated(Flat(t), probe.key, None)
    decreases Size(t), 2
  {
    rest := RemoveRoot(t, probe);
    UpdatedWithout(Flat(t.left), t.entry, Flat(t.right));
  }

  lemma UpdatedWithout(a: seq<Entry>, m: Entry, b: seq<Entry>)
    requires IsSorted(a + [m] + b)
    ensures Updated(a + [m] + b, m.key, None) == a + b
  {
    UpdatedHere(a, m, b, None);
    assert a + [] + b == a + b;
  }

  lemma RemoveFromLeft(t: Tree, probe: Entry)
    requires t.Node? && DepthsOk(t) && IsSorted(Flat(t)) && EntryCompare(probe, t.entry) < 0
    requires KeyLess(probe.key, t.entry.key)
    requires Flat(RemoveImpl(t.left, probe).0) == Updated(Flat(t.left), probe.key, None)
    ensures Flat(RemoveImpl(t, probe).0) == Updated(Flat(t), probe.key, None)
  {
    RestoredKeeps(t.(left := RemoveImpl(t.left, probe).0), None);
    UpdatedLeft(Flat(t.left), t.entry, Flat(t.right), probe.key, None);
  }

  lemma RemoveFromRight(t: Tree, probe: Entry)
    requires t.Node? && DepthsOk(t) && IsSorted(Flat(t)) && EntryCompare(probe, t.entry) > 0
    requires KeyLess(t.entry.key, probe.key)
    requires Flat(RemoveImpl(t.right, probe).0) == Updated(Flat(t.right), probe.key, None)
    ensures Flat(RemoveImpl(t, probe).0) == Updated(Flat(t), probe.key, None)
  {
    RestoredKeeps(t.(right := RemoveImpl(t.right, probe).0), None);
    UpdatedRight(Flat(t.left), t.entry, Flat(t.right), probe.key, None);
  }

  /** The entry of the key is taken out and returned. */
  lemma {:induction false} RemoveUpdates(t: Tree, probe: Entry)
    requires IsEntry(probe) && IsSorted(Flat(t)) && DepthsOk(t) && TellsAll(Flat(t), probe.key) && TellsApart(Flat(t))
    ensures Flat(RemoveImpl(t, probe).0) == Updated(Flat(t), probe.key, None)
    ensures RemoveImpl(t, probe).1 == Find(t, probe)
    decreases Size(t), 3
  {
    if t.Node? {
      var a, m, b := Flat(t.left), t.entry, Flat(t.right);
      var c := AtRoot(t, probe);
      TellsParts(a, m, b);
      if c < 0 {
        RemoveUpdates(t.left, probe);
        RemoveFromLeft(t, probe);
      } else if c > 0 {
        RemoveUpdates(t.right, probe);
        RemoveFromRight(t, probe);
      } else {
        var _ := RemoveHere(t, probe);
      }
    }
  }

  // ---------- Members after an update ----------

  lemma {:induction false} UpdatedMembers(es: seq<Entry>, key: Key, x: Option<Entry>, e: Entry)
    requires IsSorted(es) && (x.Some? ==> x.value.key == key)
    ensures e in Updated(es, key, x) <==> (e in es && e.key != key) || x == Some(e)
    decreases |es|
  {
    if es != [] {
      assert es == [es[0]] + es[1..];
      KeyLessTotal(key, es[0].key);
      forall i | 0 < i < |es| && !KeyLess(es[0].key, key)
        ensures es[i].key != key
      {
        NotBehindHead(es, i, key);
      }
      if KeyLess(es[0].key, key) {
        UpdatedMembers(es[1..], key, x, e);
      }
    }
  }

  lemma NotBehindHead(es: seq<Entry>, i: nat, key: Key)
    requires IsSorted(es) && 0 < i < |es| && (key == es[0].key || KeyLess(key, es[0].key))
    ensures es[i].key != key
  {
    KeyLessTotal(es[0].key, es[i].key);
  }

  lemma {:induction false} UpdatedIsSorted(es: seq<Entry>, key: Key, x: Option<Entry>)
    requires IsSorted(es) && (x.Some? ==> x.value.key == key && IsEntry(x.value))
    ensures IsSorted(Updated(es, key, x))
    decreases |es|
  {
    if es != [] {
      KeyLessTotal(key, es[0].key);
      if KeyLess(key, es[0].key) {
        SortedWithHead(key, x, es);
      } else if key == es[0].key {
        SortedWithHead(key, x, es[1..]);
      } else {
        UpdatedIsSorted(es[1..], key, x);
        var rest := Updated(es[1..], key, x);
        forall i | 0 <= i < |rest|
          ensures KeyLess(es[0].key, rest[i].key)
        {
          UpdatedMembers(es[1..], key, x, rest[i]);
        }
        SortedWithHead(es[0].key, Some(es[0]), rest);
      }
    }
  }

  lemma SortedWithHead(key: Key, x: Option<Entry>, es: seq<Entry>)
    requires IsSorted(es) && (x.Some? ==> x.value.key == key && IsEntry(x.value))
    requires es != [] ==> KeyLess(key, es[0].key)
    ensures IsSorted(Optional(x) + es)
  {
    if x.Some? {
      var fs := [x.value] + es;
      forall i, j | 0 <= i < j < |fs|
        ensures KeyLess(fs[i].key, fs[j].key)
      {
        if i == 0 {
          if j > 1 {
            KeyLessTransitive(key, es[0].key, es[j - 1].key);
          }
        } else {
          assert KeyLess(es[i - 1].key, es[j - 1].key);
        }
      }
    } else {
      assert Optional(x) + es == es;
    }
  }
}
