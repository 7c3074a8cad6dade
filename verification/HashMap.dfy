/** A hash map whose buckets are AVL trees and which grows by doubling. */
module HashMap {
  import opened AvlTree
  import opened Options

  const START_CAPACITY: nat := 10

  /** The hash tells all keys of one length apart. */
  ghost predicate NoClash(keys: set<Key>) {
    forall a, b :: a in keys && b in keys ==> Tells(a, b)
  }

  // ---------- Buckets ----------

  function Home(key: Key, capacity: nat): nat
    requires capacity > 0
  {
    Djb2(key) % capacity
  }

  predicate BucketOk(t: Tree, i: nat, capacity: nat)
    requires capacity > 0
  {
    && DepthsOk(t) && IsSorted(Flat(t))
    && forall e :: e in Flat(t) ==> Home(e.key, capacity) == i && e.data != 0
  }

  predicate Stored(buckets: seq<Tree>, key: Key, data: int)
    requires buckets != []
  {
    MakeEntry(key, data) in Flat(buckets[Home(key, |buckets|)])
  }

  predicate AllBucketsOk(buckets: seq<Tree>) {
    buckets != [] && forall i :: 0 <= i < |buckets| ==> BucketOk(buckets[i], i, |buckets|)
  }

  /** The buckets hold exactly the pairs of the map. */
  ghost predicate Represents(buckets: seq<Tree>, m: map<Key, int>)
    requires buckets != []
  {
    forall key, data :: Stored(buckets, key, data) <==> key in m && m[key] == data
  }

  ghost predicate Holds(buckets: seq<Tree>, m: map<Key, int>) {
    AllBucketsOk(buckets) && Represents(buckets, m)
  }

  lemma EntryIsMade(e: Entry)
    requires IsEntry(e)
    ensures e == MakeEntry(e.key, e.data)
  {
  }

  /** The keys of a bucket are keys of the map. */
  lemma BucketKeys(buckets: seq<Tree>, m: map<Key, int>, i: nat, e: Entry)
    requires Holds(buckets, m) && i < |buckets| && e in Flat(buckets[i])
    ensures e.key in m && m[e.key] == e.data && IsEntry(e)
  {
    assert BucketOk(buckets[i], i, |buckets|);
    var k :| 0 <= k < |Flat(buckets[i])| && Flat(buckets[i])[k] == e;
    EntryIsMade(e);
    assert Stored(buckets, e.key, e.data);
  }

  lemma BucketTells(buckets: seq<Tree>, m: map<Key, int>, i: nat, key: Key)
    requires Holds(buckets, m) && i < |buckets| && NoClash(m.Keys + {key})
    ensures TellsAll(Flat(buckets[i]), key) && TellsApart(Flat(buckets[i]))
  {
    var es := Flat(buckets[i]);
    forall j | 0 <= j < |es|
      ensures es[j].key in m
    {
      BucketKeys(buckets, m, i, es[j]);
    }
  }

  /** A bucket whose entry for one key gives way to x makes the map do so. */
  lemma BucketUpdated(buckets: seq<Tree>, m: map<Key, int>, key: Key, x: Option<Entry>, t: Tree)
    requires Holds(buckets, m) && (x.Some? ==> x.value == MakeEntry(key, x.value.data) && x.value.data != 0)
    requires DepthsOk(t) && Flat(t) == Updated(Flat(buckets[Home(key, |buckets|)]), key, x)
    ensures Holds(buckets[Home(key, |buckets|) := t], if x.None? then m - {key} else m[key := x.value.data])
  {
    var i, after := Home(key, |buckets|), buckets[Home(key, |buckets|) := t];
    var es := Flat(buckets[i]);
    assert BucketOk(buckets[i], i, |buckets|);
    UpdatedIsSorted(es, key, x);
    forall e
      ensures e in Flat(t) <==> (e in es && e.key != key) || x == Some(e)
    {
      UpdatedMembers(es, key, x, e);
    }
    forall j | 0 <= j < |after|
      ensures BucketOk(after[j], j, |after|)
    {
      assert BucketOk(buckets[j], j, |buckets|);
    }
    UpdatedRepresents(buckets, m, key, x, t);
  }

  lemma UpdatedRepresents(buckets: seq<Tree>, m: map<Key, int>, key: Key, x: Option<Entry>, t: Tree)
    requires buckets != [] && Represents(buckets, m) && (x.Some? ==> x.value == MakeEntry(key, x.value.data))
    requires forall e :: e in Flat(t) <==> (e in Flat(buckets[Home(key, |buckets|)]) && e.key != key) || x == Some(e)
    ensures Represents(buckets[Home(key, |buckets|) := t], if x.None? then m - {key} else m[key := x.value.data])
  {
    var i, after := Home(key, |buckets|), buckets[Home(key, |buckets|) := t];
    var m' := if x.None? then m - {key} else m[key := x.value.data];
    forall k, d
      ensures Stored(after, k, d) <==> k in m' && m'[k] == d
    {
      assert Stored(buckets, k, d) <==> k in m && m[k] == d;
    }
  }

  function EmptyBuckets(capacity: nat): seq<Tree> {
    seq(capacity, _ => Empty)
  }

  lemma EmptyHolds(capacity: nat)
    requires capacity > 0
    ensures Holds(EmptyBuckets(capacity), map[])
  {
  }

  /** The search in the bucket of a key finds what the map binds to it. */
  lemma FoundIffStored(buckets: seq<Tree>, m: map<Key, int>, probe: Entry)
    requires Holds(buckets, m) && IsEntry(probe) && NoClash(m.Keys + {probe.key})
    ensures var found := Find(buckets[Home(probe.key, |buckets|)], probe);
      if found.None? then probe.key !in m else probe.key in m && m[probe.key] == found.value.data
  {
    var i := Home(probe.key, |buckets|);
    assert BucketOk(buckets[i], i, |buckets|);
    BucketTells(buckets, m, i, probe.key);
    FindLooksUp(buckets[i], probe);
    var found := Find(buckets[i], probe);
    if found.Some? {
      BucketKeys(buckets, m, i, found.value);
    } else {
      assert probe.key in m ==> Stored(buckets, probe.key, m[probe.key]);
    }
  }

  /** One map is part of another. */
  ghost predicate Within(m: map<Key, int>, n: map<Key, int>) {
    forall k :: k in m ==> k in n && n[k] == m[k]
  }

  ghost predicate Bound(m: map<Key, int>, e: Entry) {
    e.key in m && m[e.key] == e.data
  }

  lemma BucketBound(buckets: seq<Tree>, m: map<Key, int>, i: nat)
    requires Holds(buckets, m) && i < |buckets|
    ensures forall e :: e in Flat(buckets[i]) ==> IsEntry(e) && e.data != 0 && Bound(m, e)
  {
    assert BucketOk(buckets[i], i, |buckets|);
    forall e | e in Flat(buckets[i])
      ensures IsEntry(e) && Bound(m, e)
    {
      BucketKeys(buckets, m, i, e);
    }
  }

  lemma AllMoved(buckets: seq<Tree>, m: map<Key, int>, n: map<Key, int>)
    requires Holds(buckets, m) && Within(n, m)
    requires forall j, e :: 0 <= j < |buckets| && e in Flat(buckets[j]) ==> e.key in n
    ensures n == m
  {
    forall k | k in m
      ensures k in n
    {
      assert Stored(buckets, k, m[k]);
    }
  }

  // ---------- Operations on tables ----------

  datatype Table = Table(buckets: seq<Tree>, size: int, capacity: nat, loadFactor: real, threshold: int)

  predicate AllDepthsOk(buckets: seq<Tree>) {
    buckets != [] && forall i :: 0 <= i < |buckets| ==> DepthsOk(buckets[i])
  }

  predicate IsTable(t: Table) {
    t.capacity == |t.buckets| && AllDepthsOk(t.buckets)
  }

  function Threshold(loadFactor: real, capacity: nat): int {
    (loadFactor * capacity as real).Floor
  }

  function NewTable(): Table {
    Table(EmptyBuckets(START_CAPACITY), 0, START_CAPACITY, 0.75, Threshold(0.75, START_CAPACITY))
  }

  /** Into the bucket of its hash; a new entry takes the place of an equal one. */
  function WithEntry(buckets: seq<Tree>, e: Entry): (r: (seq<Tree>, bool))
    requires AllDepthsOk(buckets)
    ensures AllDepthsOk(r.0) && |r.0| == |buckets|
  {
    var i := e.hash % |buckets|;
    var (head, isNew) := InsertImpl(buckets[i], e);
    (buckets[i := head], isNew)
  }

  /** In the order of the tree, every entry goes to its bucket. */
  function WithTree(buckets: seq<Tree>, t: Tree): (r: seq<Tree>)
    requires AllDepthsOk(buckets)
    ensures AllDepthsOk(r) && |r| == |buckets|
    decreases t
  {
    if t.Empty? then buckets else WithTree(WithEntry(WithTree(buckets, t.left), t.entry).0, t.right)
  }

  function WithTrees(buckets: seq<Tree>, ts: seq<Tree>): (r: seq<Tree>)
    requires AllDepthsOk(buckets)
    ensures AllDepthsOk(r) && |r| == |buckets|
  {
    if ts == [] then buckets else WithTree(WithTrees(buckets, ts[..|ts| - 1]), ts[|ts| - 1])
  }

  function Resized(t: Table): (r: Table)
    requires IsTable(t)
    ensures IsTable(r)
  {
    var capacity := t.capacity * 2;
    t.(buckets := WithTrees(EmptyBuckets(capacity), t.buckets), capacity := capacity,
       threshold := Threshold(t.loadFactor, capacity))
  }

  function PutIn(t: Table, key: Key, data: int): (r: (Table, bool))
    requires IsTable(t)
    ensures IsTable(r.0)
  {
    if data == 0 then (t, false) else
      var (buckets, inserted) := WithEntry(t.buckets, MakeEntry(key, data));
      if !inserted then (t.(buckets := buckets), false) else
        var larger := t.(buckets := buckets, size := t.size + 1);
        (if larger.size >= larger.threshold then Resized(larger) else larger, true)
  }

  function GetFrom(t: Table, key: Key): int
    requires IsTable(t)
  {
    var probe := MakeEntry(key, 0);
    var found := Find(t.buckets[probe.hash % t.capacity], probe);
    if found.None? then 0 else found.value.data
  }

  function RemoveFrom(t: Table, key: Key): (r: (Table, int))
    requires IsTable(t)
    ensures IsTable(r.0)
  {
    var probe := MakeEntry(key, 0);
    var i := probe.hash % t.capacity;
    var (head, removed) := RemoveImpl(t.buckets[i], probe);
    var rest := t.(buckets := t.buckets[i := head]);
    if removed.None? then (rest, 0) else (rest.(size := t.size - 1), removed.value.data)
  }

  function WithLoadFactor(t: Table, factor: real): Table {
    t.(loadFactor := factor, threshold := Threshold(factor, t.capacity))
  }

  // ---------- Refinement of a finite map ----------

  ghost predicate Refines(t: Table, m: map<Key, int>) {
    t.capacity == |t.buckets| && Holds(t.buckets, m) && t.size == |m|
  }

  lemma HoldsDepths(buckets: seq<Tree>, m: map<Key, int>)
    requires Holds(buckets, m)
    ensures AllDepthsOk(buckets)
  {
    assert forall i :: 0 <= i < |buckets| ==> BucketOk(buckets[i], i, |buckets|);
  }

  lemma EntryHolds(buckets: seq<Tree>, m: map<Key, int>, e: Entry) returns (after: seq<Tree>)
    requires Holds(buckets, m) && IsEntry(e) && e.data != 0 && NoClash(m.Keys + {e.key})
    ensures AllDepthsOk(buckets) && WithEntry(buckets, e) == (after, e.key !in m)
    ensures Holds(after, m[e.key := e.data])
  {
    HoldsDepths(buckets, m);
    after := WithEntry(buckets, e).0;
    var i := e.hash % |buckets|;
    BucketTells(buckets, m, i, e.key);
    var t := buckets[i];
    assert BucketOk(t, i, |buckets|);
    InsertUpdates(t, e);
    EntryIsMade(e);
    FoundIffStored(buckets, m, e);
    BucketUpdated(buckets, m, e.key, Some(e), InsertImpl(t, e).0);
  }

  lemma {:induction false} TreeHolds(buckets: seq<Tree>, m: map<Key, int>, t: Tree, all: map<Key, int>)
    returns (after: seq<Tree>, m': map<Key, int>)
    requires Holds(buckets, m) && NoClash(all.Keys) && Within(m, all)
    requires forall e :: e in Flat(t) ==> IsEntry(e) && e.data != 0 && Bound(all, e)
    ensures AllDepthsOk(buckets) && WithTree(buckets, t) == after
    ensures Holds(after, m') && Within(m, m') && Within(m', all) && forall e :: e in Flat(t) ==> e.key in m'
    decreases t
  {
    HoldsDepths(buckets, m);
    after, m' := buckets, m;
    if t.Node? {
      after, m' := TreeHolds(buckets, m, t.left, all);
      assert t.entry in Flat(t);
      assert m'.Keys + {t.entry.key} <= all.Keys;
      after := EntryHolds(after, m', t.entry);
      m' := m'[t.entry.key := t.entry.data];
      after, m' := TreeHolds(after, m', t.right, all);
    }
  }

  lemma {:induction false} TreesHold(was: seq<Tree>, all: map<Key, int>, n: nat, capacity: nat)
    returns (after: seq<Tree>, m: map<Key, int>)
    requires Holds(was, all) && NoClash(all.Keys) && n <= |was| && capacity > 0
    ensures WithTrees(EmptyBuckets(capacity), was[..n]) == after
    ensures Holds(after, m) && Within(m, all)
    ensures forall j, e :: 0 <= j < n && e in Flat(was[j]) ==> e.key in m
    decreases n
  {
    if n == 0 {
      EmptyHolds(capacity);
      after, m := EmptyBuckets(capacity), map[];
    } else {
      var after', m' := TreesHold(was, all, n - 1, capacity);
      BucketBound(was, all, n - 1);
      after, m := TreeHolds(after', m', was[n - 1], all);
      assert was[..n][..n - 1] == was[..n - 1];
    }
  }

  lemma ResizedRefines(t: Table, m: map<Key, int>)
    requires Refines(t, m) && NoClash(m.Keys)
    ensures IsTable(t) && Refines(Resized(t), m)
  {
    HoldsDepths(t.buckets, m);
    var after, m' := TreesHold(t.buckets, m, |t.buckets|, t.capacity * 2);
    assert t.buckets[..|t.buckets|] == t.buckets;
    AllMoved(t.buckets, m, m');
  }

  function PutInMap(m: map<Key, int>, key: Key, data: int): map<Key, int> {
    if data == 0 then m else m[key := data]
  }

  lemma PutRefines(t: Table, m: map<Key, int>, key: Key, data: int)
    requires Refines(t, m) && NoClash(m.Keys + {key})
    ensures IsTable(t) && Refines(PutIn(t, key, data).0, PutInMap(m, key, data))
    ensures PutIn(t, key, data).1 <==> data != 0 && key !in m
  {
    HoldsDepths(t.buckets, m);
    if data != 0 {
      var after := EntryHolds(t.buckets, m, MakeEntry(key, data));
      var m' := m[key := data];
      assert m'.Keys == m.Keys + {key};
      if key !in m {
        var larger := t.(buckets := after, size := t.size + 1);
        ResizedRefines(larger, m');
      }
    }
  }

  lemma GetRefines(t: Table, m: map<Key, int>, key: Key)
    requires Refines(t, m) && NoClash(m.Keys + {key})
    ensures IsTable(t) && GetFrom(t, key) == if key in m then m[key] else 0
  {
    HoldsDepths(t.buckets, m);
    FoundIffStored(t.buckets, m, MakeEntry(key, 0));
  }

  lemma RemoveRefines(t: Table, m: map<Key, int>, key: Key)
    requires Refines(t, m) && NoClash(m.Keys + {key})
    ensures IsTable(t) && Refines(RemoveFrom(t, key).0, m - {key})
    ensures RemoveFrom(t, key).1 == if key in m then m[key] else 0
  {
    HoldsDepths(t.buckets, m);
    var probe := MakeEntry(key, 0);
    var i := probe.hash % t.capacity;
    var bucket := t.buckets[i];
    BucketTells(t.buckets, m, i, key);
    assert BucketOk(bucket, i, |t.buckets|);
    RemoveUpdates(bucket, probe);
    FoundIffStored(t.buckets, m, probe);
    BucketUpdated(t.buckets, m, key, None, RemoveImpl(bucket, probe).0);
    if key in m {
      assert m.Keys == (m - {key}).Keys + {key};
    } else {
      assert m - {key} == m;
    }
  }

  // ---------- The map ----------

  class HashMap {
    var buckets: seq<Tree>
    var size: int
    var capacity: nat
    var loadFactor: real
    var threshold: int

    function Contents(): Table
      reads this
    {
      Table(buckets, size, capacity, loadFactor, threshold)
    }

    constructor ()
      ensures IsTable(Contents()) && Refines(Contents(), map[]) && Contents() == NewTable()
    {
      size := 0;
      capacity := START_CAPACITY;
      loadFactor := 0.75;
      threshold := Threshold(0.75, START_CAPACITY);
      buckets := EmptyBuckets(START_CAPACITY);
      new;
      EmptyHolds(START_CAPACITY);
    }

    method CalculateThreshold()
      modifies this`threshold
      ensures threshold == Threshold(loadFactor, capacity)
    {
      threshold := (loadFactor * capacity as real).Floor;
    }

    method SetLoadFactor(factor: real)
      modifies this`loadFactor, this`threshold
      ensures loadFactor == factor && threshold == Threshold(factor, capacity)
      ensures forall m :: Refines(old(Contents()), m) ==> Refines(Contents(), m)
    {
      loadFactor := factor;
      CalculateThreshold();
    }

    /** Into the bucket of its hash. */
    method InsertEntry(e: Entry) returns (inserted: bool)
      requires IsTable(Contents())
      modifies this`buckets
      ensures IsTable(Contents()) && (buckets, inserted) == WithEntry(old(buckets), e)
    {
      var bucketIndex := e.hash % capacity;
      var (head, isNew) := InsertImpl(buckets[bucketIndex], e);
      buckets := buckets[bucketIndex := head];
      inserted := isNew;
    }

    /**
     * Without clashing keys, null data are refused, the key is bound to the data otherwise, and true means that it
     * was not bound before.
     */
    method Put(key: Key, data: int) returns (inserted: bool)
      requires IsTable(Contents())
      modifies this
      ensures IsTable(Contents()) && (Contents(), inserted) == PutIn(old(Contents()), key, data)
      ensures forall m :: Refines(old(Contents()), m) && NoClash(m.Keys + {key}) ==>
        Refines(Contents(), PutInMap(m, key, data)) && (inserted <==> data != 0 && key !in m)
    {
      forall m | Refines(Contents(), m) && NoClash(m.Keys + {key})
        ensures Refines(PutIn(Contents(), key, data).0, PutInMap(m, key, data))
        ensures PutIn(Contents(), key, data).1 <==> data != 0 && key !in m
      {
        PutRefines(Contents(), m, key, data);
      }
      inserted := PutRaw(key, data);
    }

    method PutRaw(key: Key, data: int) returns (inserted: bool)
      requires IsTable(Contents())
      modifies this
      ensures (Contents(), inserted) == PutIn(old(Contents()), key, data)
    {
      if data == 0 {
        return false;
      }
      var hash := Djb2Hash(key);
      inserted := InsertEntry(Entry(key, data, hash));
      if inserted {
        size := size + 1;
        if size >= threshold {
          Resize();
        }
      }
    }

    /** In the order of the tree, every entry of an old bucket goes to its new one. */
    method Transfer(t: Tree)
      requires IsTable(Contents())
      modifies this`buckets
      ensures IsTable(Contents()) && buckets == WithTree(old(buckets), t)
      decreases t
    {
      if t.Node? {
        Transfer(t.left);
        var _ := InsertEntry(t.entry);
        Transfer(t.right);
      }
    }

    /** Every entry goes from its old bucket to one of twice as many. */
    method Resize()
      requires IsTable(Contents())
      modifies this`buckets, this`capacity, this`threshold
      ensures Contents() == Resized(old(Contents())) && capacity == |buckets| == 2 * old(capacity)
    {
      var oldCapacity, oldBuckets := capacity, buckets;
      capacity := capacity * 2;
      CalculateThreshold();
      buckets := EmptyBuckets(capacity);
      ghost var empty := buckets;
      for i := 0 to oldCapacity
        invariant IsTable(Contents()) && buckets == WithTrees(empty, oldBuckets[..i])
        invariant capacity == 2 * oldCapacity && threshold == Threshold(loadFactor, capacity)
      {
        Transfer(oldBuckets[i]);
        assert oldBuckets[..i + 1][..i] == oldBuckets[..i];
      }
      assert oldBuckets[..oldCapacity] == oldBuckets;
    }

    /** Without clashing keys, the key is unbound, and what it was bound to is returned. */
    method Remove(key: Key) returns (data: int)
      requires IsTable(Contents())
      modifies this
      ensures IsTable(Contents()) && (Contents(), data) == RemoveFrom(old(Contents()), key)
      ensures forall m :: Refines(old(Contents()), m) && NoClash(m.Keys + {key}) ==>
        Refines(Contents(), m - {key}) && data == if key in m then m[key] else 0
    {
      forall m | Refines(Contents(), m) && NoClash(m.Keys + {key})
        ensures Refines(RemoveFrom(Contents(), key).0, m - {key})
        ensures RemoveFrom(Contents(), key).1 == if key in m then m[key] else 0
      {
        RemoveRefines(Contents(), m, key);
      }
      var hash := Djb2Hash(key);
      var bucketIndex := hash % capacity;
      var (head, removedEntry) := RemoveImpl(buckets[bucketIndex], Entry(key, 0, hash));
      buckets := buckets[bucketIndex := head];
      data := 0;
      if removedEntry.Some? {
        size := size - 1;
        data := removedEntry.value.data;
      }
    }

    /** Without clashing keys, what the key is bound to, or null. */
    method Get(key: Key) returns (data: int)
      requires IsTable(Contents())
      ensures data == GetFrom(Contents(), key)
      ensures forall m :: Refines(Contents(), m) && NoClash(m.Keys + {key}) ==> data == if key in m then m[key] else 0
    {
      forall m | Refines(Contents(), m) && NoClash(m.Keys + {key})
        ensures GetFrom(Contents(), key) == if key in m then m[key] else 0
      {
        GetRefines(Contents(), m, key);
      }
      var hash := Djb2Hash(key);
      var bucketIndex := hash % capacity;
      var found := FindLoop(buckets[bucketIndex], Entry(key, 0, hash));
      data := if found.None? then 0 else found.value.data;
    }
  }

  // ---------- Runs ----------

  datatype Call = Put(key: Key, data: int) | Get(key: Key) | Remove(key: Key) | GetSize | SetLoadFactor(factor: real)

  function Answered(t: Table, call: Call): (r: (Table, int))
    requires IsTable(t)
    ensures IsTable(r.0)
  {
    match call
    case Put(key, data) =>
      var (after, inserted) := PutIn(t, key, data);
      (after, if inserted then 1 else 0)
    case Get(key) => (t, GetFrom(t, key))
    case Remove(key) => RemoveFrom(t, key)
    case GetSize => (t, t.size)
    case SetLoadFactor(factor) => (WithLoadFactor(t, factor), 0)
  }

  /** What a finite map would answer. */
  function MapAnswered(m: map<Key, int>, call: Call): (map<Key, int>, int) {
    match call
    case Put(key, data) => (PutInMap(m, key, data), if data != 0 && key !in m then 1 else 0)
    case Get(key) => (m, if key in m then m[key] else 0)
    case Remove(key) => (m - {key}, if key in m then m[key] else 0)
    case GetSize => (m, |m|)
    case SetLoadFactor(factor) => (m, 0)
  }

  function Answers(t: Table, calls: seq<Call>): seq<int>
    requires IsTable(t)
    decreases |calls|
  {
    if calls == [] then [] else
      var (after, answer) := Answered(t, calls[0]);
      [answer] + Answers(after, calls[1..])
  }

  function MapAnswers(m: map<Key, int>, calls: seq<Call>): seq<int>
    decreases |calls|
  {
    if calls == [] then [] else
      var (after, answer) := MapAnswered(m, calls[0]);
      [answer] + MapAnswers(after, calls[1..])
  }

  predicate UsesKey(call: Call, keys: set<Key>) {
    call.Put? || call.Get? || call.Remove? ==> call.key in keys
  }

  predicate Uses(calls: seq<Call>, keys: set<Key>) {
    forall i :: 0 <= i < |calls| ==> UsesKey(calls[i], keys)
  }

  lemma NoClashWithin(m: map<Key, int>, key: Key, keys: set<Key>)
    requires m.Keys <= keys && key in keys && NoClash(keys)
    ensures NoClash(m.Keys + {key})
  {
  }

  lemma CallRefines(t: Table, m: map<Key, int>, call: Call, keys: set<Key>)
    requires Refines(t, m) && m.Keys <= keys && NoClash(keys) && UsesKey(call, keys)
    ensures IsTable(t) && Answered(t, call).1 == MapAnswered(m, call).1
    ensures Refines(Answered(t, call).0, MapAnswered(m, call).0) && MapAnswered(m, call).0.Keys <= keys
  {
    HoldsDepths(t.buckets, m);
    if !call.GetSize? && !call.SetLoadFactor? {
      NoClashWithin(m, call.key, keys);
      if call.Put? {
        PutRefines(t, m, call.key, call.data);
      } else if call.Get? {
        GetRefines(t, m, call.key);
      } else {
        RemoveRefines(t, m, call.key);
      }
    }
  }

  lemma {:induction false} RunRefines(t: Table, m: map<Key, int>, calls: seq<Call>, keys: set<Key>)
    requires Refines(t, m) && m.Keys <= keys && NoClash(keys) && Uses(calls, keys)
    ensures IsTable(t) && Answers(t, calls) == MapAnswers(m, calls)
    decreases |calls|
  {
    HoldsDepths(t.buckets, m);
    if calls != [] {
      CallRefines(t, m, calls[0], keys);
      RunRefines(Answered(t, calls[0]).0, MapAnswered(m, calls[0]).0, calls[1..], keys);
    }
  }

  /** With two keys that the hash does not tell apart, the second finds what the first is bound to. */
  lemma ClashShows(a: Key, b: Key)
    requires !Tells(a, b)
    ensures Answers(NewTable(), [Put(a, 1), Get(b)]) != MapAnswers(map[], [Put(a, 1), Get(b)])
  {
    var calls := [Put(a, 1), Get(b)];
    var t, e := NewTable(), MakeEntry(a, 1);
    var buckets := WithEntry(t.buckets, e).0;
    assert buckets[e.hash % 10] == Node(Empty, e, Empty, 1);
    var after := PutIn(t, a, 1).0;
    assert Threshold(0.75, 10) == 7;
    assert after.buckets == buckets && after.capacity == 10;
    assert EntryCompare(MakeEntry(b, 0), e) == 0;
    assert GetFrom(after, b) == 1;
    assert calls[1..] == [Get(b)] && calls[1..][0] == Get(b);
    assert Answers(after, calls[1..]) == [1] + Answers(after, calls[1..][1..]);
    assert Answers(t, calls) == [1] + Answers(after, calls[1..]);
    assert MapAnswers(map[a := 1], calls[1..]) == [0] + MapAnswers(map[a := 1], calls[1..][1..]);
    assert MapAnswers(map[], calls) == [1] + MapAnswers(map[a := 1], calls[1..]);
    assert Answers(t, calls)[1] != MapAnswers(map[], calls)[1];
  }

  /** The hash map answers every run of calls like a finite map exactly when the hash tells the keys in use apart. */
  lemma IsMapIffNoClash(keys: set<Key>)
    ensures (forall calls :: Uses(calls, keys) ==> Answers(NewTable(), calls) == MapAnswers(map[], calls))
      <==> NoClash(keys)
  {
    if NoClash(keys) {
      EmptyHolds(START_CAPACITY);
      forall calls | Uses(calls, keys)
        ensures Answers(NewTable(), calls) == MapAnswers(map[], calls)
      {
        RunRefines(NewTable(), map[], calls, keys);
      }
    } else {
      var a, b :| a in keys && b in keys && !Tells(a, b);
      assert Uses([Put(a, 1), Get(b)], keys);
      ClashShows(a, b);
    }
  }

  /** Two keys of two bytes that the hash does not tell apart. */
  lemma SomeKeysClash()
    ensures !Tells([69, 122], [70, 89])
  {
    var a: Key, b: Key := [69, 122], [70, 89];
    assert a[..1] == [69] && b[..1] == [70];
    assert Djb2([69]) == 5381 * 33 + 69 by {
      var c: Key := [69];
      assert c[..0] == [];
    }
    assert Djb2([70]) == 5381 * 33 + 70 by {
      var c: Key := [70];
      assert c[..0] == [];
    }
  }
}
