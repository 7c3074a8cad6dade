/** How large the table of a hash map is after a run of calls. */
module HashMapGrowth {
  import opened AvlTree
  import opened HashMap
  import opened Powers

  function After(t: Table, calls: seq<Call>): (r: Table)
    requires IsTable(t)
    ensures IsTable(r)
    decreases |calls|
  {
    if calls == [] then t else After(Answered(t, calls[0]).0, calls[1..])
  }

  /** A put doubles the capacity exactly when it adds an entry and the size then reaches the threshold. */
  lemma PutGrows(t: Table, key: Key, data: int)
    requires IsTable(t)
    ensures var (r, inserted) := PutIn(t, key, data);
      && r.size == (if inserted then t.size + 1 else t.size) && r.loadFactor == t.loadFactor
      && (if inserted && r.size >= t.threshold
          then r.capacity == 2 * t.capacity && r.threshold == (t.loadFactor * r.capacity as real).Floor
          else r.capacity == t.capacity && r.threshold == t.threshold)
  {
  }

  /** The table at the default load factor, with 10 * 2^k buckets and less in them than makes it grow. */
  ghost predicate HasRoom(t: Table, k: nat) {
    && t.loadFactor == 0.75 && t.capacity == 10 * Power(2, k)
    && t.size < t.threshold == (0.75 * t.capacity as real).Floor
  }

  /** It would not have had room with half the buckets. */
  ghost predicate NeedsIt(t: Table, k: nat) {
    k > 0 ==> t.size >= (0.75 * (10 * Power(2, k - 1)) as real).Floor
  }

  lemma DoubleIsMore(c: nat)
    requires c >= 10
    ensures (0.75 * c as real).Floor < (0.75 * (2 * c) as real).Floor
  {
  }

  lemma CallKeepsRoom(t: Table, call: Call, k: nat) returns (j: nat)
    requires IsTable(t) && HasRoom(t, k) && !call.SetLoadFactor?
    ensures HasRoom(Answered(t, call).0, j)
    ensures !call.Remove? && NeedsIt(t, k) ==> NeedsIt(Answered(t, call).0, j)
  {
    j := k;
    if call.Put? {
      PutGrows(t, call.key, call.data);
      PowerMonotone(2, 0, k);
      DoubleIsMore(t.capacity);
      var (r, inserted) := PutIn(t, call.key, call.data);
      if inserted && r.size >= t.threshold {
        j := k + 1;
        assert Power(2, k + 1) == 2 * Power(2, k);
      }
    }
  }

  lemma {:induction false} RunKeepsRoom(t: Table, calls: seq<Call>, k: nat) returns (j: nat)
    requires IsTable(t) && HasRoom(t, k) && forall i :: 0 <= i < |calls| ==> !calls[i].SetLoadFactor?
    ensures HasRoom(After(t, calls), j)
    ensures NeedsIt(t, k) && (forall i :: 0 <= i < |calls| ==> !calls[i].Remove?) ==> NeedsIt(After(t, calls), j)
    decreases |calls|
  {
    j := k;
    if calls != [] {
      var i := CallKeepsRoom(t, calls[0], k);
      j := RunKeepsRoom(Answered(t, calls[0]).0, calls[1..], i);
    }
  }

  /**
   * After every run of calls that leave the load factor alone, the capacity is ten times a power of two and the size is
   * below the threshold; without removals it is the least such capacity.
   */
  lemma CapacityFits(calls: seq<Call>) returns (k: nat)
    requires forall i :: 0 <= i < |calls| ==> !calls[i].SetLoadFactor?
    ensures var t := After(NewTable(), calls);
      && t.capacity == |t.buckets| == 10 * Power(2, k) && t.size < t.threshold == (0.75 * t.capacity as real).Floor
      && ((forall i :: 0 <= i < |calls| ==> !calls[i].Remove?) && k > 0 ==>
            t.size >= (0.75 * (10 * Power(2, k - 1)) as real).Floor)
  {
    assert Power(2, 0) == 1;
    k := RunKeepsRoom(NewTable(), calls, 0);
  }
}
