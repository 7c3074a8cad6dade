/** Cooperative coroutines in a doubly linked ring. */
module Coroutines {
  import opened CoroutineRing
  import opened Options

  datatype Status = Active | Finished

  predicate NextOk(ring: seq<Id>, next: map<Id, Id>, i: nat)
    requires i < |ring|
  {
    ring[i] in next && next[ring[i]] == Around(ring, i + 1)
  }

  predicate PrevOk(ring: seq<Id>, prev: map<Id, Id>, i: nat)
    requires i < |ring|
  {
    ring[i] in prev && prev[ring[i]] == Preceding(ring, i)
  }

  function Preceding(ring: seq<Id>, i: nat): Id
    requires i < |ring|
  {
    if i == 0 then ring[|ring| - 1] else ring[i - 1]
  }

  /** Each member of the ring is followed by the next one, the last by the first. */
  predicate Linked(ring: seq<Id>, next: map<Id, Id>, prev: map<Id, Id>) {
    forall i :: 0 <= i < |ring| ==> NextOk(ring, next, i) && PrevOk(ring, prev, i)
  }

  lemma LinkedBehind(ring: seq<Id>, next: map<Id, Id>, prev: map<Id, Id>, id: Id)
    requires ring != [] && Distinct(ring) && Linked(ring, next, prev) && id !in ring
    ensures var last := ring[|ring| - 1];
      Linked(ring + [id], next[last := id][id := ring[0]], prev[id := last][ring[0] := id])
  {
    var last, longer := ring[|ring| - 1], ring + [id];
    var next', prev' := next[last := id][id := ring[0]], prev[id := last][ring[0] := id];
    forall i | 0 <= i < |longer|
      ensures NextOk(longer, next', i) && PrevOk(longer, prev', i)
    {
      if i < |ring| {
        assert NextOk(ring, next, i) && PrevOk(ring, prev, i);
        assert longer[i] == ring[i] != id;
        assert i < |ring| - 1 ==> ring[i] != last;
        assert i > 0 ==> ring[i] != ring[0];
      }
    }
  }

  lemma LinkedRotated(ring: seq<Id>, next: map<Id, Id>, prev: map<Id, Id>, k: nat)
    requires k <= |ring| && Linked(ring, next, prev)
    ensures Linked(Rotated(ring, k), next, prev)
  {
    var r, n := Rotated(ring, k), |ring|;
    forall i | 0 <= i < |r|
      ensures NextOk(r, next, i) && PrevOk(r, prev, i)
    {
      var j := if i < n - k then k + i else i - (n - k);
      assert r[i] == ring[j];
      assert NextOk(ring, next, j) && PrevOk(ring, prev, j);
    }
  }

  lemma NextWithout(ring: seq<Id>, next: map<Id, Id>, k: nat, i: nat)
    requires Distinct(ring) && 0 < k < |ring| && i < |ring| - 1
    requires forall j :: 0 <= j < |ring| ==> NextOk(ring, next, j)
    ensures NextOk(ring[..k] + ring[k + 1..], next[ring[k - 1] := Around(ring, k + 1)] - {ring[k]}, i)
  {
    var j := if i < k then i else i + 1;
    assert (ring[..k] + ring[k + 1..])[i] == ring[j];
    assert NextOk(ring, next, j);
    assert ring[j] != ring[k] && (j != k - 1 ==> ring[j] != ring[k - 1]);
  }

  lemma PrevWithout(ring: seq<Id>, prev: map<Id, Id>, k: nat, i: nat)
    requires Distinct(ring) && 0 < k < |ring| && i < |ring| - 1
    requires forall j :: 0 <= j < |ring| ==> PrevOk(ring, prev, j)
    ensures PrevOk(ring[..k] + ring[k + 1..], prev[Around(ring, k + 1) := ring[k - 1]] - {ring[k]}, i)
  {
    var j, a := if i < k then i else i + 1, if k + 1 == |ring| then 0 else k + 1;
    assert (ring[..k] + ring[k + 1..])[i] == ring[j];
    assert PrevOk(ring, prev, j);
    assert Around(ring, k + 1) == ring[a];
    assert ring[j] != ring[k] && (j != a ==> ring[j] != ring[a]);
  }

  lemma LinkedWithout(ring: seq<Id>, next: map<Id, Id>, prev: map<Id, Id>, k: nat)
    requires Distinct(ring) && Linked(ring, next, prev) && 0 < k < |ring|
    ensures var x := ring[k]; x in next && x in prev && next[x] == Around(ring, k + 1) && prev[x] == ring[k - 1]
    ensures var x := ring[k];
      Linked(Without(ring, x), next[prev[x] := next[x]] - {x}, prev[next[x] := prev[x]] - {x})
  {
    assert NextOk(ring, next, k) && PrevOk(ring, prev, k);
    WithoutAt(ring, k);
    var rest := ring[..k] + ring[k + 1..];
    var next', prev' := next[ring[k - 1] := Around(ring, k + 1)] - {ring[k]}, prev[Around(ring, k + 1) := ring[k - 1]] - {ring[k]};
    forall i | 0 <= i < |rest|
      ensures NextOk(rest, next', i) && PrevOk(rest, prev', i)
    {
      NextWithout(ring, next, k, i);
      PrevWithout(ring, prev, k, i);
    }
  }

  // ---------- What the scheduler keeps ----------

  function Members(ring: seq<Id>): set<Id> {
    set c | c in ring
  }

  /**
   * The coroutine blocks, with their links, states and stacks, and the stacks that the allocator has
   * handed out and not got back. A stack is named after its coroutine; None is NULL.
   */
  datatype Table = Table(next: map<Id, Id>, prev: map<Id, Id>, state: map<Id, Status>, stack: map<Id, Option<Id>>,
                         running: Id, stacks: set<Id>, nextId: Id)

  function ActiveIn(state: map<Id, Status>): set<Id> {
    set c | c in state && state[c] == Active
  }

  predicate LinksValid(ring: seq<Id>, t: Table) {
    && ring != [] && ring[0] == t.running && Distinct(ring) && Linked(ring, t.next, t.prev)
    && t.next.Keys == t.prev.Keys == Members(ring)
  }

  /** Every coroutine has a state and a stack or NULL; the main one is always active. */
  predicate StatesValid(main: Id, ring: seq<Id>, t: Table) {
    && t.state.Keys == t.stack.Keys == Members(ring) && main in t.state && t.state[main] == Active
    && forall c :: c in t.state ==> c < t.nextId
  }

  /** Exactly what is not NULL owns a block, and an active coroutine has its stack. */
  predicate StacksValid(main: Id, t: Table) {
    && t.stacks <= t.stack.Keys
    && forall c :: c in t.stack ==>
         && t.stack[c] == (if c in t.stacks then Some(c) else None)
         && (c in t.state && c != main && t.state[c] == Active ==> c in t.stacks)
  }

  predicate RingValid(main: Id, ring: seq<Id>, t: Table) {
    LinksValid(ring, t) && StatesValid(main, ring, t) && StacksValid(main, t)
  }

  /** Between calls the running coroutine is active. */
  predicate TableValid(main: Id, ring: seq<Id>, t: Table) {
    RingValid(main, ring, t) && t.running in ActiveIn(t.state)
  }

  // ---------- Creating ----------

  function Created(t: Table, last: Id): Table {
    var c := t.nextId;
    Table(t.next[last := c][c := t.running], t.prev[c := last][t.running := c], t.state[c := Active], t.stack[c := Some(c)],
          t.running, t.stacks + {c}, c + 1)
  }

  lemma CreatedLinks(ring: seq<Id>, t: Table, c: Id)
    requires LinksValid(ring, t) && c == t.nextId && c !in ring
    ensures t.running in t.prev && LinksValid(ring + [c], Created(t, t.prev[t.running]))
  {
    assert PrevOk(ring, t.prev, 0);
    LinkedBehind(ring, t.next, t.prev, c);
    assert Members(ring + [c]) == Members(ring) + {c};
    assert t.prev[t.running] in Members(ring);
  }

  lemma CreatedStates(main: Id, ring: seq<Id>, t: Table, last: Id)
    requires StatesValid(main, ring, t) && StacksValid(main, t)
    ensures t.nextId !in ring
    ensures StatesValid(main, ring + [t.nextId], Created(t, last)) && StacksValid(main, Created(t, last))
    ensures ActiveIn(Created(t, last).state) == ActiveIn(t.state) + {t.nextId}
  {
    var c := t.nextId;
    assert Members(ring + [c]) == Members(ring) + {c};
    assert c !in t.state;
  }

  ghost function ViewOf(ring: seq<Id>, t: Table): State {
    State(ring, ActiveIn(t.state))
  }

  lemma CreatedValid(main: Id, ring: seq<Id>, t: Table) returns (longer: seq<Id>, u: Table)
    requires TableValid(main, ring, t)
    ensures t.running in t.prev && u == Created(t, t.prev[t.running]) && longer == ring + [t.nextId]
    ensures TableValid(main, longer, u) && Steps(main, ViewOf(ring, t), Create(t.nextId), ViewOf(longer, u))
  {
    assert PrevOk(ring, t.prev, 0);
    longer, u := ring + [t.nextId], Created(t, t.prev[t.running]);
    CreatedStates(main, ring, t, t.prev[t.running]);
    CreatedLinks(ring, t, t.nextId);
  }

  // ---------- Switching ----------

  /** The coroutines between the running one and the one that is k steps away. */
  function Passed(ring: seq<Id>, k: nat): set<Id> {
    set i | 1 <= i < k && i < |ring| :: ring[i]
  }

  /** The stacks of the finished coroutines passed are freed. */
  function Switched(t: Table, to: Id, freed: set<Id>): Table {
    t.(running := to, stacks := t.stacks - freed,
       stack := map c | c in t.stack :: if c in freed then None else t.stack[c])
  }

  lemma SwitchedValid(main: Id, ring: seq<Id>, t: Table, k: nat) returns (rotated: seq<Id>, u: Table)
    requires RingValid(main, ring, t) && IsNextActive(ring, ActiveIn(t.state), k)
    ensures u == Switched(t, Around(ring, k), Passed(ring, k)) && rotated == Rotated(ring, k)
    ensures TableValid(main, rotated, u) && (t.running in t.stacks ==> t.running in u.stacks)
  {
    rotated, u := Rotated(ring, k), Switched(t, Around(ring, k), Passed(ring, k));
    RotatedIsDistinct(ring, k);
    LinkedRotated(ring, t.next, t.prev, k);
    assert Members(Rotated(ring, k)) == Members(ring);
  }

  // ---------- Reaping ----------

  function Reaped(t: Table, x: Id): Table
    requires x in t.next && x in t.prev
  {
    Table(t.next[t.prev[x] := t.next[x]] - {x}, t.prev[t.next[x] := t.prev[x]] - {x}, t.state - {x}, t.stack - {x},
          t.running, t.stacks - {x}, t.nextId)
  }

  lemma WithoutDistinct(ring: seq<Id>, k: nat)
    requires Distinct(ring) && k < |ring|
    ensures Distinct(Without(ring, ring[k]))
  {
    WithoutAt(ring, k);
    var rest := Without(ring, ring[k]);
    assert forall i :: 0 <= i < |rest| ==> rest[i] == ring[if i < k then i else i + 1];
  }

  lemma {:induction false} WithoutIn(ring: seq<Id>, x: Id, c: Id)
    requires Distinct(ring)
    ensures c in Without(ring, x) <==> c in ring && c != x
    decreases |ring|
  {
    if ring != [] {
      assert ring == [ring[0]] + ring[1..];
      if ring[0] != x {
        WithoutIn(ring[1..], x, c);
      } else {
        assert ring[0] !in ring[1..];
      }
    }
  }

  lemma WithoutMembers(ring: seq<Id>, x: Id)
    requires Distinct(ring)
    ensures Members(Without(ring, x)) == Members(ring) - {x}
  {
    forall c
      ensures c in Members(Without(ring, x)) <==> c in Members(ring) - {x}
    {
      WithoutIn(ring, x, c);
    }
  }

  lemma ReapedLinks(ring: seq<Id>, t: Table, k: nat)
    requires LinksValid(ring, t) && 0 < k < |ring|
    ensures var x := ring[k];
      && x in t.next && x in t.prev && t.next[x] in t.prev && t.prev[x] in t.next
      && LinksValid(Without(ring, x), Reaped(t, x))
  {
    var x := ring[k];
    LinkedWithout(ring, t.next, t.prev, k);
    WithoutAt(ring, k);
    WithoutDistinct(ring, k);
    WithoutMembers(ring, x);
    assert Around(ring, k + 1) in Members(ring) && ring[k - 1] in Members(ring);
    assert Without(ring, x)[0] == ring[0];
  }

  lemma ReapedStates(main: Id, ring: seq<Id>, t: Table, x: Id)
    requires StatesValid(main, ring, t) && StacksValid(main, t) && x in t.next && x in t.prev
    requires x in t.state && t.state[x] == Finished && Members(Without(ring, x)) == Members(ring) - {x}
    ensures StatesValid(main, Without(ring, x), Reaped(t, x)) && StacksValid(main, Reaped(t, x))
    ensures ActiveIn(Reaped(t, x).state) == ActiveIn(t.state)
  {
  }

  lemma ReapedValid(main: Id, ring: seq<Id>, t: Table, x: Id) returns (shorter: seq<Id>, u: Table)
    requires TableValid(main, ring, t) && x in t.state && t.state[x] == Finished
    ensures x in t.next && x in t.prev && t.next[x] in t.prev && t.prev[x] in t.next && x in t.stack
    ensures u == Reaped(t, x) && shorter == Without(ring, x) && t.stack[x] == (if x in t.stacks then Some(x) else None)
    ensures t.prev[t.next[x] := t.prev[x]][x] == t.prev[x]
    ensures TableValid(main, shorter, u) && Steps(main, ViewOf(ring, t), Reap(x), ViewOf(shorter, u))
  {
    assert x in Members(ring);
    var k :| 0 <= k < |ring| && ring[k] == x;
    ReapedLinks(ring, t, k);
    WithoutMembers(ring, x);
    ReapedStates(main, ring, t, x);
    shorter, u := Without(ring, x), Reaped(t, x);
    NotOwnNext(ring, t, k);
  }

  lemma NotOwnNext(ring: seq<Id>, t: Table, k: nat)
    requires LinksValid(ring, t) && 0 < k < |ring|
    ensures ring[k] in t.next && t.next[ring[k]] != ring[k]
  {
    assert NextOk(ring, t.next, k);
  }

  // ---------- The scheduler ----------

  class Scheduler {
    const main: Id
    var next: map<Id, Id>
    var prev: map<Id, Id>
    var state: map<Id, Status>
    var stack: map<Id, Option<Id>>
    var running: Id
    var stacks: set<Id>
    var nextId: Id
    /** The ring from the running coroutine on. */
    ghost var ring: seq<Id>

    ghost function Snapshot(): Table
      reads this
    {
      Table(next, prev, state, stack, running, stacks, nextId)
    }

    ghost predicate Valid()
      reads this
    {
      TableValid(main, ring, Snapshot())
    }

    /** The state of the ring as a run sees it. */
    ghost function View(): State
      reads this
    {
      ViewOf(ring, Snapshot())
    }

    constructor ()
      ensures Valid() && ring == [main] && stacks == {} && RingOk(main, View())
    {
      main := 0;
      next := map[0 := 0];
      prev := map[0 := 0];
      state := map[0 := Active];
      stack := map[0 := None];
      running := 0;
      stacks := {};
      nextId := 1;
      ring := [0];
    }

    /** The block must have been handed out and not been freed; freeing null does nothing. */
    method Free(block: Option<Id>)
      requires block.Some? ==> block.value in stacks
      modifies this`stacks
      ensures stacks == if block.Some? then old(stacks) - {block.value} else old(stacks)
    {
      if block.Some? {
        stacks := stacks - {block.value};
      }
    }

    /** Puts a block for a new coroutine between the last of the ring and the running one. */
    method LinkNew() returns (coro: Id)
      requires running in prev
      modifies this`next, this`prev, this`state, this`stack, this`stacks, this`nextId
      ensures Snapshot() == Created(old(Snapshot()), old(prev[running])) && coro == old(nextId)
    {
      coro := nextId;
      nextId := nextId + 1;
      stack := stack[coro := Some(coro)];
      stacks := stacks + {coro};
      state := state[coro := Active];
      next := next[prev[running] := coro];
      prev := prev[coro := prev[running]];
      prev := prev[running := coro];
      next := next[coro := running];
    }

    /** The new coroutine is the last of the ring. */
    method Create() returns (coro: Id)
      requires Valid()
      modifies this
      ensures Valid() && Steps(main, old(View()), CoroutineRing.Create(coro), View())
      ensures stacks == old(stacks) + {coro}
    {
      ghost var longer, after := CreatedValid(main, ring, Snapshot());
      coro := LinkNew();
      ring := longer;
    }

    /** Frees the stack of a coroutine, if it still has one. */
    method FreeStack(c: Id)
      requires c in stack && stack[c] == if c in stacks then Some(c) else None
      modifies this`stack, this`stacks
      ensures stack == old(stack)[c := None] && stacks == old(stacks) - {c}
    {
      Free(stack[c]);
      stack := stack[c := None];
    }

    /** Goes on past finished coroutines, which lose their stacks. */
    method FindActive(ghost before: Table) returns (to: Id, ghost k: nat)
      requires RingValid(main, ring, before) && Snapshot() == before
      modifies this`stack, this`stacks
      ensures IsNextActive(ring, ActiveIn(state), k) && to == Around(ring, k)
      ensures Snapshot() == Switched(before, running, Passed(ring, k))
    {
      FirstStep(main, ring, before);
      to := next[running];
      k := 1;
      while state[to] != Active
        invariant 1 <= k <= |ring| && to == Around(ring, k) && to in state && state == before.state && next == before.next
        invariant forall i :: 1 <= i < k ==> ring[i] !in ActiveIn(state)
        invariant Snapshot() == Switched(before, running, Passed(ring, k))
        decreases |ring| - k
      {
        SomeActive(main, ring, before, k);
        ghost var after := PassOne(main, ring, before, k);
        FreeStack(to);
        assert Snapshot() == after;
        to := next[to];
        k := k + 1;
      }
    }

    /**
     * Switches to the first active coroutine after the running one and frees the stacks of the finished ones
     * in between, never that of the coroutine that is still running on it.
     */
    method ScheduleNext() returns (ghost k: nat)
      requires RingValid(main, ring, Snapshot())
      modifies this`running, this`stack, this`stacks, this`ring
      ensures Valid() && IsNextActive(old(ring), ActiveIn(state), k) && ring == Rotated(old(ring), k)
      ensures stacks == old(stacks) - Passed(old(ring), k) && (old(running) in old(stacks) ==> old(running) in stacks)
    {
      ghost var before := Snapshot();
      var to;
      to, k := FindActive(before);
      ghost var rotated, after := SwitchedValid(main, ring, before, k);
      SwitchTo(to, rotated);
    }

    method SwitchTo(to: Id, ghost rotated: seq<Id>)
      modifies this`running, this`ring
      ensures Snapshot() == old(Snapshot()).(running := to) && ring == rotated
    {
      running := to;
      ring := rotated;
    }

    method Yield()
      requires Valid()
      modifies this`running, this`stack, this`stacks, this`ring
      ensures Valid() && Steps(main, old(View()), CoroutineRing.Yield, View())
      ensures old(running) in old(stacks) ==> old(running) in stacks
    {
      ghost var k := ScheduleNext();
    }

    /** The routine of the running coroutine, which is not the main one, has returned. */
    method FinishRoutine()
      requires Valid() && running != main
      modifies this`running, this`state, this`stack, this`stacks, this`ring
      ensures Valid() && Steps(main, old(View()), Finish, View())
      ensures old(running) in old(stacks) ==> old(running) in stacks
    {
      ghost var after := FinishedValid(main, ring, Snapshot());
      state := state[running := Finished];
      assert Snapshot() == after;
      ghost var k := ScheduleNext();
    }

    /** Takes a coroutine out of the ring and frees its stack and its block. */
    method Unlink(coro: Id)
      requires coro in next && coro in prev && prev[next[coro] := prev[coro]][coro] == prev[coro]
      requires coro in stack && stack[coro] == if coro in stacks then Some(coro) else None
      modifies this`next, this`prev, this`state, this`stack, this`stacks
      ensures Snapshot() == Reaped(old(Snapshot()), coro)
    {
      prev := prev[next[coro] := prev[coro]];
      next := next[prev[coro] := next[coro]];
      Free(stack[coro]);
      next, prev, state, stack := next - {coro}, prev - {coro}, state - {coro}, stack - {coro};
    }

    /** One round of the loop in a join by another coroutine: a switch, or the end of the finished one. */
    method Join(coro: Id) returns (done: bool)
      requires Valid() && coro in ring && coro != running
      modifies this
      ensures Valid() && done == (coro in old(state) && old(state[coro]) == Finished)
      ensures Steps(main, old(View()), if done then Reap(coro) else CoroutineRing.Yield, View())
      ensures done ==> stacks == old(stacks) - {coro}
    {
      assert coro in Members(ring);
      if state[coro] != Finished {
        Yield();
        return false;
      }
      ghost var shorter, after := ReapedValid(main, ring, Snapshot(), coro);
      Unlink(coro);
      ring := shorter;
      return true;
    }
  }

  lemma FinishedValid(main: Id, ring: seq<Id>, t: Table) returns (u: Table)
    requires TableValid(main, ring, t) && t.running != main
    ensures u == t.(state := t.state[t.running := Finished]) && RingValid(main, ring, u)
    ensures ActiveIn(u.state) == ActiveIn(t.state) - {ring[0]}
  {
    u := t.(state := t.state[t.running := Finished]);
    assert t.running in Members(ring);
  }

  lemma FirstStep(main: Id, ring: seq<Id>, t: Table)
    requires RingValid(main, ring, t)
    ensures t.running in t.next && t.next[t.running] == Around(ring, 1) && Around(ring, 1) in t.state
    ensures Switched(t, t.running, Passed(ring, 1)) == t
  {
    assert NextOk(ring, t.next, 0);
    assert Around(ring, 1) in Members(ring);
    assert Passed(ring, 1) == {};
  }

  /** The way round does not end before an active coroutine: the main one is in the ring. */
  lemma SomeActive(main: Id, ring: seq<Id>, t: Table, k: nat)
    requires RingValid(main, ring, t) && 1 <= k <= |ring| && forall i :: 1 <= i < k ==> ring[i] !in ActiveIn(t.state)
    requires Around(ring, k) !in ActiveIn(t.state)
    ensures k < |ring|
  {
    assert main in Members(ring) && main in ActiveIn(t.state);
    var i :| 0 <= i < |ring| && ring[i] == main;
  }

  lemma PassedMore(ring: seq<Id>, k: nat)
    requires Distinct(ring) && 1 <= k < |ring|
    ensures Passed(ring, k + 1) == Passed(ring, k) + {ring[k]} && ring[k] !in Passed(ring, k)
  {
    assert forall i :: 1 <= i < k ==> ring[i] != ring[k];
  }

  lemma SwitchedMore(t: Table, freed: set<Id>, c: Id)
    requires c in t.stack
    ensures var now := Switched(t, t.running, freed);
      Switched(t, t.running, freed + {c}) == now.(stack := now.stack[c := None], stacks := now.stacks - {c})
  {
    assert t.stacks - (freed + {c}) == (t.stacks - freed) - {c};
  }

  lemma PassOne(main: Id, ring: seq<Id>, t: Table, k: nat) returns (after: Table)
    requires RingValid(main, ring, t) && 1 <= k < |ring|
    ensures ring[k] in t.stack && after == Switched(t, t.running, Passed(ring, k + 1))
    ensures var now := Switched(t, t.running, Passed(ring, k));
      && now.stack[ring[k]] == (if ring[k] in now.stacks then Some(ring[k]) else None)
      && after == now.(stack := now.stack[ring[k] := None], stacks := now.stacks - {ring[k]})
    ensures ring[k] in t.next && t.next[ring[k]] == Around(ring, k + 1) && Around(ring, k + 1) in t.state
  {
    assert NextOk(ring, t.next, k);
    assert ring[k] in Members(ring) && Around(ring, k + 1) in Members(ring);
    PassedMore(ring, k);
    SwitchedMore(t, Passed(ring, k), ring[k]);
    after := Switched(t, t.running, Passed(ring, k + 1));
  }
}
