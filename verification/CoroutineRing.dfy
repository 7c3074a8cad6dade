/** The ring of coroutines, listed from the running one on. */
module CoroutineRing {

  type Id = nat

  predicate Distinct(ring: seq<Id>) {
    forall i, j :: 0 <= i < j < |ring| ==> ring[i] != ring[j]
  }

  /** Listed from another member on. */
  function Rotated(ring: seq<Id>, k: nat): seq<Id>
    requires k <= |ring|
  {
    ring[k..] + ring[..k]
  }

  /** k steps lead to the first active coroutine after the running one, which comes last itself. */
  predicate IsNextActive(ring: seq<Id>, active: set<Id>, k: nat) {
    && 1 <= k <= |ring| && Around(ring, k) in active
    && forall i :: 1 <= i < k ==> ring[i] !in active
  }

  function Around(ring: seq<Id>, k: nat): Id
    requires ring != [] && k <= |ring|
  {
    if k == |ring| then ring[0] else ring[k]
  }

  function Without(ring: seq<Id>, id: Id): seq<Id> {
    if ring == [] then [] else if ring[0] == id then ring[1..] else [ring[0]] + Without(ring[1..], id)
  }

  lemma {:induction false} WithoutAt(ring: seq<Id>, k: nat)
    requires Distinct(ring) && k < |ring|
    ensures Without(ring, ring[k]) == ring[..k] + ring[k + 1..]
    decreases |ring|
  {
    if k > 0 {
      WithoutAt(ring[1..], k - 1);
      assert ring[1..][k - 1] == ring[k];
      assert ring[..k] + ring[k + 1..] == [ring[0]] + (ring[1..][..k - 1] + ring[1..][k..]);
    }
  }

  // ---------- Runs ----------

  /** The first of the ring is running. */
  datatype State = State(ring: seq<Id>, active: set<Id>)

  datatype Action = Create(id: Id) | Yield | Finish | Reap(id: Id)

  ghost predicate CanStep(main: Id, s: State, a: Action) {
    && s.ring != [] && s.ring[0] in s.active
    && match a
       case Create(id) => id !in s.ring
       case Yield => true
       case Finish => s.ring[0] != main
       case Reap(id) => id in s.ring && id !in s.active
  }

  ghost predicate Steps(main: Id, s: State, a: Action, t: State) {
    && CanStep(main, s, a)
    && match a
       case Create(id) => t == State(s.ring + [id], s.active + {id})
       case Yield => exists k: nat :: IsNextActive(s.ring, s.active, k) && t == State(Rotated(s.ring, k), s.active)
       case Finish =>
         exists k: nat :: IsNextActive(s.ring, s.active - {s.ring[0]}, k) && t == State(Rotated(s.ring, k), s.active - {s.ring[0]})
       case Reap(id) => t == s.(ring := Without(s.ring, id))
  }

  ghost predicate IsRun(main: Id, states: seq<State>, actions: seq<Action>) {
    && |states| == |actions| + 1
    && forall i :: 0 <= i < |actions| ==> Steps(main, states[i], actions[i], states[i + 1])
  }

  ghost predicate RingOk(main: Id, s: State) {
    Distinct(s.ring) && main in s.ring && main in s.active && s.ring[0] in s.active
  }

  predicate IsSwitch(a: Action) {
    a.Yield? || a.Finish?
  }

  function Switches(actions: seq<Action>): nat {
    if actions == [] then 0 else (if IsSwitch(actions[0]) then 1 else 0) + Switches(actions[1..])
  }

  lemma RotatedIsDistinct(ring: seq<Id>, k: nat)
    requires Distinct(ring) && k <= |ring|
    ensures Distinct(Rotated(ring, k)) && forall id :: id in Rotated(ring, k) <==> id in ring
  {
    var r := Rotated(ring, k);
    assert forall i :: 0 <= i < |r| ==> r[i] == ring[if i < |ring| - k then k + i else i - (|ring| - k)];
    forall id | id in ring
      ensures id in r
    {
      var i :| 0 <= i < |ring| && ring[i] == id;
      assert r[if i < k then |ring| - k + i else i - k] == id;
    }
  }

  lemma SwitchRingOk(main: Id, s: State, active: set<Id>, k: nat)
    requires Distinct(s.ring) && main in s.ring && main in active && IsNextActive(s.ring, active, k)
    ensures RingOk(main, State(Rotated(s.ring, k), active))
  {
    RotatedIsDistinct(s.ring, k);
    assert Rotated(s.ring, k)[0] == Around(s.ring, k);
  }

  lemma ReapRingOk(main: Id, s: State, id: Id)
    requires RingOk(main, s) && id in s.ring && id !in s.active
    ensures RingOk(main, s.(ring := Without(s.ring, id)))
  {
    var k :| 0 <= k < |s.ring| && s.ring[k] == id;
    WithoutAt(s.ring, k);
    var rest := Without(s.ring, id);
    assert forall i :: 0 <= i < |rest| ==> rest[i] == s.ring[if i < k then i else i + 1];
    var i :| 0 <= i < |s.ring| && s.ring[i] == main;
    assert rest[if i < k then i else i - 1] == main;
  }

  lemma StepRingOk(main: Id, s: State, a: Action, t: State)
    requires RingOk(main, s) && Steps(main, s, a, t)
    ensures RingOk(main, t)
  {
    match a
    case Create(id) =>
    case Yield =>
      var k: nat :| IsNextActive(s.ring, s.active, k) && t == State(Rotated(s.ring, k), s.active);
      SwitchRingOk(main, s, s.active, k);
    case Finish =>
      var k: nat :| IsNextActive(s.ring, s.active - {s.ring[0]}, k) && t == State(Rotated(s.ring, k), s.active - {s.ring[0]});
      SwitchRingOk(main, s, s.active - {s.ring[0]}, k);
    case Reap(id) =>
      ReapRingOk(main, s, id);
  }

  /** A step brings an active coroutine that does not run nearer, by at least one place for a switch. */
  lemma StepNearer(main: Id, s: State, a: Action, t: State, c: Id, d: nat) returns (e: nat)
    requires RingOk(main, s) && Steps(main, s, a, t)
    requires d < |s.ring| && s.ring[d] == c && d > 0 && c in s.active
    ensures e < |t.ring| && t.ring[e] == c && c in t.active && e + (if IsSwitch(a) then 1 else 0) <= d
  {
    match a
    case Create(id) => e := d;
    case Yield =>
      var k: nat :| IsNextActive(s.ring, s.active, k) && t == State(Rotated(s.ring, k), s.active);
      e := d - k;
    case Finish =>
      var k: nat :| IsNextActive(s.ring, s.active - {s.ring[0]}, k) && t == State(Rotated(s.ring, k), s.active - {s.ring[0]});
      assert s.ring[0] != s.ring[d];
      e := d - k;
    case Reap(id) =>
      var k :| 0 <= k < |s.ring| && s.ring[k] == id;
      WithoutAt(s.ring, k);
      e := if d < k then d else d - 1;
  }

  lemma RunTail(main: Id, states: seq<State>, actions: seq<Action>)
    requires IsRun(main, states, actions) && actions != []
    ensures IsRun(main, states[1..], actions[1..]) && Steps(main, states[0], actions[0], states[1])
  {
    forall i | 0 <= i < |actions[1..]|
      ensures Steps(main, states[1..][i], actions[1..][i], states[1..][i + 1])
    {
      assert Steps(main, states[i + 1], actions[i + 1], states[i + 1 + 1]);
    }
  }

  predicate NeverRuns(states: seq<State>, c: Id) {
    forall i :: 0 <= i < |states| ==> states[i].ring == [] || states[i].ring[0] != c
  }

  /**
   * While an active coroutine does not run, there are fewer switches than its distance in the ring,
   * however many coroutines are created meanwhile.
   */
  lemma {:induction false} ResumesInTime(main: Id, states: seq<State>, actions: seq<Action>, c: Id, d: nat)
    requires IsRun(main, states, actions) && RingOk(main, states[0]) && NeverRuns(states, c)
    requires d < |states[0].ring| && states[0].ring[d] == c && c in states[0].active
    ensures Switches(actions) < d
    decreases |actions|
  {
    assert states[0].ring[0] != c;
    if actions != [] {
      RunTail(main, states, actions);
      StepRingOk(main, states[0], actions[0], states[1]);
      var e := StepNearer(main, states[0], actions[0], states[1], c, d);
      ResumesInTime(main, states[1..], actions[1..], c, e);
    }
  }
}
