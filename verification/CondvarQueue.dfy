/** A bounded queue whose producers and consumers wait on two condition variables. */
module CondvarQueue {
  import opened LinkedQueue
  import opened Options
  import opened Sums

  // ---------- The program ----------

  /**
   * Outside a call, waiting for the mutex, testing the loop condition, asleep in the wait, woken and waiting
   * for the mutex again, accessing the list, signalling the other side, or about to release the mutex.
   */
  datatype Pc = Idle | Locking | Testing | Asleep | Relocking | Acting(at: Place) | Signalling | Unlocking

  /** woken is set from the wake-up until the thread has changed the counter or goes back to sleep. */
  datatype Thread = Thread(role: Role, pc: Pc, woken: bool, local: Local)

  datatype State = State(lock: Option<nat>, memory: Memory, threads: seq<Thread>, record: Record)

  /** An allocation may get any free address. */
  datatype Action =
    | Begin(t: nat, val: int)
    | Step(t: nat, addr: nat)
    | SignalOne(t: nat, sleeper: nat)
    | WakeSpuriously(t: nat)

  predicate Holding(pc: Pc) {
    pc == Testing || pc.Acting? || pc == Signalling || pc == Unlocking
  }

  function Other(r: Role): Role {
    if r == Producer then Consumer else Producer
  }

  /** How many calls of a role the queue can serve at once. */
  function Room(max: nat, m: Memory, r: Role): int {
    if r == Producer then max - m.count else m.count
  }

  predicate AnyAsleep(ts: seq<Thread>, r: Role) {
    exists k :: 0 <= k < |ts| && ts[k].role == r && ts[k].pc == Asleep
  }

  predicate CanStep(s: State, a: Action) {
    && a.t < |s.threads|
    && var th := s.threads[a.t];
       match a
       case Begin(_, _) => th.pc == Idle
       case Step(t, addr) =>
         && th.pc != Idle && th.pc != Asleep
         && (th.pc == Locking || th.pc == Relocking ==> s.lock == None)
         && (th.pc == Signalling ==> !AnyAsleep(s.threads, Other(th.role)))
         && (th.pc.Acting? ==> IsSafe(s.memory, th.pc.at, th.local, addr))
       case SignalOne(t, r) =>
         && th.pc == Signalling && r < |s.threads|
         && s.threads[r].role == Other(th.role) && s.threads[r].pc == Asleep
       case WakeSpuriously(t) => th.pc == Asleep
  }

  function ThreadAfter(max: nat, m: Memory, th: Thread, addr: nat): Thread
    requires th.pc.Acting? ==> IsSafe(m, th.pc.at, th.local, addr)
  {
    match th.pc
    case Locking => th.(pc := Testing)
    case Testing =>
      if Room(max, m, th.role) == 0 then th.(pc := Asleep, woken := false) else th.(pc := Acting(FirstPlace(th.role)))
    case Relocking => th.(pc := Testing)
    case Acting(p) =>
      if p == WriteCount then th.(pc := Signalling, woken := false)
      else th.(pc := Acting(PlaceAfter(m, p)), local := LocalAfter(m, p, th.local, addr))
    case Signalling => th.(pc := Unlocking)
    case Unlocking => th.(pc := Idle)
    case _ => th
  }

  /** Waiting releases the mutex in the same step. */
  function LockAfter(lock: Option<nat>, t: nat, now: Pc): Option<nat> {
    if Holding(now) then Some(t) else if now == Asleep || now == Idle then None else lock
  }

  function Next(max: nat, s: State, a: Action): State
    requires CanStep(s, a)
  {
    var th := s.threads[a.t];
    match a
    case Begin(t, val) => s.(threads := s.threads[t := th.(pc := Locking, local := Local(val, None, None, 0))])
    case Step(t, addr) =>
      var after := ThreadAfter(max, s.memory, th, addr);
      State(LockAfter(s.lock, t, after.pc),
            if th.pc.Acting? then MemoryAfter(s.memory, th.role, th.pc.at, th.local, addr) else s.memory,
            s.threads[t := after],
            if th.pc.Acting? then RecordAfter(s.record, th.role, th.pc.at, th.local) else s.record)
    case SignalOne(t, r) =>
      s.(threads := s.threads[t := th.(pc := Unlocking)][r := s.threads[r].(pc := Relocking, woken := true)])
    case WakeSpuriously(t) => s.(threads := s.threads[t := th.(pc := Relocking, woken := true)])
  }

  ghost predicate IsInitial(s: State) {
    && s.lock == None && s.memory == Blank() && s.record == Record([], [], [])
    && forall t :: 0 <= t < |s.threads| ==> s.threads[t].pc == Idle && !s.threads[t].woken
  }

  ghost predicate Leads(max: nat, s: State, run: seq<Action>, t: State)
    decreases |run|
  {
    if run == [] then t == s else CanStep(s, run[0]) && Leads(max, Next(max, s, run[0]), run[1..], t)
  }

  // ---------- The mutex and the list ----------

  /** Exactly the holder of the mutex is between its lock and its unlock. */
  predicate LockOk(s: State) {
    && (s.lock.Some? ==> s.lock.value < |s.threads|)
    && forall t :: 0 <= t < |s.threads| ==> (Holding(s.threads[t].pc) <==> s.lock == Some(t))
  }

  lemma NextLockOk(max: nat, s: State, a: Action)
    requires CanStep(s, a) && LockOk(s)
    ensures LockOk(Next(max, s, a))
  {
  }

  /** The access that a thread is about to make to the list. */
  function CallOf(th: Thread): Option<Call> {
    if th.pc.Acting? then Some(Call(th.role, th.pc.at, th.local)) else None
  }

  function Calls(ts: seq<Thread>): (calls: seq<Option<Call>>)
    ensures |calls| == |ts| && forall t :: 0 <= t < |ts| ==> calls[t] == CallOf(ts[t])
  {
    seq(|ts|, t requires 0 <= t < |ts| => CallOf(ts[t]))
  }

  predicate InOrder(s: State) {
    ListOk(s.memory, s.record, Calls(s.threads))
  }

  /** The counter stays within the capacity, and a thread that has passed its test still finds room. */
  predicate CountOk(max: nat, s: State) {
    && 0 <= s.memory.count <= max
    && forall t :: 0 <= t < |s.threads| && s.threads[t].pc.Acting? ==> Room(max, s.memory, s.threads[t].role) > 0
  }

  lemma HolderIsOnlyCall(s: State, t: nat)
    requires LockOk(s) && t < |s.threads| && Holding(s.threads[t].pc)
    ensures OnlyCall(Calls(s.threads), t)
  {
  }

  /** Every step keeps the list in order; that the accesses of two calls do not mix is due to the mutex. */
  lemma NextInOrder(max: nat, s: State, a: Action)
    requires CanStep(s, a) && LockOk(s) && CountOk(max, s) && InOrder(s)
    ensures InOrder(Next(max, s, a))
  {
    var n, calls := Next(max, s, a), Calls(s.threads);
    if a.Step? && Holding(s.threads[a.t].pc) {
      HolderIsOnlyCall(s, a.t);
      if s.threads[a.t].pc.Acting? {
        AccessListOk(s.memory, s.record, calls, a.t, a.addr);
        assert Calls(n.threads) == calls[a.t := CallAfter(s.memory, calls[a.t].value, a.addr)];
      } else if n.threads[a.t].pc.Acting? {
        StartListOk(s.memory, s.record, calls, a.t, CallOf(n.threads[a.t]).value);
        assert Calls(n.threads) == calls[a.t := CallOf(n.threads[a.t])];
      } else {
        assert Calls(n.threads) == calls;
      }
    } else {
      assert Calls(n.threads) == calls;
    }
  }

  lemma CountAfterStep(max: nat, s: State, t: nat, addr: nat)
    requires CanStep(s, Step(t, addr)) && InOrder(s)
    ensures Next(max, s, Step(t, addr)).memory.count == s.memory.count + Change(CallOf(s.threads[t]))
  {
    var call := Calls(s.threads)[t];
    if call.Some? {
      CountAfter(s.memory, s.record, call.value, addr);
    }
  }

  lemma NextCountOk(max: nat, s: State, a: Action)
    requires CanStep(s, a) && LockOk(s) && CountOk(max, s) && InOrder(s)
    ensures CountOk(max, Next(max, s, a))
  {
    if a.Step? {
      CountAfterStep(max, s, a.t, a.addr);
      var n := Next(max, s, a);
      assert forall k :: 0 <= k < |s.threads| && k != a.t && n.threads[k].pc.Acting? ==> !Holding(s.threads[a.t].pc);
    }
  }

  // ---------- Wake-ups ----------

  datatype Kind = Sleeper | Woken | Signaller

  /** A signaller counts for the role that it is going to wake. */
  predicate IsKind(th: Thread, r: Role, k: Kind) {
    match k
    case Sleeper => th.role == r && th.pc == Asleep
    case Woken => th.role == r && th.woken
    case Signaller => th.role == Other(r) && th.pc == Signalling
  }

  function Is(r: Role, k: Kind): Thread -> bool {
    th => IsKind(th, r, k)
  }

  function Number(ts: seq<Thread>, r: Role, k: Kind): int {
    Count(ts, Is(r, k))
  }

  /** While a thread sleeps, there is no more room than threads already woken or about to be. */
  ghost predicate WakeOk(max: nat, s: State, r: Role) {
    Number(s.threads, r, Sleeper) > 0 ==>
      Room(max, s.memory, r) <= Number(s.threads, r, Woken) + Number(s.threads, r, Signaller)
  }

  /** Only a thread in its critical section or on its way back to it is marked as woken. */
  predicate MarksOk(s: State) {
    forall t :: 0 <= t < |s.threads| && s.threads[t].woken ==>
      s.threads[t].pc == Relocking || s.threads[t].pc == Testing || s.threads[t].pc.Acting?
  }

  lemma NextMarksOk(max: nat, s: State, a: Action)
    requires CanStep(s, a) && MarksOk(s)
    ensures MarksOk(Next(max, s, a))
  {
  }

  /** How one thread's change shifts the numbers of a role. */
  lemma AllNumbersUpdate(ts: seq<Thread>, r: Role, t: nat, th: Thread)
    requires t < |ts|
    ensures forall k ::
      Number(ts[t := th], r, k)
        == Number(ts, r, k) - (if IsKind(ts[t], r, k) then 1 else 0) + (if IsKind(th, r, k) then 1 else 0)
  {
    forall k
      ensures Number(ts[t := th], r, k)
        == Number(ts, r, k) - (if IsKind(ts[t], r, k) then 1 else 0) + (if IsKind(th, r, k) then 1 else 0)
    {
      CountUpdate(ts, Is(r, k), t, th);
    }
  }

  lemma StepWakeOk(max: nat, s: State, t: nat, addr: nat, n: State, r: Role)
    requires CanStep(s, Step(t, addr)) && MarksOk(s) && WakeOk(max, s, r) && CountOk(max, s)
    requires n == Next(max, s, Step(t, addr)) && n.memory.count == s.memory.count + Change(CallOf(s.threads[t]))
    requires s.threads[t].pc != Signalling
    ensures WakeOk(max, n, r)
  {
    AllNumbersUpdate(s.threads, r, t, ThreadAfter(max, s.memory, s.threads[t], addr));
    CountIsNatural(n.threads, Is(r, Woken));
    CountIsNatural(n.threads, Is(r, Signaller));
  }

  lemma SignalWakeOk(max: nat, s: State, t: nat, addr: nat, r: Role)
    requires CanStep(s, Step(t, addr)) && WakeOk(max, s, r) && s.threads[t].pc == Signalling
    ensures WakeOk(max, Next(max, s, Step(t, addr)), r)
  {
    AllNumbersUpdate(s.threads, r, t, ThreadAfter(max, s.memory, s.threads[t], addr));
    if r == Other(s.threads[t].role) && Number(s.threads, r, Sleeper) > 0 {
      var _ := CountWitness(s.threads, Is(r, Sleeper));
    }
  }

  lemma SignalOneWakeOk(max: nat, s: State, t: nat, k: nat, r: Role)
    requires CanStep(s, SignalOne(t, k)) && MarksOk(s) && WakeOk(max, s, r)
    ensures WakeOk(max, Next(max, s, SignalOne(t, k)), r)
  {
    var u := s.threads[t].(pc := Unlocking);
    AllNumbersUpdate(s.threads, r, t, u);
    AllNumbersUpdate(s.threads[t := u], r, k, s.threads[k].(pc := Relocking, woken := true));
  }

  lemma OtherWakeOk(max: nat, s: State, a: Action, r: Role)
    requires CanStep(s, a) && (a.Begin? || a.WakeSpuriously?) && MarksOk(s) && WakeOk(max, s, r)
    ensures WakeOk(max, Next(max, s, a), r)
  {
    AllNumbersUpdate(s.threads, r, a.t, Next(max, s, a).threads[a.t]);
  }

  lemma NextWakeOk(max: nat, s: State, a: Action, r: Role)
    requires CanStep(s, a) && MarksOk(s) && WakeOk(max, s, r) && CountOk(max, s) && InOrder(s)
    ensures WakeOk(max, Next(max, s, a), r)
  {
    match a
    case Step(t, addr) =>
      if s.threads[t].pc == Signalling {
        SignalWakeOk(max, s, t, addr, r);
      } else {
        CountAfterStep(max, s, t, addr);
        StepWakeOk(max, s, t, addr, Next(max, s, a), r);
      }
    case SignalOne(t, k) => SignalOneWakeOk(max, s, t, k, r);
    case _ => OtherWakeOk(max, s, a, r);
  }

  // ---------- Runs ----------

  ghost predicate Inv(max: nat, s: State) {
    LockOk(s) && InOrder(s) && CountOk(max, s) && MarksOk(s) && WakeOk(max, s, Producer) && WakeOk(max, s, Consumer)
  }

  lemma InitialInv(max: nat, s: State)
    requires IsInitial(s)
    ensures Inv(max, s)
  {
    CountNone(s.threads, Is(Producer, Sleeper));
    CountNone(s.threads, Is(Consumer, Sleeper));
  }

  lemma NextInv(max: nat, s: State, a: Action) returns (n: State)
    requires CanStep(s, a) && Inv(max, s)
    ensures n == Next(max, s, a) && Inv(max, n)
  {
    n := Next(max, s, a);
    NextLockOk(max, s, a);
    NextInOrder(max, s, a);
    NextCountOk(max, s, a);
    NextMarksOk(max, s, a);
    NextWakeOk(max, s, a, Producer);
    NextWakeOk(max, s, a, Consumer);
  }

  lemma {:induction false} RunInv(max: nat, s: State, run: seq<Action>, t: State)
    requires Leads(max, s, run, t) && Inv(max, s)
    ensures Inv(max, t)
    decreases |run|
  {
    if run != [] {
      var n := NextInv(max, s, run[0]);
      RunInv(max, n, run[1..], t);
    }
  }

  ghost predicate Reachable(max: nat, t: State) {
    exists s, run :: IsInitial(s) && Leads(max, s, run, t)
  }

  lemma ReachableInv(max: nat, t: State)
    requires Reachable(max, t)
    ensures Inv(max, t)
  {
    var s, run :| IsInitial(s) && Leads(max, s, run, t);
    InitialInv(max, s);
    RunInv(max, s, run, t);
  }

  // ---------- Theorems ----------

  /** In every state the values returned are the first of the values given, and the counter is in its range. */
  lemma FirstInFirstOut(max: nat, s: State)
    requires Reachable(max, s)
    ensures s.record.taken <= s.record.added && 0 <= s.memory.count <= max
  {
    ReachableInv(max, s);
    ReturnedInOrder(s.memory, s.record, Calls(s.threads));
  }

  /**
   * While no call is between its accesses, following the links from the first node spells exactly the values given
   * and not returned yet, in their order; the counter is their number, the last link leads to the last node if there
   * is one, and no other node is allocated.
   */
  lemma LinksSpellTheQueue(max: nat, s: State) returns (chain: seq<nat>)
    requires Reachable(max, s) && forall t :: 0 <= t < |s.threads| ==> !s.threads[t].pc.Acting?
    ensures Spells(s.memory, chain) && forall other :: Spells(s.memory, other) ==> other == chain
    ensures s.record.added == s.record.taken + Values(s.memory, chain)
    ensures s.memory.count == |chain| <= max && s.memory.live == Members(chain)
    ensures s.memory.first.Some? ==> chain != [] && s.memory.last == Some(chain[|chain| - 1])
  {
    ReachableInv(max, s);
    chain := s.record.chain;
    forall other | Spells(s.memory, other)
      ensures other == chain
    {
      SpelledOnce(s.memory, other, chain);
    }
  }

  /**
   * The list is only accessed by the holder of the mutex, who never finds it full or empty, and every access is to
   * memory that is allocated and was written before it is read.
   */
  lemma ChangesAreSafe(max: nat, s: State, t: nat, addr: nat)
    requires Reachable(max, s) && t < |s.threads| && s.threads[t].pc.Acting?
    requires s.threads[t].pc.at == Allocate ==> addr !in s.memory.live
    ensures s.lock == Some(t) && forall k :: 0 <= k < |s.threads| && Holding(s.threads[k].pc) ==> k == t
    ensures Room(max, s.memory, s.threads[t].role) > 0
    ensures IsSafe(s.memory, s.threads[t].pc.at, s.threads[t].local, addr) && CanStep(s, Step(t, addr))
  {
    ReachableInv(max, s);
    var th := s.threads[t];
    assert Calls(s.threads)[t].Some?;
    AccessIsSafe(s.memory, s.record, th.role, th.pc.at, th.local, addr);
  }

  /** No consumer sleeps while items outnumber the consumers already woken, nor a producer while free places do. */
  lemma NoLostWakeUp(max: nat, s: State, t: nat)
    requires Reachable(max, s) && t < |s.threads| && s.threads[t].pc == Asleep
    ensures var r := s.threads[t].role;
      Room(max, s.memory, r) <= Number(s.threads, r, Woken) + Number(s.threads, r, Signaller)
  {
    ReachableInv(max, s);
    CountPositive(s.threads, Is(s.threads[t].role, Sleeper), t);
  }

  /** Nothing is enabled but new calls and spurious wake-ups. */
  ghost predicate Quiet(s: State) {
    forall a :: CanStep(s, a) ==> a.Begin? || a.WakeSpuriously?
  }

  lemma HolderMoves(max: nat, s: State, t: nat)
    requires Inv(max, s) && t < |s.threads| && Holding(s.threads[t].pc)
    ensures !Quiet(s)
  {
    var th := s.threads[t];
    if th.pc == Signalling && AnyAsleep(s.threads, Other(th.role)) {
      var r :| 0 <= r < |s.threads| && s.threads[r].role == Other(th.role) && s.threads[r].pc == Asleep;
      assert CanStep(s, SignalOne(t, r));
    } else {
      var addr := FreeAddress(s.memory.live);
      if th.pc.Acting? {
        assert Calls(s.threads)[t].Some?;
        AccessIsSafe(s.memory, s.record, th.role, th.pc.at, th.local, addr);
      }
      assert CanStep(s, Step(t, addr));
    }
  }

  lemma FreeThreadMoves(s: State, t: nat)
    requires t < |s.threads| && s.lock == None && (s.threads[t].pc == Locking || s.threads[t].pc == Relocking)
    ensures !Quiet(s)
  {
    assert CanStep(s, Step(t, 0));
  }

  lemma QuietThread(max: nat, s: State, t: nat)
    requires Inv(max, s) && Quiet(s) && t < |s.threads|
    ensures s.threads[t].pc == Idle || s.threads[t].pc == Asleep
  {
    if s.lock.Some? {
      HolderMoves(max, s, s.lock.value);
    } else if s.threads[t].pc == Locking || s.threads[t].pc == Relocking {
      FreeThreadMoves(s, t);
    }
  }

  /** When all calls in progress are stuck, they are calls that the queue cannot serve. */
  lemma SleepsOnlyWithoutRoom(max: nat, s: State, t: nat)
    requires Reachable(max, s) && Quiet(s) && t < |s.threads| && s.threads[t].pc != Idle
    ensures s.threads[t].pc == Asleep && Room(max, s.memory, s.threads[t].role) == 0
  {
    ReachableInv(max, s);
    QuietThread(max, s, t);
    var r := s.threads[t].role;
    CountPositive(s.threads, Is(r, Sleeper), t);
    forall k | 0 <= k < |s.threads|
      ensures !IsKind(s.threads[k], r, Woken) && !IsKind(s.threads[k], r, Signaller)
    {
      QuietThread(max, s, k);
    }
    CountNone(s.threads, Is(r, Woken));
    CountNone(s.threads, Is(r, Signaller));
  }

  /** Producers and consumers are never stuck together. */
  lemma NoDeadlock(max: nat, s: State, p: nat, c: nat)
    requires Reachable(max, s) && max > 0 && p < |s.threads| && c < |s.threads|
    requires s.threads[p].role == Producer && s.threads[p].pc != Idle
    requires s.threads[c].role == Consumer && s.threads[c].pc != Idle
    ensures !Quiet(s)
  {
    if Quiet(s) {
      SleepsOnlyWithoutRoom(max, s, p);
      SleepsOnlyWithoutRoom(max, s, c);
    }
  }

  // ---------- What the callers see ----------

  ghost predicate IsStep(max: nat, s: State, a: Action, n: State) {
    CanStep(s, a) && n == Next(max, s, a)
  }

  ghost predicate IsStepAt(max: nat, run: seq<Action>, states: seq<State>, k: nat) {
    k < |run| && k + 1 < |states| && IsStep(max, states[k], run[k], states[k + 1])
  }

  /** A run with the states that it goes through. */
  ghost predicate IsTrace(max: nat, run: seq<Action>, states: seq<State>) {
    && |states| == |run| + 1
    && forall k {:trigger IsStepAt(max, run, states, k)} :: 0 <= k < |run| ==> IsStepAt(max, run, states, k)
  }

  lemma {:induction false} TraceLeads(max: nat, run: seq<Action>, states: seq<State>)
    requires IsTrace(max, run, states)
    ensures Leads(max, states[0], run, states[|run|])
    decreases |run|
  {
    if run != [] {
      forall k | 0 <= k < |run[1..]|
        ensures IsStepAt(max, run[1..], states[1..], k)
      {
        assert IsStepAt(max, run, states, k + 1);
      }
      TraceLeads(max, run[1..], states[1..]);
      assert IsStepAt(max, run, states, 0);
    }
  }

  predicate StartsOnList(s: State, a: Action) {
    a.Step? && a.t < |s.threads| && s.threads[a.t].pc == Acting(Allocate)
  }

  function PendingAfter(s: State, a: Action, pending: map<nat, int>): map<nat, int> {
    if a.Begin? && a.t < |s.threads| && s.threads[a.t].role == Producer then pending[a.t := a.val]
    else if StartsOnList(s, a) then pending - {a.t}
    else pending
  }

  /** The values that producers were called with and that have not started on the list, by thread. */
  function Pending(states: seq<State>, run: seq<Action>, k: nat): map<nat, int>
    requires k <= |run| < |states|
  {
    if k == 0 then map[] else PendingAfter(states[k - 1], run[k - 1], Pending(states, run, k - 1))
  }

  function GivenBy(s: State, a: Action, pending: map<nat, int>): seq<int> {
    if StartsOnList(s, a) && a.t in pending then [pending[a.t]] else []
  }

  /** The values that producers were called with, in the order in which their calls start on the list. */
  function Given(states: seq<State>, run: seq<Action>, k: nat): seq<int>
    requires k <= |run| < |states|
  {
    if k == 0 then []
    else Given(states, run, k - 1) + GivenBy(states[k - 1], run[k - 1], Pending(states, run, k - 1))
  }

  /** The values that consumers hold when their calls are over, in that order. */
  function Returned(states: seq<State>, run: seq<Action>, k: nat): seq<int>
    requires k <= |run| < |states|
  {
    if k == 0 then [] else Returned(states, run, k - 1) + ReturnedBy(run[k - 1], states[k])
  }

  function ReturnedBy(a: Action, n: State): seq<int> {
    if a.Step? && a.t < |n.threads| && n.threads[a.t].role == Consumer && n.threads[a.t].pc == Idle
    then [n.threads[a.t].local.val] else []
  }

  predicate HasBegun(th: Thread) {
    th.pc == Locking || th.pc == Testing || th.pc == Asleep || th.pc == Relocking || th.pc == Acting(Allocate)
  }

  /** A producer that has not started on the list holds the value it was called with. */
  predicate HoldsGiven(s: State, pending: map<nat, int>) {
    && (forall t :: 0 <= t < |s.threads| && s.threads[t].pc == Acting(Allocate) ==> s.threads[t].role == Producer)
    && (forall t :: 0 <= t < |s.threads| && s.threads[t].role == Producer && HasBegun(s.threads[t]) ==>
          t in pending && pending[t] == s.threads[t].local.val)
  }

  lemma NextHoldsGiven(max: nat, s: State, a: Action, n: State, pending: map<nat, int>)
    requires IsStep(max, s, a, n) && HoldsGiven(s, pending)
    ensures HoldsGiven(n, PendingAfter(s, a, pending))
    ensures n.record.added == s.record.added + GivenBy(s, a, pending)
  {
  }

  lemma {:induction false} AddedIsGiven(max: nat, run: seq<Action>, states: seq<State>, k: nat)
    requires IsTrace(max, run, states) && IsInitial(states[0]) && k <= |run|
    ensures HoldsGiven(states[k], Pending(states, run, k)) && states[k].record.added == Given(states, run, k)
  {
    if k > 0 {
      AddedIsGiven(max, run, states, k - 1);
      assert IsStepAt(max, run, states, k - 1);
      NextHoldsGiven(max, states[k - 1], run[k - 1], states[k], Pending(states, run, k - 1));
    }
  }

  /** The value that a consumer has taken but not returned yet. */
  function Unreturned(s: State): seq<int> {
    if s.lock.Some? && s.lock.value < |s.threads| then
      var th := s.threads[s.lock.value];
      if th.role == Consumer && (th.pc == Signalling || th.pc == Unlocking) then [th.local.val] else []
    else []
  }

  lemma NextReturns(max: nat, s: State, a: Action, n: State, returned: seq<int>)
    requires IsStep(max, s, a, n) && LockOk(s) && s.record.taken == returned + Unreturned(s)
    ensures LockOk(n) && n.record.taken == returned + ReturnedBy(a, n) + Unreturned(n)
  {
    NextLockOk(max, s, a);
  }

  lemma {:induction false} TakenIsReturned(max: nat, run: seq<Action>, states: seq<State>, k: nat)
    requires IsTrace(max, run, states) && IsInitial(states[0]) && k <= |run|
    ensures LockOk(states[k]) && states[k].record.taken == Returned(states, run, k) + Unreturned(states[k])
  {
    if k > 0 {
      TakenIsReturned(max, run, states, k - 1);
      assert IsStepAt(max, run, states, k - 1);
      NextReturns(max, states[k - 1], run[k - 1], states[k], Returned(states, run, k - 1));
    }
  }

  /**
   * Over every run: the values that the calls of consumers have returned are the first of the values that producers
   * were called with, in the order in which their calls started on the list.
   */
  lemma GetsReturnWhatAddsGave(max: nat, run: seq<Action>, states: seq<State>)
    requires IsTrace(max, run, states) && IsInitial(states[0])
    ensures var n := |run|;
      && states[n].record.added == Given(states, run, n)
      && states[n].record.taken == Returned(states, run, n) + Unreturned(states[n])
      && Returned(states, run, n) <= Given(states, run, n)
  {
    AddedIsGiven(max, run, states, |run|);
    TakenIsReturned(max, run, states, |run|);
    TraceLeads(max, run, states);
    FirstInFirstOut(max, states[|run|]);
  }
}
