/** A bounded queue whose producers and consumers wait on two semaphores. */
module SemaphoreQueue {
  import opened LinkedQueue
  import opened Options
  import opened Sums

  // ---------- The program ----------

  /**
   * Outside a call, at the wait on its own semaphore, waiting for the mutex, accessing the list,
   * posting the other semaphore, or about to release the mutex.
   */
  datatype Pc = Idle | Waiting | Locking | Acting(at: Place) | Posting | Unlocking

  datatype Thread = Thread(role: Role, pc: Pc, local: Local)

  /** empty and full are the semaphores. */
  datatype State = State(empty: int, full: int, lock: Option<nat>, memory: Memory, threads: seq<Thread>, record: Record)

  /** An allocation may get any free address. */
  datatype Action = Begin(t: nat, val: int) | Step(t: nat, addr: nat)

  predicate Holding(pc: Pc) {
    pc.Acting? || pc == Posting || pc == Unlocking
  }

  /** The semaphore that a role waits on. */
  function Permits(s: State, r: Role): int {
    if r == Producer then s.empty else s.full
  }

  predicate CanStep(s: State, a: Action) {
    && a.t < |s.threads|
    && var th := s.threads[a.t];
       match a
       case Begin(_, _) => th.pc == Idle
       case Step(_, addr) =>
         && th.pc != Idle
         && (th.pc == Waiting ==> Permits(s, th.role) > 0)
         && (th.pc == Locking ==> s.lock == None)
         && (th.pc.Acting? ==> IsSafe(s.memory, th.pc.at, th.local, addr))
  }

  function ThreadAfter(m: Memory, th: Thread, addr: nat): Thread
    requires th.pc.Acting? ==> IsSafe(m, th.pc.at, th.local, addr)
  {
    match th.pc
    case Idle => th
    case Waiting => th.(pc := Locking)
    case Locking => th.(pc := Acting(FirstPlace(th.role)))
    case Acting(p) =>
      if p == WriteCount then th.(pc := Posting)
      else th.(pc := Acting(PlaceAfter(m, p)), local := LocalAfter(m, p, th.local, addr))
    case Posting => th.(pc := Unlocking)
    case Unlocking => th.(pc := Idle)
  }

  function LockAfter(lock: Option<nat>, t: nat, pc: Pc): Option<nat> {
    if pc == Locking then Some(t) else if pc == Unlocking then None else lock
  }

  function Next(s: State, a: Action): State
    requires CanStep(s, a)
  {
    var th := s.threads[a.t];
    match a
    case Begin(t, val) => s.(threads := s.threads[t := th.(pc := Waiting, local := Local(val, None, None, 0))])
    case Step(t, addr) =>
      State(
        if th.pc == Waiting && th.role == Producer then s.empty - 1
        else if th.pc == Posting && th.role == Consumer then s.empty + 1 else s.empty,
        if th.pc == Waiting && th.role == Consumer then s.full - 1
        else if th.pc == Posting && th.role == Producer then s.full + 1 else s.full,
        LockAfter(s.lock, t, th.pc),
        if th.pc.Acting? then MemoryAfter(s.memory, th.role, th.pc.at, th.local, addr) else s.memory,
        s.threads[t := ThreadAfter(s.memory, th, addr)],
        if th.pc.Acting? then RecordAfter(s.record, th.role, th.pc.at, th.local) else s.record)
  }

  ghost predicate IsInitial(max: nat, s: State) {
    && s.empty == max && s.full == 0 && s.lock == None && s.memory == Blank() && s.record == Record([], [], [])
    && forall t :: 0 <= t < |s.threads| ==> s.threads[t].pc == Idle
  }

  ghost predicate Leads(s: State, run: seq<Action>, t: State)
    decreases |run|
  {
    if run == [] then t == s else CanStep(s, run[0]) && Leads(Next(s, run[0]), run[1..], t)
  }

  // ---------- The mutex and the list ----------

  predicate LockOk(s: State) {
    && (s.lock.Some? ==> s.lock.value < |s.threads|)
    && forall t :: 0 <= t < |s.threads| ==> (Holding(s.threads[t].pc) <==> s.lock == Some(t))
  }

  lemma NextLockOk(s: State, a: Action)
    requires CanStep(s, a) && LockOk(s)
    ensures LockOk(Next(s, a))
  {
  }

  /** The access that a thread is about to make to the list. */
  function CallOf(th: Thread): Option<Call> {
    if th.pc.Acting? then Some(Call(th.role, th.pc.at, th.local)) else None
  }

  function Calls(ts: seq<Thread>): (calls: seq<Option<Call>>)
    ensures |calls| == |ts| && forall t :: 0 <= t < |ts| ==> calls[t] == CallOf(ts[t])
  {
    seq(|ts|, t requires 0 <= t < |ts| => CallOf(ts[t]))
  }

  predicate InOrder(s: State) {
    ListOk(s.memory, s.record, Calls(s.threads))
  }

  lemma StepInOrder(s: State, a: Action)
    requires CanStep(s, a) && LockOk(s) && InOrder(s)
    requires a.Step? && s.threads[a.t].pc == Acting(TakeFirst) ==> s.memory.count > 0
    ensures InOrder(Next(s, a))
  {
    var n, calls := Next(s, a), Calls(s.threads);
    if a.Step? && (s.threads[a.t].pc.Acting? || s.threads[a.t].pc == Locking) {
      assert OnlyCall(calls, a.t);
      if s.threads[a.t].pc.Acting? {
        AccessListOk(s.memory, s.record, calls, a.t, a.addr);
        assert Calls(n.threads) == calls[a.t := CallAfter(s.memory, calls[a.t].value, a.addr)];
      } else {
        StartListOk(s.memory, s.record, calls, a.t, CallOf(n.threads[a.t]).value);
        assert Calls(n.threads) == calls[a.t := CallOf(n.threads[a.t])];
      }
    } else {
      assert Calls(n.threads) == calls;
    }
  }

  /** Every step keeps the list in order; that the accesses of two calls do not mix is due to the mutex. */
  lemma NextInOrder(max: nat, s: State, a: Action)
    requires CanStep(s, a) && LockOk(s) && Conserved(max, s) && InOrder(s)
    ensures InOrder(Next(s, a))
  {
    if a.Step? && s.threads[a.t].pc == Acting(TakeFirst) {
      AccessFindsRoom(max, s, a.t);
      assert CallOf(s.threads[a.t]) == Calls(s.threads)[a.t];
    }
    StepInOrder(s, a);
  }

  lemma CountAfterStep(s: State, t: nat, addr: nat)
    requires CanStep(s, Step(t, addr)) && InOrder(s)
    ensures Next(s, Step(t, addr)).memory.count == s.memory.count + Change(CallOf(s.threads[t]))
  {
    var call := Calls(s.threads)[t];
    if call.Some? {
      CountAfter(s.memory, s.record, call.value, addr);
    }
  }

  // ---------- Conservation ----------

  /** A permit is taken by a thread that has not changed the counter yet, or owed by one that has not posted yet. */
  datatype Kind = Taken | Owed

  predicate IsKind(th: Thread, r: Role, k: Kind) {
    && th.role == r
    && if k == Taken then th.pc == Locking || th.pc.Acting? else th.pc == Posting
  }

  function Is(r: Role, k: Kind): Thread -> bool {
    th => IsKind(th, r, k)
  }

  function Number(ts: seq<Thread>, r: Role, k: Kind): int {
    Count(ts, Is(r, k))
  }

  /** Free places are in the semaphore, taken by producers or owed by consumers; items likewise. */
  ghost predicate Conserved(max: nat, s: State) {
    && s.empty >= 0 && s.full >= 0
    && s.empty + Number(s.threads, Producer, Taken) + Number(s.threads, Consumer, Owed) == max - s.memory.count
    && s.full + Number(s.threads, Consumer, Taken) + Number(s.threads, Producer, Owed) == s.memory.count
  }

  lemma NumbersUpdate(ts: seq<Thread>, t: nat, th: Thread)
    requires t < |ts|
    ensures forall r, k ::
      Number(ts[t := th], r, k)
        == Number(ts, r, k) - (if IsKind(ts[t], r, k) then 1 else 0) + (if IsKind(th, r, k) then 1 else 0)
  {
    forall r, k
      ensures Number(ts[t := th], r, k)
        == Number(ts, r, k) - (if IsKind(ts[t], r, k) then 1 else 0) + (if IsKind(th, r, k) then 1 else 0)
    {
      CountUpdate(ts, Is(r, k), t, th);
    }
  }

  lemma StepConserved(max: nat, s: State, t: nat, addr: nat, n: State)
    requires CanStep(s, Step(t, addr)) && Conserved(max, s) && n == Next(s, Step(t, addr))
    requires n.memory.count == s.memory.count + Change(CallOf(s.threads[t]))
    ensures Conserved(max, n)
  {
    NumbersUpdate(s.threads, t, n.threads[t]);
  }

  lemma NextConserved(max: nat, s: State, a: Action)
    requires CanStep(s, a) && Conserved(max, s) && InOrder(s)
    ensures Conserved(max, Next(s, a))
  {
    if a.Step? {
      CountAfterStep(s, a.t, a.addr);
      StepConserved(max, s, a.t, a.addr, Next(s, a));
    } else {
      NumbersUpdate(s.threads, a.t, Next(s, a).threads[a.t]);
    }
  }

  lemma CountInRange(max: nat, s: State)
    requires Conserved(max, s)
    ensures 0 <= s.memory.count <= max
  {
    CountIsNatural(s.threads, Is(Producer, Taken));
    CountIsNatural(s.threads, Is(Consumer, Owed));
    CountIsNatural(s.threads, Is(Consumer, Taken));
    CountIsNatural(s.threads, Is(Producer, Owed));
  }

  /** A thread with a permit finds a place or an item without a test. */
  lemma AccessFindsRoom(max: nat, s: State, t: nat)
    requires Conserved(max, s) && t < |s.threads| && s.threads[t].pc.Acting?
    ensures if s.threads[t].role == Producer then s.memory.count < max else s.memory.count > 0
  {
    CountPositive(s.threads, Is(s.threads[t].role, Taken), t);
    CountIsNatural(s.threads, Is(Consumer, Owed));
    CountIsNatural(s.threads, Is(Producer, Owed));
  }

  // ---------- Runs ----------

  ghost predicate Inv(max: nat, s: State) {
    LockOk(s) && Conserved(max, s) && InOrder(s)
  }

  lemma InitialInv(max: nat, s: State)
    requires IsInitial(max, s)
    ensures Inv(max, s)
  {
    CountNone(s.threads, Is(Producer, Taken));
    CountNone(s.threads, Is(Consumer, Owed));
    CountNone(s.threads, Is(Consumer, Taken));
    CountNone(s.threads, Is(Producer, Owed));
  }

  lemma {:induction false} RunInv(max: nat, s: State, run: seq<Action>, t: State)
    requires Leads(s, run, t) && Inv(max, s)
    ensures Inv(max, t)
    decreases |run|
  {
    if run != [] {
      NextLockOk(s, run[0]);
      NextConserved(max, s, run[0]);
      NextInOrder(max, s, run[0]);
      RunInv(max, Next(s, run[0]), run[1..], t);
    }
  }

  ghost predicate Reachable(max: nat, t: State) {
    exists s, run :: IsInitial(max, s) && Leads(s, run, t)
  }

  lemma ReachableInv(max: nat, t: State)
    requires Reachable(max, t)
    ensures Inv(max, t)
  {
    var s, run :| IsInitial(max, s) && Leads(s, run, t);
    InitialInv(max, s);
    RunInv(max, s, run, t);
  }

  // ---------- Theorems ----------

  /** Every place of the queue is accounted for: in a semaphore or in a call under way. */
  lemma PermitsAreConserved(max: nat, s: State)
    requires Reachable(max, s)
    ensures s.empty + s.full
      + Number(s.threads, Producer, Taken) + Number(s.threads, Consumer, Owed)
      + Number(s.threads, Consumer, Taken) + Number(s.threads, Producer, Owed) == max
  {
    ReachableInv(max, s);
  }

  /**
   * In every state the values returned are the first of the values given, and the counter is in its range, so that
   * it may be read and compared without the mutex.
   */
  lemma FirstInFirstOut(max: nat, s: State)
    requires Reachable(max, s)
    ensures s.record.taken <= s.record.added && 0 <= s.memory.count <= max
  {
    ReachableInv(max, s);
    CountInRange(max, s);
    ReturnedInOrder(s.memory, s.record, Calls(s.threads));
  }

  /**
   * While no call is between its accesses, following the links from the first node spells exactly the values given
   * and not returned yet, in their order; the counter is their number, the last link leads to the last node if there
   * is one, and no other node is allocated.
   */
  lemma LinksSpellTheQueue(max: nat, s: State) returns (chain: seq<nat>)
    requires Reachable(max, s) && forall t :: 0 <= t < |s.threads| ==> !s.threads[t].pc.Acting?
    ensures Spells(s.memory, chain) && forall other :: Spells(s.memory, other) ==> other == chain
    ensures s.record.added == s.record.taken + Values(s.memory, chain)
    ensures s.memory.count == |chain| <= max && s.memory.live == Members(chain)
    ensures s.memory.first.Some? ==> chain != [] && s.memory.last == Some(chain[|chain| - 1])
  {
    ReachableInv(max, s);
    CountInRange(max, s);
    chain := s.record.chain;
    forall other | Spells(s.memory, other)
      ensures other == chain
    {
      SpelledOnce(s.memory, other, chain);
    }
  }

  /**
   * Whoever accesses the list holds the mutex and finds an item to take or a place to fill, without a test, and every
   * access is to memory that is allocated and was written before it is read.
   */
  lemma ChangesAreSafe(max: nat, s: State, t: nat, addr: nat)
    requires Reachable(max, s) && t < |s.threads| && s.threads[t].pc.Acting?
    requires s.threads[t].pc.at == Allocate ==> addr !in s.memory.live
    ensures s.lock == Some(t) && forall k :: 0 <= k < |s.threads| && Holding(s.threads[k].pc) ==> k == t
    ensures if s.threads[t].role == Producer then s.memory.count < max else s.memory.count > 0
    ensures IsSafe(s.memory, s.threads[t].pc.at, s.threads[t].local, addr) && CanStep(s, Step(t, addr))
  {
    ReachableInv(max, s);
    AccessFindsRoom(max, s, t);
    var th := s.threads[t];
    assert Calls(s.threads)[t].Some?;
    AccessIsSafe(s.memory, s.record, th.role, th.pc.at, th.local, addr);
  }

  /** Nothing is enabled but new calls. */
  ghost predicate Quiet(s: State) {
    forall a :: CanStep(s, a) ==> a.Begin?
  }

  lemma HolderMoves(max: nat, s: State, t: nat)
    requires Reachable(max, s) && t < |s.threads| && s.lock == Some(t)
    ensures !Quiet(s)
  {
    ReachableInv(max, s);
    var addr := FreeAddress(s.memory.live);
    if s.threads[t].pc.Acting? {
      ChangesAreSafe(max, s, t, addr);
    }
    assert CanStep(s, Step(t, addr));
  }

  lemma WaiterMoves(s: State, t: nat)
    requires t < |s.threads| && s.threads[t].pc == Waiting && Permits(s, s.threads[t].role) > 0
    ensures !Quiet(s)
  {
    assert CanStep(s, Step(t, 0));
  }

  lemma LockerMoves(s: State, t: nat)
    requires t < |s.threads| && s.threads[t].pc == Locking && s.lock == None
    ensures !Quiet(s)
  {
    assert CanStep(s, Step(t, 0));
  }

  lemma QuietThread(max: nat, s: State, t: nat)
    requires Reachable(max, s) && Quiet(s) && t < |s.threads|
    ensures s.threads[t].pc == Idle || (s.threads[t].pc == Waiting && Permits(s, s.threads[t].role) <= 0)
  {
    ReachableInv(max, s);
    if s.lock.Some? {
      HolderMoves(max, s, s.lock.value);
    } else if s.threads[t].pc == Locking {
      LockerMoves(s, t);
    } else if s.threads[t].pc == Waiting && Permits(s, s.threads[t].role) > 0 {
      WaiterMoves(s, t);
    }
  }

  /** When all calls in progress are stuck, producers wait for a full queue and consumers for an empty one. */
  lemma WaitsOnlyWithoutRoom(max: nat, s: State, t: nat)
    requires Reachable(max, s) && Quiet(s) && t < |s.threads| && s.threads[t].pc != Idle
    ensures s.threads[t].pc == Waiting
    ensures if s.threads[t].role == Producer then s.memory.count == max else s.memory.count == 0
  {
    ReachableInv(max, s);
    forall k | 0 <= k < |s.threads|
      ensures s.threads[k].pc == Idle || s.threads[k].pc == Waiting
    {
      QuietThread(max, s, k);
    }
    QuietThread(max, s, t);
    CountNone(s.threads, Is(Producer, Taken));
    CountNone(s.threads, Is(Consumer, Owed));
    CountNone(s.threads, Is(Consumer, Taken));
    CountNone(s.threads, Is(Producer, Owed));
  }

  /** Producers and consumers are never stuck together. */
  lemma NoDeadlock(max: nat, s: State, p: nat, c: nat)
    requires Reachable(max, s) && max > 0 && p < |s.threads| && c < |s.threads|
    requires s.threads[p].role == Producer && s.threads[p].pc != Idle
    requires s.threads[c].role == Consumer && s.threads[c].pc != Idle
    ensures !Quiet(s)
  {
    if Quiet(s) {
      WaitsOnlyWithoutRoom(max, s, p);
      WaitsOnlyWithoutRoom(max, s, c);
    }
  }

  // ---------- What the callers see ----------

  ghost predicate IsStep(s: State, a: Action, n: State) {
    CanStep(s, a) && n == Next(s, a)
  }

  ghost predicate IsStepAt(run: seq<Action>, states: seq<State>, k: nat) {
    k < |run| && k + 1 < |states| && IsStep(states[k], run[k], states[k + 1])
  }

  /** A run with the states that it goes through. */
  ghost predicate IsTrace(run: seq<Action>, states: seq<State>) {
    && |states| == |run| + 1
    && forall k {:trigger IsStepAt(run, states, k)} :: 0 <= k < |run| ==> IsStepAt(run, states, k)
  }

  lemma {:induction false} TraceLeads(run: seq<Action>, states: seq<State>)
    requires IsTrace(run, states)
    ensures Leads(states[0], run, states[|run|])
    decreases |run|
  {
    if run != [] {
      forall k | 0 <= k < |run[1..]|
        ensures IsStepAt(run[1..], states[1..], k)
      {
        assert IsStepAt(run, states, k + 1);
      }
      TraceLeads(run[1..], states[1..]);
      assert IsStepAt(run, states, 0);
    }
  }

  predicate StartsOnList(s: State, a: Action) {
    a.Step? && a.t < |s.threads| && s.threads[a.t].pc == Acting(Allocate)
  }

  function PendingAfter(s: State, a: Action, pending: map<nat, int>): map<nat, int> {
    if a.Begin? && a.t < |s.threads| && s.threads[a.t].role == Producer then pending[a.t := a.val]
    else if StartsOnList(s, a) then pending - {a.t}
    else pending
  }

  /** The values that producers were called with and that have not started on the list, by thread. */
  function Pending(states: seq<State>, run: seq<Action>, k: nat): map<nat, int>
    requires k <= |run| < |states|
  {
    if k == 0 then map[] else PendingAfter(states[k - 1], run[k - 1], Pending(states, run, k - 1))
  }

  function GivenBy(s: State, a: Action, pending: map<nat, int>): seq<int> {
    if StartsOnList(s, a) && a.t in pending then [pending[a.t]] else []
  }

  /** The values that producers were called with, in the order in which their calls start on the list. */
  function Given(states: seq<State>, run: seq<Action>, k: nat): seq<int>
    requires k <= |run| < |states|
  {
    if k == 0 then []
    else Given(states, run, k - 1) + GivenBy(states[k - 1], run[k - 1], Pending(states, run, k - 1))
  }

  /** The values that consumers hold when their calls are over, in that order. */
  function Returned(states: seq<State>, run: seq<Action>, k: nat): seq<int>
    requires k <= |run| < |states|
  {
    if k == 0 then [] else Returned(states, run, k - 1) + ReturnedBy(run[k - 1], states[k])
  }

  function ReturnedBy(a: Action, n: State): seq<int> {
    if a.Step? && a.t < |n.threads| && n.threads[a.t].role == Consumer && n.threads[a.t].pc == Idle
    then [n.threads[a.t].local.val] else []
  }

  predicate HasBegun(th: Thread) {
    th.pc == Waiting || th.pc == Locking || th.pc == Acting(Allocate)
  }

  /** A producer that has not started on the list holds the value it was called with. */
  predicate HoldsGiven(s: State, pending: map<nat, int>) {
    && (forall t :: 0 <= t < |s.threads| && s.threads[t].pc == Acting(Allocate) ==> s.threads[t].role == Producer)
    && (forall t :: 0 <= t < |s.threads| && s.threads[t].role == Producer && HasBegun(s.threads[t]) ==>
          t in pending && pending[t] == s.threads[t].local.val)
  }

  lemma NextHoldsGiven(s: State, a: Action, n: State, pending: map<nat, int>)
    requires IsStep(s, a, n) && HoldsGiven(s, pending)
    ensures HoldsGiven(n, PendingAfter(s, a, pending))
    ensures n.record.added == s.record.added + GivenBy(s, a, pending)
  {
  }

  lemma {:induction false} AddedIsGiven(max: nat, run: seq<Action>, states: seq<State>, k: nat)
    requires IsTrace(run, states) && IsInitial(max, states[0]) && k <= |run|
    ensures HoldsGiven(states[k], Pending(states, run, k)) && states[k].record.added == Given(states, run, k)
  {
    if k > 0 {
      AddedIsGiven(max, run, states, k - 1);
      assert IsStepAt(run, states, k - 1);
      NextHoldsGiven(states[k - 1], run[k - 1], states[k], Pending(states, run, k - 1));
    }
  }

  /** The value that a consumer has taken but not returned yet. */
  function Unreturned(s: State): seq<int> {
    if s.lock.Some? && s.lock.value < |s.threads| then
      var th := s.threads[s.lock.value];
      if th.role == Consumer && (th.pc == Posting || th.pc == Unlocking) then [th.local.val] else []
    else []
  }

  lemma NextReturns(s: State, a: Action, n: State, returned: seq<int>)
    requires IsStep(s, a, n) && LockOk(s) && s.record.taken == returned + Unreturned(s)
    ensures LockOk(n) && n.record.taken == returned + ReturnedBy(a, n) + Unreturned(n)
  {
    NextLockOk(s, a);
  }

  lemma {:induction false} TakenIsReturned(max: nat, run: seq<Action>, states: seq<State>, k: nat)
    requires IsTrace(run, states) && IsInitial(max, states[0]) && k <= |run|
    ensures LockOk(states[k]) && states[k].record.taken == Returned(states, run, k) + Unreturned(states[k])
  {
    if k > 0 {
      TakenIsReturned(max, run, states, k - 1);
      assert IsStepAt(run, states, k - 1);
      NextReturns(states[k - 1], run[k - 1], states[k], Returned(states, run, k - 1));
    }
  }

  /**
   * Over every run: the values that the calls of consumers have returned are the first of the values that producers
   * were called with, in the order in which their calls started on the list.
   */
  lemma GetsReturnWhatAddsGave(max: nat, run: seq<Action>, states: seq<State>)
    requires IsTrace(run, states) && IsInitial(max, states[0])
    ensures var n := |run|;
      && states[n].record.added == Given(states, run, n)
      && states[n].record.taken == Returned(states, run, n) + Unreturned(states[n])
      && Returned(states, run, n) <= Given(states, run, n)
  {
    AddedIsGiven(max, run, states, |run|);
    TakenIsReturned(max, run, states, |run|);
    TraceLeads(run, states);
    FirstInFirstOut(max, states[|run|]);
  }
}
