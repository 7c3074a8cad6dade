/** Threads that add to a shared counter under a mutex made of one word and a futex. */
module FutexMutex {
  import opened MachineWords
  import opened Sums

  // ---------- The program ----------

  /**
   * Where a thread is: testing its loop, at the compare-exchange, at the futex wait, asleep in it,
   * loading and storing the counter, releasing the word, waking a sleeper, or at the end.
   */
  datatype Pc = Test | Cas | Wait | Asleep | Load | Store | Unlock | Wake | Done

  datatype Thread = Thread(pc: Pc, i: nat, register: nat)

  datatype State = State(locked: bool, sum: nat, threads: seq<Thread>)

  /** Wake(t, s) wakes the sleeper s; the last two are allowed to happen for no reason. */
  datatype Action = Step(t: nat) | WakeOne(t: nat, sleeper: nat) | FailCas(t: nat) | WakeSpuriously(t: nat)

  predicate AnyAsleep(s: State) {
    exists r :: 0 <= r < |s.threads| && s.threads[r].pc == Asleep
  }

  predicate CanStep(s: State, a: Action) {
    && a.t < |s.threads|
    && match a
       case Step(t) =>
         && s.threads[t].pc != Asleep && s.threads[t].pc != Done
         && (s.threads[t].pc == Wake ==> !AnyAsleep(s))
       case WakeOne(t, r) => s.threads[t].pc == Wake && r < |s.threads| && s.threads[r].pc == Asleep
       case FailCas(t) => s.threads[t].pc == Cas && !s.locked
       case WakeSpuriously(t) => s.threads[t].pc == Asleep
  }

  predicate Spurious(a: Action) {
    a.FailCas? || a.WakeSpuriously?
  }

  /** The thread after a step of its own. */
  function ThreadAfter(th: Thread, locked: bool, sum: nat, count: nat): Thread {
    match th.pc
    case Test => th.(pc := if th.i < count then Cas else Done)
    case Cas => th.(pc := if locked then Wait else Load)
    case Wait => th.(pc := if locked then Asleep else Cas)
    case Load => th.(pc := Store, register := sum)
    case Store => th.(pc := Unlock)
    case Unlock => th.(pc := Wake)
    case Wake => th.(pc := Test, i := th.i + 1)
    case _ => th
  }

  function LockedAfter(pc: Pc, locked: bool): bool {
    if pc == Cas then true else if pc == Unlock then false else locked
  }

  function SumAfter(th: Thread, sum: nat): nat {
    if th.pc == Store then Uint64(th.register + 1) else sum
  }

  function Next(counts: seq<nat>, s: State, a: Action): State
    requires |counts| == |s.threads| && CanStep(s, a)
  {
    var th := s.threads[a.t];
    match a
    case Step(t) =>
      State(LockedAfter(th.pc, s.locked), SumAfter(th, s.sum),
            s.threads[t := ThreadAfter(th, s.locked, s.sum, counts[t])])
    case WakeOne(t, r) =>
      s.(threads := s.threads[t := ThreadAfter(th, s.locked, s.sum, counts[t])][r := s.threads[r].(pc := Cas)])
    case FailCas(t) => s.(threads := s.threads[t := th.(pc := Wait)])
    case WakeSpuriously(t) => s.(threads := s.threads[t := th.(pc := Cas)])
  }

  ghost predicate IsInitial(counts: seq<nat>, s: State) {
    !s.locked && s.sum == 0 && s.threads == seq(|counts|, _ => Thread(Test, 0, 0))
  }

  /** The actions lead from one state to another. */
  ghost predicate Leads(counts: seq<nat>, s: State, run: seq<Action>, t: State)
    requires |counts| == |s.threads|
    decreases |run|
  {
    if run == [] then t == s else CanStep(s, run[0]) && Leads(counts, Next(counts, s, run[0]), run[1..], t)
  }

  // ---------- Mutual exclusion ----------

  predicate Critical(pc: Pc) {
    pc == Load || pc == Store || pc == Unlock
  }

  /** The word is locked exactly while one thread is in its critical section. */
  ghost predicate Exclusive(s: State) {
    && (forall a, b :: 0 <= a < |s.threads| && 0 <= b < |s.threads| && Critical(s.threads[a].pc) && Critical(s.threads[b].pc)
          ==> a == b)
    && (forall a :: 0 <= a < |s.threads| && Critical(s.threads[a].pc) ==> s.locked)
    && (s.locked ==> exists a :: 0 <= a < |s.threads| && Critical(s.threads[a].pc))
  }

  lemma StepExclusive(counts: seq<nat>, s: State, t: nat)
    requires |counts| == |s.threads| && CanStep(s, Step(t)) && Exclusive(s)
    ensures Exclusive(Next(counts, s, Step(t)))
  {
    var n := Next(counts, s, Step(t));
    if n.locked && s.locked {
      var a :| 0 <= a < |s.threads| && Critical(s.threads[a].pc);
      assert Critical(n.threads[a].pc);
    }
    if !s.locked && n.locked {
      assert Critical(n.threads[t].pc);
    }
  }

  lemma NextExclusive(counts: seq<nat>, s: State, a: Action)
    requires |counts| == |s.threads| && CanStep(s, a) && Exclusive(s)
    ensures Exclusive(Next(counts, s, a))
  {
    if a.Step? {
      StepExclusive(counts, s, a.t);
    } else {
      var n := Next(counts, s, a);
      assert forall r :: 0 <= r < |s.threads| ==> (Critical(n.threads[r].pc) <==> Critical(s.threads[r].pc));
    }
  }

  // ---------- No lost wake-up ----------

  predicate Retrying(pc: Pc) {
    pc == Cas || pc == Wait
  }

  /** Somebody will let a sleeper in: the holder, a thread about to wake, or one that is trying itself. */
  ghost predicate WakeComing(s: State) {
    AnyAsleep(s) ==>
      || s.locked
      || exists r :: 0 <= r < |s.threads| && (s.threads[r].pc == Wake || Retrying(s.threads[r].pc))
  }

  lemma NextWakeComing(counts: seq<nat>, s: State, a: Action)
    requires |counts| == |s.threads| && CanStep(s, a) && WakeComing(s)
    ensures WakeComing(Next(counts, s, a))
  {
    var n := Next(counts, s, a);
    if AnyAsleep(n) && !n.locked {
      match a
      case Step(t) =>
        if s.locked {
          assert n.threads[t].pc == Wake;
        } else if AnyAsleep(s) {
          var r :| 0 <= r < |s.threads| && (s.threads[r].pc == Wake || Retrying(s.threads[r].pc));
          assert n.threads[r].pc == Wake || Retrying(n.threads[r].pc);
        } else {
          var r :| 0 <= r < |n.threads| && n.threads[r].pc == Asleep;
          assert s.threads[r].pc != Asleep;
        }
      case WakeOne(t, r) => assert Retrying(n.threads[r].pc);
      case FailCas(t) => assert Retrying(n.threads[t].pc);
      case WakeSpuriously(t) => assert Retrying(n.threads[t].pc);
    }
  }

  // ---------- The counter ----------

  /** How many increments of a thread have reached the counter. */
  function Added(th: Thread): nat {
    if th.pc == Unlock || th.pc == Wake then th.i + 1 else th.i
  }

  function AllAdded(ts: seq<Thread>): (xs: seq<int>)
    ensures |xs| == |ts| && forall k :: 0 <= k < |ts| ==> xs[k] == Added(ts[k])
  {
    seq(|ts|, k requires 0 <= k < |ts| => Added(ts[k]))
  }

  /** The counter holds every increment that was stored, and a thread about to store has read it. */
  ghost predicate Counted(s: State) {
    && Sum(AllAdded(s.threads)) >= 0
    && s.sum == Uint64(Sum(AllAdded(s.threads)))
    && forall k :: 0 <= k < |s.threads| && s.threads[k].pc == Store ==> s.threads[k].register == s.sum
  }

  lemma AddedUpdate(ts: seq<Thread>, k: nat, th: Thread)
    requires k < |ts|
    ensures Sum(AllAdded(ts[k := th])) == Sum(AllAdded(ts)) - Added(ts[k]) + Added(th)
  {
    SumUpdate(AllAdded(ts), k, Added(th));
    assert AllAdded(ts[k := th]) == AllAdded(ts)[k := Added(th)];
  }

  lemma Uint64Succ(x: nat)
    ensures Uint64(Uint64(x) + 1) == Uint64(x + 1)
  {
  }

  lemma StepCounted(counts: seq<nat>, s: State, t: nat)
    requires |counts| == |s.threads| && CanStep(s, Step(t)) && Exclusive(s) && Counted(s)
    ensures Counted(Next(counts, s, Step(t)))
  {
    var th := s.threads[t];
    AddedUpdate(s.threads, t, ThreadAfter(th, s.locked, s.sum, counts[t]));
    Uint64Succ(Sum(AllAdded(s.threads)));
  }

  lemma WakeOneCounted(counts: seq<nat>, s: State, t: nat, r: nat)
    requires |counts| == |s.threads| && CanStep(s, WakeOne(t, r)) && Counted(s)
    ensures Counted(Next(counts, s, WakeOne(t, r)))
  {
    var ts := s.threads[t := ThreadAfter(s.threads[t], s.locked, s.sum, counts[t])];
    AddedUpdate(s.threads, t, ts[t]);
    AddedUpdate(ts, r, s.threads[r].(pc := Cas));
  }

  lemma SpuriousCounted(counts: seq<nat>, s: State, a: Action)
    requires |counts| == |s.threads| && CanStep(s, a) && Spurious(a) && Counted(s)
    ensures Counted(Next(counts, s, a))
  {
    AddedUpdate(s.threads, a.t, s.threads[a.t].(pc := if a.FailCas? then Wait else Cas));
  }

  lemma NextCounted(counts: seq<nat>, s: State, a: Action)
    requires |counts| == |s.threads| && CanStep(s, a) && Exclusive(s) && Counted(s)
    ensures Counted(Next(counts, s, a))
  {
    match a
    case Step(t) => StepCounted(counts, s, t);
    case WakeOne(t, r) => WakeOneCounted(counts, s, t, r);
    case _ => SpuriousCounted(counts, s, a);
  }

  /** No thread goes beyond its count, and one that has ended has reached it. */
  predicate InBounds(th: Thread, count: nat) {
    if th.pc == Test then th.i <= count else if th.pc == Done then th.i == count else th.i < count
  }

  predicate AllInBounds(counts: seq<nat>, s: State) {
    |counts| == |s.threads| && forall k :: 0 <= k < |s.threads| ==> InBounds(s.threads[k], counts[k])
  }

  lemma NextInBounds(counts: seq<nat>, s: State, a: Action)
    requires AllInBounds(counts, s) && CanStep(s, a)
    ensures AllInBounds(counts, Next(counts, s, a))
  {
  }

  // ---------- Runs ----------

  ghost predicate Inv(counts: seq<nat>, s: State) {
    AllInBounds(counts, s) && Exclusive(s) && WakeComing(s) && Counted(s)
  }

  lemma InitialInv(counts: seq<nat>, s: State)
    requires IsInitial(counts, s)
    ensures Inv(counts, s)
  {
    ZeroSum(AllAdded(s.threads));
  }

  lemma {:induction false} RunInv(counts: seq<nat>, s: State, run: seq<Action>, t: State)
    requires |counts| == |s.threads| && Leads(counts, s, run, t) && Inv(counts, s)
    ensures Inv(counts, t)
    decreases |run|
  {
    if run != [] {
      NextInBounds(counts, s, run[0]);
      NextExclusive(counts, s, run[0]);
      NextWakeComing(counts, s, run[0]);
      NextCounted(counts, s, run[0]);
      RunInv(counts, Next(counts, s, run[0]), run[1..], t);
    }
  }

  ghost predicate Reachable(counts: seq<nat>, t: State) {
    exists s, run :: IsInitial(counts, s) && Leads(counts, s, run, t)
  }

  lemma ReachableInv(counts: seq<nat>, t: State)
    requires Reachable(counts, t)
    ensures Inv(counts, t)
  {
    var s, run :| IsInitial(counts, s) && Leads(counts, s, run, t);
    InitialInv(counts, s);
    RunInv(counts, s, run, t);
  }

  // ---------- Theorems ----------

  /** At most one thread is between its lock and its unlock. */
  lemma MutualExclusion(counts: seq<nat>, s: State, a: nat, b: nat)
    requires Reachable(counts, s) && a < |s.threads| && b < |s.threads|
    requires Critical(s.threads[a].pc) && Critical(s.threads[b].pc)
    ensures a == b && s.locked
  {
    ReachableInv(counts, s);
  }

  /** While a thread sleeps, the word is locked, a wake is pending or an awake thread is trying. */
  lemma NoLostWakeUp(counts: seq<nat>, s: State, t: nat)
    requires Reachable(counts, s) && t < |s.threads| && s.threads[t].pc == Asleep
    ensures s.locked || exists r :: 0 <= r < |s.threads| && (s.threads[r].pc == Wake || Retrying(s.threads[r].pc))
  {
    ReachableInv(counts, s);
  }

  /** As long as a thread has not ended, some thread can take a step that is not spurious. */
  lemma NoDeadlock(counts: seq<nat>, s: State) returns (a: Action)
    requires Reachable(counts, s) && exists t :: 0 <= t < |s.threads| && s.threads[t].pc != Done
    ensures CanStep(s, a) && !Spurious(a)
  {
    ReachableInv(counts, s);
    var t :| 0 <= t < |s.threads| && s.threads[t].pc != Done;
    if s.threads[t].pc == Asleep {
      if s.locked {
        var r :| 0 <= r < |s.threads| && Critical(s.threads[r].pc);
        a := Step(r);
      } else {
        var r :| 0 <= r < |s.threads| && (s.threads[r].pc == Wake || Retrying(s.threads[r].pc));
        a := if s.threads[r].pc == Wake then WakeOne(r, t) else Step(r);
      }
    } else if s.threads[t].pc == Wake && AnyAsleep(s) {
      var r :| 0 <= r < |s.threads| && s.threads[r].pc == Asleep;
      a := WakeOne(t, r);
    } else {
      a := Step(t);
    }
  }

  /** When all threads have ended, no increment is missing. */
  lemma SumIsExact(counts: seq<nat>, s: State)
    requires Reachable(counts, s) && forall t :: 0 <= t < |s.threads| ==> s.threads[t].pc == Done
    ensures Sum(counts) >= 0 && s.sum == Uint64(Sum(counts)) && !s.locked
  {
    ReachableInv(counts, s);
    assert AllAdded(s.threads) == counts;
  }

  // ---------- Every run ends ----------

  /** An unlock may send every waiting thread back to the compare-exchange. */
  function Effort(pc: Pc, locked: bool, b: nat): nat {
    match pc
    case Test => b + 9
    case Cas => b + 7
    case Wait => if locked then b + 6 else b + 8
    case Asleep => b + 5
    case Load => b + 4
    case Store => b + 3
    case Unlock => b + 2
    case Wake => 1
    case Done => 0
  }

  function Left(th: Thread, locked: bool, count: nat, b: nat): int {
    (count - th.i) * (b + 12) + Effort(th.pc, locked, b)
  }

  function AllLeft(counts: seq<nat>, ts: seq<Thread>, locked: bool, b: nat): (xs: seq<int>)
    requires |counts| == |ts|
    ensures |xs| == |ts| && forall k :: 0 <= k < |ts| ==> xs[k] == Left(ts[k], locked, counts[k], b)
  {
    seq(|ts|, k requires 0 <= k < |ts| => Left(ts[k], locked, counts[k], b))
  }

  function Remaining(counts: seq<nat>, s: State): int
    requires |counts| == |s.threads|
  {
    Sum(AllLeft(counts, s.threads, s.locked, 2 * |counts|))
  }

  lemma LeftUpdate(counts: seq<nat>, ts: seq<Thread>, locked: bool, b: nat, k: nat, th: Thread)
    requires |counts| == |ts| && k < |ts|
    ensures Sum(AllLeft(counts, ts[k := th], locked, b))
         == Sum(AllLeft(counts, ts, locked, b)) - Left(ts[k], locked, counts[k], b) + Left(th, locked, counts[k], b)
  {
    SumUpdate(AllLeft(counts, ts, locked, b), k, Left(th, locked, counts[k], b));
    assert AllLeft(counts, ts[k := th], locked, b) == AllLeft(counts, ts, locked, b)[k := Left(th, locked, counts[k], b)];
  }

  /** Taking the word makes nobody's effort greater; releasing it adds at most two to each. */
  lemma LeftAfterLock(counts: seq<nat>, ts: seq<Thread>, b: nat)
    requires |counts| == |ts|
    ensures Sum(AllLeft(counts, ts, true, b)) <= Sum(AllLeft(counts, ts, false, b)) <= Sum(AllLeft(counts, ts, true, b)) + 2 * |ts|
  {
    SumAtMost(AllLeft(counts, ts, true, b), AllLeft(counts, ts, false, b), 0);
    SumAtMost(AllLeft(counts, ts, false, b), AllLeft(counts, ts, true, b), 2);
  }

  /** Apart from the word, a step of a thread takes some of its effort, an unlock more than all others can gain. */
  lemma ThreadStepsDown(th: Thread, locked: bool, sum: nat, count: nat, b: nat)
    requires th.pc != Asleep && th.pc != Done
    ensures var after, now := ThreadAfter(th, locked, sum, count), LockedAfter(th.pc, locked);
      Left(after, now, count, b) < Left(th, now, count, b)
    ensures th.pc == Unlock ==> Left(ThreadAfter(th, locked, sum, count), false, count, b) < Left(th, false, count, b) - b
    ensures th.pc == Wake ==> Left(ThreadAfter(th, locked, sum, count), locked, count, b) < Left(th, locked, count, b) - 2
  {
    if th.pc == Wake {
      assert (count - (th.i + 1)) * (b + 12) == (count - th.i) * (b + 12) - (b + 12);
    }
  }

  lemma StepTakesEffort(counts: seq<nat>, s: State, t: nat)
    requires |counts| == |s.threads| && CanStep(s, Step(t))
    ensures Remaining(counts, Next(counts, s, Step(t))) < Remaining(counts, s)
  {
    var th, b := s.threads[t], 2 * |counts|;
    var n := Next(counts, s, Step(t));
    ThreadStepsDown(th, s.locked, s.sum, counts[t], b);
    LeftUpdate(counts, s.threads, n.locked, b, t, n.threads[t]);
    LeftAfterLock(counts, s.threads, b);
  }

  lemma SleeperGains(th: Thread, locked: bool, count: nat, b: nat)
    requires th.pc == Asleep
    ensures Left(th.(pc := Cas), locked, count, b) == Left(th, locked, count, b) + 2
  {
  }

  /** Two threads change; the first loses more than the second gains. */
  lemma TwoUpdates(counts: seq<nat>, ts: seq<Thread>, locked: bool, b: nat, t: nat, u: Thread, r: nat, w: Thread)
    requires |counts| == |ts| && t < |ts| && r < |ts| && t != r
    requires Left(u, locked, counts[t], b) < Left(ts[t], locked, counts[t], b) - 2
    requires Left(w, locked, counts[r], b) == Left(ts[r], locked, counts[r], b) + 2
    ensures Sum(AllLeft(counts, ts[t := u][r := w], locked, b)) < Sum(AllLeft(counts, ts, locked, b))
  {
    LeftUpdate(counts, ts, locked, b, t, u);
    LeftUpdate(counts, ts[t := u], locked, b, r, w);
  }

  lemma WakeOneTakesEffort(counts: seq<nat>, s: State, t: nat, r: nat)
    requires |counts| == |s.threads| && CanStep(s, WakeOne(t, r))
    ensures Remaining(counts, Next(counts, s, WakeOne(t, r))) < Remaining(counts, s)
  {
    var b := 2 * |counts|;
    ThreadStepsDown(s.threads[t], s.locked, s.sum, counts[t], b);
    SleeperGains(s.threads[r], s.locked, counts[r], b);
    var u := ThreadAfter(s.threads[t], s.locked, s.sum, counts[t]);
    TwoUpdates(counts, s.threads, s.locked, b, t, u, r, s.threads[r].(pc := Cas));
  }

  lemma SpuriousAddsEffort(counts: seq<nat>, s: State, a: Action)
    requires |counts| == |s.threads| && CanStep(s, a) && Spurious(a)
    ensures Remaining(counts, Next(counts, s, a)) <= Remaining(counts, s) + 2
  {
    var pc := if a.FailCas? then Wait else Cas;
    LeftUpdate(counts, s.threads, s.locked, 2 * |counts|, a.t, s.threads[a.t].(pc := pc));
  }

  lemma NextTakesEffort(counts: seq<nat>, s: State, a: Action)
    requires |counts| == |s.threads| && CanStep(s, a)
    ensures Remaining(counts, Next(counts, s, a)) <= Remaining(counts, s) + (if Spurious(a) then 2 else -1)
  {
    match a
    case Step(t) => StepTakesEffort(counts, s, t);
    case WakeOne(t, r) => WakeOneTakesEffort(counts, s, t, r);
    case _ => SpuriousAddsEffort(counts, s, a);
  }

  function SpuriousSteps(run: seq<Action>): nat {
    if run == [] then 0 else (if Spurious(run[0]) then 1 else 0) + SpuriousSteps(run[1..])
  }

  lemma LeftIsNatural(th: Thread, locked: bool, count: nat, b: nat)
    requires th.i <= count
    ensures Left(th, locked, count, b) >= 0
  {
    assert (count - th.i) * (b + 12) >= 0;
  }

  lemma RemainingIsNatural(counts: seq<nat>, s: State)
    requires AllInBounds(counts, s)
    ensures Remaining(counts, s) >= 0
  {
    var xs := AllLeft(counts, s.threads, s.locked, 2 * |counts|);
    forall k | 0 <= k < |xs|
      ensures xs[k] >= 0
    {
      LeftIsNatural(s.threads[k], s.locked, counts[k], 2 * |counts|);
    }
    var zeros := seq(|xs|, _ => 0);
    ZeroSum(zeros);
    SumAtMost(zeros, xs, 0);
  }

  lemma {:induction false} RunTakesEffort(counts: seq<nat>, s: State, run: seq<Action>, t: State)
    requires AllInBounds(counts, s) && Leads(counts, s, run, t)
    ensures |run| <= Remaining(counts, s) + 3 * SpuriousSteps(run)
    decreases |run|
  {
    RemainingIsNatural(counts, s);
    if run != [] {
      NextInBounds(counts, s, run[0]);
      NextTakesEffort(counts, s, run[0]);
      RunTakesEffort(counts, Next(counts, s, run[0]), run[1..], t);
    }
  }

  function Bound(n: nat, count: nat): nat {
    n * (count * (2 * n + 12) + 2 * n + 9)
  }

  /** However the threads are scheduled, a run without spurious steps ends; each spurious step adds at most three. */
  lemma EveryRunEnds(n: nat, count: nat, s: State, run: seq<Action>, t: State)
    requires IsInitial(seq(n, _ => count), s) && Leads(seq(n, _ => count), s, run, t)
    ensures |run| <= Bound(n, count) + 3 * SpuriousSteps(run)
  {
    var counts := seq(n, _ => count);
    RunTakesEffort(counts, s, run, t);
    var xs := AllLeft(counts, s.threads, s.locked, 2 * n);
    var zeros := seq(n, _ => 0);
    ZeroSum(zeros);
    SumAtMost(xs, zeros, count * (2 * n + 12) + 2 * n + 9);
  }
}
