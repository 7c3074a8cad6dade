/** Whole-run results about the tiled wave solver: agreement with the plain sweep, every row
    update exactly once, no data race, no deadlock, and termination, for every interleaving.
 */
module WaveCorrectness {
  import opened Extremes
  import opened WaveSchedule
  import opened WaveSolver

  // ---------- Versions ----------

  /** The recorded version of every inner row is the one its threads' program counters imply. */
  ghost predicate VersionsAgree(g: Grid, ts: seq<Thread>, versions: seq<int>) {
    && |ts| == g.threads
    && |versions| == g.ny
    && (forall k, row :: InSection(g, k, row) && Inner(g, row) ==> versions[row] == VersionIn(g, ts, k, row))
  }

  lemma VersionAfter(g: Grid, ts: seq<Thread>, k: int, j: int, row: int)
    requires ValidGrid(g) && AllInStep(g, ts) && 0 <= k < g.threads && CanAdvance(g, ts, k)
    requires InSection(g, j, row)
    ensures VersionIn(g, ts[k := Advance(g, k, ts[k])], j, row) == VersionIn(g, ts, j, row) + Hit(g, k, ts[k], row)
  {
    if j == k {
      VersionAfterOwn(g, ts, k, row);
    } else if j == k - 1 {
      VersionAfterNext(g, ts, k, row);
    } else {
      FarNotTarget(g, k, ts[k], j, row);
    }
  }

  lemma FarNotTarget(g: Grid, k: int, t: Thread, j: int, row: int)
    requires ValidGrid(g) && 0 <= k < g.threads && ThreadOk(g, k, t)
    requires InSection(g, j, row) && j != k && j != k - 1
    ensures Hit(g, k, t, row) == 0
  {
    Geometry(g, j);
    if Hit(g, k, t, row) == 1 {
      SectionNearTarget(g, k, t, j, row);
      TargetInReach(g, k, t);
      Geometry(g, k + 1);
    }
  }

  lemma VersionsAfter(g: Grid, ts: seq<Thread>, versions: seq<int>, k: int)
    requires ValidGrid(g) && AllInStep(g, ts) && 0 <= k < g.threads && CanAdvance(g, ts, k)
    requires VersionsAgree(g, ts, versions)
    ensures VersionsAgree(g, ts[k := Advance(g, k, ts[k])],
                          Bumped(g, versions, TargetRow(ActionAt(g, k, ts[k].pc))))
  {
    forall j, row | InSection(g, j, row) && Inner(g, row)
      ensures VersionIn(g, ts[k := Advance(g, k, ts[k])], j, row) == versions[row] + Hit(g, k, ts[k], row)
    {
      VersionAfter(g, ts, k, j, row);
    }
  }

  /** Around the row that thread k computes next, at step v, the row itself has gone through
      exactly v steps and its neighbours through v or v + 1. */
  lemma ReadyAround(g: Grid, ts: seq<Thread>, versions: seq<int>, k: int, row: int)
    requires ValidGrid(g) && AllInStep(g, ts) && VersionsAgree(g, ts, versions)
    requires 0 <= k < g.threads && NearTarget(g, k, ts[k], row) && Inner(g, row)
    ensures ReadyCount(ActionAt(g, k, ts[k].pc), row, versions[row] - Elapsed(g, ts[k].done))
  {
    var j := Owner(g, row);
    SectionNearTarget(g, k, ts[k], j, row);
    assert versions[row] == VersionIn(g, ts, j, row);
    if j == k {
      ReadyOwn(g, ts, k, row);
    } else if j == k - 1 {
      ReadyPrev(g, ts, k, row);
    } else {
      ReadyNext(g, ts, k, row);
    }
  }

  // ---------- Buffers ----------

  /** A step leaves the buffer it reads alone. */
  lemma SourceKept<R>(p: Problem<R>, init: Buffers<R>, step: int)
    requires Fits(p, init) && step >= 0
    ensures ReadsFirst(p, step) ==> Sweep(p, init, step + 1).buf1 == Sweep(p, init, step).buf1
    ensures !ReadsFirst(p, step) ==> Sweep(p, init, step + 1).buf2 == Sweep(p, init, step).buf2
  {
  }

  lemma {:induction false} BorderKept<R>(p: Problem<R>, init: Buffers<R>, steps: int, row: int)
    requires Fits(p, init) && 0 <= row < p.grid.ny && !Inner(p.grid, row)
    ensures Sweep(p, init, steps).buf1[row] == init.buf1[row]
    ensures Sweep(p, init, steps).buf2[row] == init.buf2[row]
    decreases steps
  {
    if steps > 0 {
      BorderKept(p, init, steps - 1, row);
    }
  }

  /** Both slots of a row hold what the sweep has there after the given number of steps. */
  ghost predicate RowAt<R>(p: Problem<R>, init: Buffers<R>, b: Buffers<R>, row: int, version: int)
    requires Fits(p, init) && Fits(p, b) && 0 <= row < p.grid.ny
  {
    && b.buf1[row] == Sweep(p, init, version).buf1[row]
    && b.buf2[row] == Sweep(p, init, version).buf2[row]
  }

  /** A read at step v of a neighbour of version v or v + 1 sees the sweep's row after v steps. */
  lemma ReadRow<R>(p: Problem<R>, init: Buffers<R>, b: Buffers<R>, row: int, version: int, step: int)
    requires Fits(p, init) && Fits(p, b) && 0 <= row < p.grid.ny && RowAt(p, init, b, row, version)
    requires step >= 0
    requires Inner(p.grid, row) ==> step <= version <= step + 1
    ensures ReadsFirst(p, step) ==> b.buf1[row] == Sweep(p, init, step).buf1[row]
    ensures !ReadsFirst(p, step) ==> b.buf2[row] == Sweep(p, init, step).buf2[row]
  {
    if version == step {
    } else if Inner(p.grid, row) {
      SourceKept(p, init, step);
    } else {
      BorderKept(p, init, step, row);
      BorderKept(p, init, version, row);
    }
  }

  /** Neighbours that are ready make a computed row the row the sweep computes at that step. */
  lemma ComputesSweptRow<R>(p: Problem<R>, init: Buffers<R>, b: Buffers<R>, versions: seq<int>, row: int, step: int)
    requires Fits(p, init) && Fits(p, b) && |versions| == p.grid.ny
    requires forall r :: 0 <= r < p.grid.ny ==> RowAt(p, init, b, r, versions[r])
    requires Inner(p.grid, row) && step >= 0 && versions[row] == step
    requires forall r :: row - 1 <= r <= row + 1 && Inner(p.grid, r) ==> step <= versions[r] <= step + 1
    ensures NewRow(p, b, row, step) == NewRow(p, Sweep(p, init, step), row, step)
  {
    forall r | row - 1 <= r <= row + 1
      ensures ReadsFirst(p, step) ==> b.buf1[r] == Sweep(p, init, step).buf1[r]
      ensures !ReadsFirst(p, step) ==> b.buf2[r] == Sweep(p, init, step).buf2[r]
    {
      ReadRow(p, init, b, r, versions[r], step);
    }
    assert RowAt(p, init, b, row, versions[row]);
  }

  /** Writing that row takes it one version further. */
  lemma WrittenRow<R>(p: Problem<R>, init: Buffers<R>, b: Buffers<R>, row: int, step: int)
    requires Fits(p, init) && Fits(p, b) && step >= 0 && Updated(p.grid, row, step)
    requires RowAt(p, init, b, row, step)
    requires NewRow(p, b, row, step) == NewRow(p, Sweep(p, init, step), row, step)
    ensures RowAt(p, init, WriteRow(p, b, row, step), row, step + 1)
  {
  }

  /** A row that the reference does not update at a step is also one version further after it. */
  lemma SkippedRow<R>(p: Problem<R>, init: Buffers<R>, b: Buffers<R>, row: int, step: int)
    requires Fits(p, init) && Fits(p, b) && step >= 0 && Inner(p.grid, row) && !Updated(p.grid, row, step)
    requires RowAt(p, init, b, row, step)
    ensures RowAt(p, init, b, row, step + 1)
  {
  }

  // ---------- The invariant ----------

  /** How often a row has been computed at a step: once if the reference updates it there and
      the row has gone through that step, and otherwise not at all. */
  ghost predicate Logged(g: Grid, log: seq<(int, int)>, versions: seq<int>, row: int, step: int)
    requires |versions| == g.ny
  {
    multiset(log)[(row, step)] == if Updated(g, row, step) && step < versions[row] then 1 else 0
  }

  /** Neighbouring rows are never more than one time step apart. */
  ghost predicate Skewed(g: Grid, versions: seq<int>) {
    && |versions| == g.ny
    && (forall row :: Inner(g, row) && Inner(g, row + 1) ==> -1 <= versions[row + 1] - versions[row] <= 1)
  }

  /** What the handshake keeps: counters, program counters and versions fit together. */
  ghost predicate Synchronized<R>(p: Problem<R>, s: State<R>) {
    && WellFormed(p, s)
    && AllInStep(p.grid, s.threads)
    && (forall k :: 0 <= k < p.grid.threads ==> s.progress[k] == p.progress0 + Bumps(s.threads[k]))
    && VersionsAgree(p.grid, s.threads, s.versions)
    && Skewed(p.grid, s.versions)
  }

  ghost predicate Inv<R>(p: Problem<R>, init: Buffers<R>, s: State<R>) {
    && Synchronized(p, s)
    && Fits(p, init)
    && (forall row :: 0 <= row < p.grid.ny ==> RowAt(p, init, s.bufs, row, s.versions[row]))
    && (forall row, step :: Logged(p.grid, s.log, s.versions, row, step))
  }

  lemma InitialInv<R>(p: Problem<R>, init: Buffers<R>)
    requires ValidGrid(p.grid) && Fits(p, init)
    ensures Inv(p, init, Initial(p, init))
  {
    var g := p.grid;
    var s := Initial(p, init);
    forall k, row | InSection(g, k, row)
      ensures VersionIn(g, s.threads, k, row) == 0
    {
    }
  }

  /** The spin loops compare counters; the counters stand at the number of bumps. */
  lemma CanStepIsCanAdvance<R>(p: Problem<R>, s: State<R>, k: int)
    requires Synchronized(p, s) && 0 <= k < p.grid.threads
    ensures CanStep(p, s, k) == CanAdvance(p.grid, s.threads, k)
  {
  }

  lemma NextShape<R>(p: Problem<R>, s: State<R>, k: int)
    requires WellFormed(p, s) && CanStep(p, s, k)
    ensures
      var s' := Next(p, s, k);
      && WellFormed(p, s')
      && s'.threads == s.threads[k := Advance(p.grid, k, s.threads[k])]
      && s'.versions == Bumped(p.grid, s.versions, TargetRow(ActionAt(p.grid, k, s.threads[k].pc)))
  {
    var ts := s.threads[k := Advance(p.grid, k, s.threads[k])];
    forall j | 0 <= j < p.grid.threads
      ensures ThreadOk(p.grid, j, ts[j])
    {
      assert ThreadOk(p.grid, j, s.threads[j]);
      if j == k {
        AdvanceThreadOk(p.grid, k, s.threads[k]);
      }
    }
  }

  lemma CountersAfter(g: Grid, k: int, t: Thread)
    requires ValidGrid(g) && 0 <= k < g.threads && ThreadOk(g, k, t)
    ensures Bumps(Advance(g, k, t)) == Bumps(t) + (if BumpsCounter(g, t.pc) then 1 else 0)
  {
  }

  lemma SkewAfter<R>(p: Problem<R>, s: State<R>, k: int)
    requires Synchronized(p, s) && CanStep(p, s, k)
    ensures Skewed(p.grid, Bumped(p.grid, s.versions, TargetRow(ActionAt(p.grid, k, s.threads[k].pc))))
  {
    var a := ActionAt(p.grid, k, s.threads[k].pc);
    forall row | Inner(p.grid, row) && NearTarget(p.grid, k, s.threads[k], row)
      ensures ReadyCount(a, row, s.versions[row] - Elapsed(p.grid, s.threads[k].done))
    {
      ReadyAround(p.grid, s.threads, s.versions, k, row);
    }
  }

  lemma NextSynchronized<R>(p: Problem<R>, s: State<R>, k: int)
    requires Synchronized(p, s) && CanStep(p, s, k)
    ensures Synchronized(p, Next(p, s, k))
  {
    CanStepIsCanAdvance(p, s, k);
    AdvanceInStep(p.grid, s.threads, k);
    VersionsAfter(p.grid, s.threads, s.versions, k);
    CountersAfter(p.grid, k, s.threads[k]);
    SkewAfter(p, s, k);
    NextShape(p, s, k);
  }

  /** What is known of the row and the step that a thread takes next. */
  lemma TargetFacts<R>(p: Problem<R>, s: State<R>, k: int)
    requires Synchronized(p, s) && CanStep(p, s, k)
    requires Inner(p.grid, TargetRow(ActionAt(p.grid, k, s.threads[k].pc)))
    ensures
      var a := ActionAt(p.grid, k, s.threads[k].pc);
      var step := StepOf(p.grid, s.threads[k], a);
      && !a.Control?
      && step >= 0 && s.versions[a.row] == step
      && Updated(p.grid, a.row, step) == a.ComputeRow?
      && (forall r :: a.row - 1 <= r <= a.row + 1 && Inner(p.grid, r) ==> step <= s.versions[r] <= step + 1)
  {
    var t := s.threads[k];
    var a := ActionAt(p.grid, k, t.pc);
    TargetInReach(p.grid, k, t);
    ComputedIsUpdated(p.grid, k, t);
    StepInBatch(p.grid, t.done, a.step);
    forall r | a.row - 1 <= r <= a.row + 1 && Inner(p.grid, r)
      ensures ReadyCount(a, r, s.versions[r] - Elapsed(p.grid, t.done))
    {
      ReadyAround(p.grid, s.threads, s.versions, k, r);
    }
  }

  lemma NextOtherRow<R>(p: Problem<R>, init: Buffers<R>, s: State<R>, k: int, row: int)
    requires WellFormed(p, s) && Fits(p, init) && CanStep(p, s, k) && 0 <= row < p.grid.ny
    requires !Inner(p.grid, row) || row != TargetRow(ActionAt(p.grid, k, s.threads[k].pc))
    requires RowAt(p, init, s.bufs, row, s.versions[row])
    ensures WellFormed(p, Next(p, s, k))
    ensures RowAt(p, init, Next(p, s, k).bufs, row, Next(p, s, k).versions[row])
  {
    NextShape(p, s, k);
    TargetIsInnerIf(p.grid, k, s.threads[k]);
  }

  /** The buffers and the versions after thread k takes its target row through a step. */
  lemma NextAtTarget<R>(p: Problem<R>, s: State<R>, k: int)
    requires WellFormed(p, s) && CanStep(p, s, k)
    requires Inner(p.grid, TargetRow(ActionAt(p.grid, k, s.threads[k].pc)))
    ensures
      var a := ActionAt(p.grid, k, s.threads[k].pc);
      var s' := Next(p, s, k);
      && WellFormed(p, s')
      && s'.versions[TargetRow(a)] == s.versions[TargetRow(a)] + 1
      && s'.bufs == if a.ComputeRow? then WriteRow(p, s.bufs, a.row, StepOf(p.grid, s.threads[k], a)) else s.bufs
  {
    NextShape(p, s, k);
  }

  lemma NextTargetRow<R>(p: Problem<R>, init: Buffers<R>, s: State<R>, k: int, row: int)
    requires Inv(p, init, s) && CanStep(p, s, k) && Inner(p.grid, row)
    requires row == TargetRow(ActionAt(p.grid, k, s.threads[k].pc))
    ensures WellFormed(p, Next(p, s, k))
    ensures RowAt(p, init, Next(p, s, k).bufs, row, Next(p, s, k).versions[row])
  {
    var a := ActionAt(p.grid, k, s.threads[k].pc);
    var step := StepOf(p.grid, s.threads[k], a);
    NextAtTarget(p, s, k);
    TargetFacts(p, s, k);
    assert RowAt(p, init, s.bufs, row, step);
    if a.ComputeRow? {
      ComputesSweptRow(p, init, s.bufs, s.versions, row, step);
      WrittenRow(p, init, s.bufs, row, step);
    } else {
      SkippedRow(p, init, s.bufs, row, step);
    }
  }

  lemma TargetIsInnerIf(g: Grid, k: int, t: Thread)
    requires ValidGrid(g) && 0 <= k < g.threads && ThreadOk(g, k, t)
    ensures ActionAt(g, k, t.pc).ComputeRow? ==> Inner(g, ActionAt(g, k, t.pc).row)
  {
    if ActionAt(g, k, t.pc).ComputeRow? {
      TargetIsInner(g, k, t);
    }
  }

  lemma NextLog<R>(p: Problem<R>, s: State<R>, k: int, row: int, step: int)
    requires Synchronized(p, s) && CanStep(p, s, k)
    requires Logged(p.grid, s.log, s.versions, row, step)
    ensures WellFormed(p, Next(p, s, k))
    ensures Logged(p.grid, Next(p, s, k).log, Next(p, s, k).versions, row, step)
  {
    var t := s.threads[k];
    var a := ActionAt(p.grid, k, t.pc);
    var s' := Next(p, s, k);
    NextShape(p, s, k);
    TargetIsInnerIf(p.grid, k, t);
    if Inner(p.grid, TargetRow(a)) {
      TargetFacts(p, s, k);
    }
    if a.ComputeRow? {
      assert multiset(s'.log) == multiset(s.log) + multiset{(a.row, StepOf(p.grid, t, a))};
    }
  }

  lemma NextInv<R>(p: Problem<R>, init: Buffers<R>, s: State<R>, k: int)
    requires Inv(p, init, s) && CanStep(p, s, k)
    ensures Inv(p, init, Next(p, s, k))
  {
    var s' := Next(p, s, k);
    NextSynchronized(p, s, k);
    forall row | 0 <= row < p.grid.ny
      ensures RowAt(p, init, s'.bufs, row, s'.versions[row])
    {
      assert RowAt(p, init, s.bufs, row, s.versions[row]);
      if Inner(p.grid, row) && row == TargetRow(ActionAt(p.grid, k, s.threads[k].pc)) {
        NextTargetRow(p, init, s, k, row);
      } else {
        NextOtherRow(p, init, s, k, row);
      }
    }
    forall row, step
      ensures Logged(p.grid, s'.log, s'.versions, row, step)
    {
      assert Logged(p.grid, s.log, s.versions, row, step);
      NextLog(p, s, k, row, step);
    }
  }

  lemma {:induction false} RunInv<R>(p: Problem<R>, init: Buffers<R>, s: State<R>, schedule: seq<int>, s': State<R>)
    requires Inv(p, init, s) && Leads(p, s, schedule, s')
    ensures Inv(p, init, s')
    decreases |schedule|
  {
    if schedule != [] {
      NextInv(p, init, s, schedule[0]);
      RunInv(p, init, Next(p, s, schedule[0]), schedule[1..], s');
    }
  }

  // ---------- The results ----------

  lemma FinalVersion<R>(p: Problem<R>, s: State<R>, row: int)
    requires Synchronized(p, s) && AllFinished(p, s) && Inner(p.grid, row)
    ensures s.versions[row] == Elapsed(p.grid, p.grid.batches)
  {
    var k := Owner(p.grid, row);
    assert s.versions[row] == VersionIn(p.grid, s.threads, k, row);
    assert ThreadOk(p.grid, k, s.threads[k]);
    if k < p.grid.threads - 1 {
      assert ThreadOk(p.grid, k + 1, s.threads[k + 1]);
    }
  }

  /** Whatever the interleaving, a finished run leaves in both buffers what plain sweeps leave there,
      and has computed each row of each sweep exactly once. */
  lemma TiledRunEqualsSweep<R>(p: Problem<R>, init: Buffers<R>, schedule: seq<int>, s: State<R>)
    requires ValidGrid(p.grid) && Fits(p, init)
    requires Leads(p, Initial(p, init), schedule, s) && AllFinished(p, s)
    ensures s.bufs == Sweep(p, init, p.grid.batches * p.grid.batch)
    ensures forall row, step :: multiset(s.log)[(row, step)]
              == if Updated(p.grid, row, step) && step < p.grid.batches * p.grid.batch then 1 else 0
  {
    InitialInv(p, init);
    RunInv(p, init, Initial(p, init), schedule, s);
    ElapsedFormula(p.grid, p.grid.batches);
    FinishedBuffers(p, init, s);
    FinishedLog(p, init, s);
  }

  lemma FinishedBuffers<R>(p: Problem<R>, init: Buffers<R>, s: State<R>)
    requires Inv(p, init, s) && AllFinished(p, s)
    ensures s.bufs == Sweep(p, init, Elapsed(p.grid, p.grid.batches))
  {
    var steps := Elapsed(p.grid, p.grid.batches);
    forall row | 0 <= row < p.grid.ny
      ensures RowAt(p, init, s.bufs, row, steps)
    {
      assert RowAt(p, init, s.bufs, row, s.versions[row]);
      if Inner(p.grid, row) {
        FinalVersion(p, s, row);
      } else {
        BorderKept(p, init, s.versions[row], row);
        BorderKept(p, init, steps, row);
      }
    }
    SameRows(p, init, s.bufs, steps);
  }

  lemma SameRows<R>(p: Problem<R>, init: Buffers<R>, b: Buffers<R>, steps: int)
    requires Fits(p, init) && Fits(p, b)
    requires forall row :: 0 <= row < p.grid.ny ==> RowAt(p, init, b, row, steps)
    ensures b == Sweep(p, init, steps)
  {
    var swept := Sweep(p, init, steps);
    forall row | 0 <= row < p.grid.ny
      ensures b.buf1[row] == swept.buf1[row] && b.buf2[row] == swept.buf2[row]
    {
      assert RowAt(p, init, b, row, steps);
    }
    assert b.buf1 == swept.buf1 && b.buf2 == swept.buf2;
  }

  lemma FinishedLog<R>(p: Problem<R>, init: Buffers<R>, s: State<R>)
    requires Inv(p, init, s) && AllFinished(p, s)
    ensures forall row, step :: multiset(s.log)[(row, step)]
              == if Updated(p.grid, row, step) && step < Elapsed(p.grid, p.grid.batches) then 1 else 0
  {
    forall row, step
      ensures multiset(s.log)[(row, step)]
              == if Updated(p.grid, row, step) && step < Elapsed(p.grid, p.grid.batches) then 1 else 0
    {
      assert Logged(p.grid, s.log, s.versions, row, step);
      if Inner(p.grid, row) {
        FinalVersion(p, s, row);
      }
    }
  }

  /** The key fact behind the tiling: in every reachable state neighbouring rows are at most one
      time step apart. */
  lemma NeighboursOneStepApart<R>(p: Problem<R>, init: Buffers<R>, schedule: seq<int>, s: State<R>, row: int)
    requires ValidGrid(p.grid) && Fits(p, init)
    requires Leads(p, Initial(p, init), schedule, s)
    requires Inner(p.grid, row) && Inner(p.grid, row + 1)
    ensures |s.versions| == p.grid.ny && -1 <= s.versions[row + 1] - s.versions[row] <= 1
  {
    InitialInv(p, init);
    RunInv(p, init, Initial(p, init), schedule, s);
  }

  // ---------- Data races ----------

  /** One row of one of the two buffers. */
  datatype Slot = Slot(first: bool, row: int)

  function WrittenSlot<R>(p: Problem<R>, row: int, step: int): Slot {
    Slot(!ReadsFirst(p, step), row)
  }

  function AccessedSlots<R>(p: Problem<R>, row: int, step: int): set<Slot> {
    var source := ReadsFirst(p, step);
    {Slot(source, row - 1), Slot(source, row), Slot(source, row + 1), WrittenSlot(p, row, step)}
  }

  /** Thread k is computing a row whose slot thread l reads or writes in the row it is computing. */
  predicate Race<R>(p: Problem<R>, s: State<R>, k: int, l: int)
    requires WellFormed(p, s) && 0 <= k < p.grid.threads && 0 <= l < p.grid.threads
  {
    var a := ActionAt(p.grid, k, s.threads[k].pc);
    var b := ActionAt(p.grid, l, s.threads[l].pc);
    && k != l && a.ComputeRow? && b.ComputeRow?
    && WrittenSlot(p, a.row, StepOf(p.grid, s.threads[k], a))
       in AccessedSlots(p, b.row, StepOf(p.grid, s.threads[l], b))
  }

  lemma TargetsDiffer(g: Grid, ts: seq<Thread>, k: int, l: int)
    requires ValidGrid(g) && AllInStep(g, ts) && 0 <= k < l < g.threads
    requires ActionAt(g, k, ts[k].pc).ComputeRow? && ActionAt(g, l, ts[l].pc).ComputeRow?
    requires !Finished(g, ts[k]) && !Finished(g, ts[l])
    ensures ActionAt(g, k, ts[k].pc).row != ActionAt(g, l, ts[l].pc).row
  {
    assert ThreadOk(g, k, ts[k]) && ThreadOk(g, l, ts[l]);
    TargetInReach(g, k, ts[k]);
    TargetInReach(g, l, ts[l]);
    Geometry(g, k);
    Geometry(g, l);
    StartMonotone(g, k + 1, l);
    if l == k + 1 {
      assert InStep(ts[k], ts[k + 1]);
    }
  }

  lemma AdjacentTargetsSameStep<R>(p: Problem<R>, s: State<R>, k: int, l: int)
    requires Synchronized(p, s) && CanStep(p, s, k) && CanStep(p, s, l)
    requires ActionAt(p.grid, k, s.threads[k].pc).ComputeRow? && ActionAt(p.grid, l, s.threads[l].pc).ComputeRow?
    requires ActionAt(p.grid, l, s.threads[l].pc).row == ActionAt(p.grid, k, s.threads[k].pc).row + 1
    ensures StepOf(p.grid, s.threads[k], ActionAt(p.grid, k, s.threads[k].pc))
         == StepOf(p.grid, s.threads[l], ActionAt(p.grid, l, s.threads[l].pc))
  {
    TargetIsInner(p.grid, k, s.threads[k]);
    TargetIsInner(p.grid, l, s.threads[l]);
    TargetFacts(p, s, k);
    TargetFacts(p, s, l);
  }

  /** In no reachable state is a row slot written by one thread while another uses it. */
  lemma NoRace<R>(p: Problem<R>, init: Buffers<R>, schedule: seq<int>, s: State<R>, k: int, l: int)
    requires ValidGrid(p.grid) && Fits(p, init)
    requires Leads(p, Initial(p, init), schedule, s)
    requires 0 <= k < p.grid.threads && 0 <= l < p.grid.threads
    ensures WellFormed(p, s) && !Race(p, s, k, l)
  {
    InitialInv(p, init);
    RunInv(p, init, Initial(p, init), schedule, s);
    NoRaceBetween(p, s, k, l);
  }

  lemma NoRaceBetween<R>(p: Problem<R>, s: State<R>, k: int, l: int)
    requires Synchronized(p, s)
    requires 0 <= k < p.grid.threads && 0 <= l < p.grid.threads
    ensures !Race(p, s, k, l)
  {
    var a, b := ActionAt(p.grid, k, s.threads[k].pc), ActionAt(p.grid, l, s.threads[l].pc);
    if k != l && a.ComputeRow? && b.ComputeRow? {
      assert ThreadOk(p.grid, k, s.threads[k]) && ThreadOk(p.grid, l, s.threads[l]);
      if k < l {
        TargetsDiffer(p.grid, s.threads, k, l);
      } else {
        TargetsDiffer(p.grid, s.threads, l, k);
      }
      if b.row == a.row + 1 {
        AdjacentTargetsSameStep(p, s, k, l);
      } else if a.row == b.row + 1 {
        AdjacentTargetsSameStep(p, s, l, k);
      }
    }
  }

  // ---------- Progress ----------

  lemma LeastCanStep<R>(p: Problem<R>, s: State<R>, k: int)
    requires Synchronized(p, s) && !AllFinished(p, s)
    requires 0 <= k < p.grid.threads
    requires forall l :: 0 <= l < p.grid.threads ==> s.progress[k] <= s.progress[l]
    ensures CanStep(p, s, k)
  {
    var l :| 0 <= l < |s.threads| && !Finished(p.grid, s.threads[l]);
    assert ThreadOk(p.grid, k, s.threads[k]) && ThreadOk(p.grid, l, s.threads[l]);
    assert s.progress[k] <= s.progress[l];
  }

  lemma SomeCanStep<R>(p: Problem<R>, s: State<R>)
    requires Synchronized(p, s) && !AllFinished(p, s)
    ensures exists k :: CanStep(p, s, k)
  {
    LeastCanStep(p, s, LeastIndex(s.progress));
  }

  /** A thread whose counter is least among all can step, unless the whole run is over. */
  lemma LeastProgressSteps<R>(p: Problem<R>, init: Buffers<R>, schedule: seq<int>, s: State<R>, k: int)
    requires ValidGrid(p.grid) && Fits(p, init)
    requires Leads(p, Initial(p, init), schedule, s) && !AllFinished(p, s)
    requires 0 <= k < p.grid.threads && |s.progress| == p.grid.threads
    requires forall l :: 0 <= l < p.grid.threads ==> s.progress[k] <= s.progress[l]
    ensures WellFormed(p, s) && CanStep(p, s, k)
  {
    InitialInv(p, init);
    RunInv(p, init, Initial(p, init), schedule, s);
    LeastCanStep(p, s, k);
  }

  /** No reachable state of an unfinished run is stuck. */
  lemma NoDeadlock<R>(p: Problem<R>, init: Buffers<R>, schedule: seq<int>, s: State<R>)
    requires ValidGrid(p.grid) && Fits(p, init)
    requires Leads(p, Initial(p, init), schedule, s) && !AllFinished(p, s)
    ensures WellFormed(p, s) && exists k :: CanStep(p, s, k)
  {
    InitialInv(p, init);
    RunInv(p, init, Initial(p, init), schedule, s);
    SomeCanStep(p, s);
  }

  function LeastIndex(xs: seq<int>): (k: int)
    requires xs != []
    ensures 0 <= k < |xs|
    ensures forall l :: 0 <= l < |xs| ==> xs[k] <= xs[l]
  {
    if |xs| == 1 then 0
    else
      var k := LeastIndex(xs[..|xs| - 1]);
      if xs[k] <= xs[|xs| - 1] then k else |xs| - 1
  }

  /** No thread is in a boundary phase before the matching phase of its neighbour is over: when it
      initializes a batch the section before has closed all earlier ones, and when it finalizes
      a batch the section after has opened it. */
  lemma BoundaryPhasesOrdered<R>(p: Problem<R>, init: Buffers<R>, schedule: seq<int>, s: State<R>, k: int)
    requires ValidGrid(p.grid) && Fits(p, init)
    requires Leads(p, Initial(p, init), schedule, s)
    requires 0 <= k < p.grid.threads
    ensures |s.threads| == p.grid.threads
    ensures s.threads[k].pc.Init? && k > 0 ==> s.threads[k - 1].done >= s.threads[k].done
    ensures s.threads[k].pc.Final? && k < p.grid.threads - 1 ==>
              var next := s.threads[k + 1];
              next.done > s.threads[k].done || (next.done == s.threads[k].done && PastInit(next.pc))
  {
    InitialInv(p, init);
    RunInv(p, init, Initial(p, init), schedule, s);
    if k > 0 {
      assert InStep(s.threads[k - 1], s.threads[k - 1 + 1]);
    }
    if k < p.grid.threads - 1 {
      assert InStep(s.threads[k], s.threads[k + 1]);
    }
  }

  // ---------- Termination ----------

  function PhaseRank(pc: Pc): nat {
    match pc
    case WaitPrev => 4
    case Init(_, _) => 3
    case Main(_, _) => 2
    case WaitNext => 1
    case Final(_, _) => 0
  }

  function OuterLeft(g: Grid, k: int, pc: Pc): nat {
    match pc
    case Init(step, _) => Max(0, g.batch - step)
    case Main(i, _) => Max(0, Stop(g, k) - i)
    case Final(step, _) => Max(0, g.batch - step)
    case _ => 0
  }

  function InnerLeft(g: Grid, k: int, pc: Pc): nat {
    match pc
    case Init(_, i) => Max(0, Start(g, k) + g.batch - i)
    case Main(_, step) => Max(0, g.batch - step)
    case Final(_, i) => Max(0, Stop(g, k) + g.batch - i)
    case _ => 0
  }

  /** How many more iterations a thread makes. */
  ghost function StepsLeft(g: Grid, k: int, t: Thread): nat
    requires ValidGrid(g) && 0 <= k < g.threads && ThreadOk(g, k, t)
    decreases g.batches - t.done, PhaseRank(t.pc), OuterLeft(g, k, t.pc), InnerLeft(g, k, t.pc)
  {
    if Finished(g, t) then 0
    else
      AdvanceThreadOk(g, k, t);
      Geometry(g, k);
      1 + StepsLeft(g, k, Advance(g, k, t))
  }

  /** The same for the first n threads together. */
  ghost function WorkLeft<R>(p: Problem<R>, s: State<R>, n: int): nat
    requires WellFormed(p, s) && n <= p.grid.threads
    decreases n
  {
    if n <= 0 then 0 else WorkLeft(p, s, n - 1) + StepsLeft(p.grid, n - 1, s.threads[n - 1])
  }

  lemma {:induction false} StepTakesWork<R>(p: Problem<R>, s: State<R>, k: int, n: int)
    requires WellFormed(p, s) && CanStep(p, s, k) && WellFormed(p, Next(p, s, k))
    requires 0 <= n <= p.grid.threads
    ensures WorkLeft(p, Next(p, s, k), n) == WorkLeft(p, s, n) - (if k < n then 1 else 0)
    decreases n
  {
    if n > 0 {
      StepTakesWork(p, s, k, n - 1);
    }
  }

  lemma {:induction false} RunLength<R>(p: Problem<R>, init: Buffers<R>, s: State<R>, schedule: seq<int>, s': State<R>)
    requires Inv(p, init, s) && Leads(p, s, schedule, s')
    ensures WellFormed(p, s')
    ensures |schedule| + WorkLeft(p, s', p.grid.threads) == WorkLeft(p, s, p.grid.threads)
    decreases |schedule|
  {
    if schedule != [] {
      NextInv(p, init, s, schedule[0]);
      StepTakesWork(p, s, schedule[0], p.grid.threads);
      RunLength(p, init, Next(p, s, schedule[0]), schedule[1..], s');
    }
  }

  lemma {:induction false} NoWorkWhenFinished<R>(p: Problem<R>, s: State<R>, n: int)
    requires WellFormed(p, s) && 0 <= n <= p.grid.threads && AllFinished(p, s)
    ensures WorkLeft(p, s, n) == 0
    decreases n
  {
    if n > 0 {
      NoWorkWhenFinished(p, s, n - 1);
    }
  }

  /** Every interleaving ends: no run is longer than the work the threads start with, and a run
      that cannot be extended has done exactly that work and finished every thread. */
  lemma EveryRunEnds<R>(p: Problem<R>, init: Buffers<R>, schedule: seq<int>, s: State<R>)
    requires ValidGrid(p.grid) && Fits(p, init)
    requires Leads(p, Initial(p, init), schedule, s)
    ensures WellFormed(p, Initial(p, init)) && WellFormed(p, s)
    ensures |schedule| <= WorkLeft(p, Initial(p, init), p.grid.threads)
    ensures (forall k :: !CanStep(p, s, k)) ==>
              AllFinished(p, s) && |schedule| == WorkLeft(p, Initial(p, init), p.grid.threads)
  {
    InitialInv(p, init);
    RunLength(p, init, Initial(p, init), schedule, s);
    if forall k :: !CanStep(p, s, k) {
      if !AllFinished(p, s) {
        NoDeadlock(p, init, schedule, s);
      }
      NoWorkWhenFinished(p, s, p.grid.threads);
    }
  }
}
