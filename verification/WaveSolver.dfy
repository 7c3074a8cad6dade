/** The tiled parallel wave solver as a state machine, and the sweep it has to agree with.

    A grid row is one value of type R. The kernel stands for computeRow followed by the source
    term: from the time step, the row number, the rows above, at and below in the buffer being
    read and the old row in the buffer being written it gives the new row. Nothing is assumed
    about it, so the results hold for the very float arithmetic of the program.
 */
module WaveSolver {
  import opened Powers
  import opened WaveSchedule

  /** Even time steps read buf1 and write buf2, odd ones the other way round. */
  datatype Buffers<R> = Buffers(buf1: seq<R>, buf2: seq<R>)

  datatype Problem<!R> = Problem(grid: Grid, step0: nat, progress0: int, kernel: (int, int, R, R, R, R) -> R)

  predicate Fits<R>(p: Problem<R>, b: Buffers<R>) {
    |b.buf1| == p.grid.ny && |b.buf2| == p.grid.ny
  }

  predicate Inner(g: Grid, row: int) {
    1 <= row < g.ny - 1
  }

  /** Whether a step reads buf1; steps count from the start of the run. */
  predicate ReadsFirst<R>(p: Problem<R>, step: int) {
    (p.step0 + step) % 2 == 0
  }

  function NewRow<R>(p: Problem<R>, b: Buffers<R>, row: int, step: int): R
    requires Fits(p, b) && Inner(p.grid, row)
  {
    if ReadsFirst(p, step)
    then p.kernel(p.step0 + step, row, b.buf1[row - 1], b.buf1[row], b.buf1[row + 1], b.buf2[row])
    else p.kernel(p.step0 + step, row, b.buf2[row - 1], b.buf2[row], b.buf2[row + 1], b.buf1[row])
  }

  function WriteRow<R>(p: Problem<R>, b: Buffers<R>, row: int, step: int): (b': Buffers<R>)
    requires Fits(p, b) && Inner(p.grid, row)
    ensures Fits(p, b')
  {
    if ReadsFirst(p, step)
    then Buffers(b.buf1, b.buf2[row := NewRow(p, b, row, step)])
    else Buffers(b.buf1[row := NewRow(p, b, row, step)], b.buf2)
  }

  // ---------- The reference: plain sweeps, one time step after the other ----------

  /** The row guard of the initialize phase keeps row 1 out of all steps of a batch but the last. */
  predicate Updated(g: Grid, row: int, step: int) {
    Inner(g, row) && step >= 0 && g.batch >= 1 && (row >= 2 || step % g.batch == g.batch - 1)
  }

  function SweepStep<R>(p: Problem<R>, b: Buffers<R>, step: int): (b': Buffers<R>)
    requires Fits(p, b)
    ensures Fits(p, b')
  {
    if ReadsFirst(p, step) then
      Buffers(b.buf1, seq(p.grid.ny, row requires 0 <= row < p.grid.ny =>
        if Updated(p.grid, row, step) then NewRow(p, b, row, step) else b.buf2[row]))
    else
      Buffers(seq(p.grid.ny, row requires 0 <= row < p.grid.ny =>
        if Updated(p.grid, row, step) then NewRow(p, b, row, step) else b.buf1[row]), b.buf2)
  }

  /** The buffers after the given number of sweeps. */
  function Sweep<R>(p: Problem<R>, init: Buffers<R>, steps: int): (b: Buffers<R>)
    requires Fits(p, init)
    ensures Fits(p, b)
    decreases steps
  {
    if steps <= 0 then init else SweepStep(p, Sweep(p, init, steps - 1), steps - 1)
  }

  // ---------- What a sweep is ----------

  /** The sweeps leave the border alone, update rows 2 to ny - 2 at every step and row 1 at the last step of a batch. */
  predicate IsSwept(ny: int, batch: int, row: int, step: int)
    requires batch > 0
  {
    2 <= row <= ny - 2 || (row == 1 <= ny - 2 && (step + 1) % batch == 0)
  }

  /**
   * One time step: every updated row of the buffer written becomes the kernel's value for the row above, the row
   * itself and the row below it in the buffer read and its own old value; nothing else changes.
   */
  ghost predicate OneStep<R>(ny: int, batch: int, kernel: (int, int, R, R, R, R) -> R, step0: nat, step: nat,
                                   b: Buffers<R>, c: Buffers<R>)
    requires batch > 0
  {
    && |b.buf1| == |b.buf2| == |c.buf1| == |c.buf2| == ny
    && if (step0 + step) % 2 == 0 then
         && c.buf1 == b.buf1
         && forall row :: 0 <= row < ny ==>
              c.buf2[row] == if !IsSwept(ny, batch, row, step) then b.buf2[row]
                             else kernel(step0 + step, row, b.buf1[row - 1], b.buf1[row], b.buf1[row + 1], b.buf2[row])
       else
         && c.buf2 == b.buf2
         && forall row :: 0 <= row < ny ==>
              c.buf1[row] == if !IsSwept(ny, batch, row, step) then b.buf1[row]
                             else kernel(step0 + step, row, b.buf2[row - 1], b.buf2[row], b.buf2[row + 1], b.buf1[row])
  }

  /** The buffers before the first step, after each step and after the last one. */
  ghost predicate IsHistory<R>(ny: int, batch: int, kernel: (int, int, R, R, R, R) -> R, step0: nat,
                                     history: seq<Buffers<R>>)
    requires batch > 0
  {
    forall n :: 0 <= n < |history| - 1 ==> OneStep(ny, batch, kernel, step0, n, history[n], history[n + 1])
  }

  lemma LastOfBatch(step: nat, batch: int)
    requires batch > 0
    ensures (step + 1) % batch == 0 <==> step % batch == batch - 1
  {
    var q, r := step / batch, step % batch;
    if r == batch - 1 {
      assert batch * (q + 1) == batch * q + batch;
      QuotientIs(step + 1, batch, q + 1, 0);
    } else {
      QuotientIs(step + 1, batch, q, r + 1);
    }
  }

  lemma SweptIsUpdated(g: Grid, row: int, step: nat)
    requires g.batch > 0
    ensures IsSwept(g.ny, g.batch, row, step) <==> Updated(g, row, step)
  {
    LastOfBatch(step, g.batch);
  }

  lemma EvenStepRow<R>(p: Problem<R>, b: Buffers<R>, n: nat, row: int)
    requires Fits(p, b) && p.grid.batch > 0 && 0 <= row < p.grid.ny && (p.step0 + n) % 2 == 0
    ensures SweepStep(p, b, n).buf2[row]
      == if !IsSwept(p.grid.ny, p.grid.batch, row, n) then b.buf2[row]
         else p.kernel(p.step0 + n, row, b.buf1[row - 1], b.buf1[row], b.buf1[row + 1], b.buf2[row])
  {
    SweptIsUpdated(p.grid, row, n);
  }

  lemma OddStepRow<R>(p: Problem<R>, b: Buffers<R>, n: nat, row: int)
    requires Fits(p, b) && p.grid.batch > 0 && 0 <= row < p.grid.ny && (p.step0 + n) % 2 == 1
    ensures SweepStep(p, b, n).buf1[row]
      == if !IsSwept(p.grid.ny, p.grid.batch, row, n) then b.buf1[row]
         else p.kernel(p.step0 + n, row, b.buf2[row - 1], b.buf2[row], b.buf2[row + 1], b.buf1[row])
  {
    SweptIsUpdated(p.grid, row, n);
  }

  lemma SweepStepIsOneStep<R>(p: Problem<R>, b: Buffers<R>, n: nat)
    requires Fits(p, b) && p.grid.batch > 0
    ensures OneStep(p.grid.ny, p.grid.batch, p.kernel, p.step0, n, b, SweepStep(p, b, n))
  {
    var ny, batch, c := p.grid.ny, p.grid.batch, SweepStep(p, b, n);
    if (p.step0 + n) % 2 == 0 {
      forall row | 0 <= row < ny
        ensures c.buf2[row] == if !IsSwept(ny, batch, row, n) then b.buf2[row]
          else p.kernel(p.step0 + n, row, b.buf1[row - 1], b.buf1[row], b.buf1[row + 1], b.buf2[row])
      {
        EvenStepRow(p, b, n, row);
      }
    } else {
      forall row | 0 <= row < ny
        ensures c.buf1[row] == if !IsSwept(ny, batch, row, n) then b.buf1[row]
          else p.kernel(p.step0 + n, row, b.buf2[row - 1], b.buf2[row], b.buf2[row + 1], b.buf1[row])
      {
        OddStepRow(p, b, n, row);
      }
    }
  }

  /** A sweep is one time step. */
  lemma SweepIsOneStep<R>(p: Problem<R>, init: Buffers<R>, n: nat)
    requires Fits(p, init) && p.grid.batch > 0
    ensures OneStep(p.grid.ny, p.grid.batch, p.kernel, p.step0, n, Sweep(p, init, n), Sweep(p, init, n + 1))
  {
    SweepStepIsOneStep(p, Sweep(p, init, n), n);
  }

  /** So the sweeps are a history. */
  lemma SweepsAreHistory<R>(p: Problem<R>, init: Buffers<R>, steps: nat) returns (history: seq<Buffers<R>>)
    requires Fits(p, init) && p.grid.batch > 0
    ensures |history| == steps + 1 && history[0] == init && history[steps] == Sweep(p, init, steps)
    ensures IsHistory(p.grid.ny, p.grid.batch, p.kernel, p.step0, history)
  {
    history := seq(steps + 1, n requires 0 <= n <= steps => Sweep(p, init, n));
    forall n | 0 <= n < steps
      ensures OneStep(p.grid.ny, p.grid.batch, p.kernel, p.step0, n, history[n], history[n + 1])
    {
      SweepIsOneStep(p, init, n);
    }
  }

  // ---------- The threads ----------

  /** The shared buffers and progress counters and the threads. Two auxiliary components record
      the run: the rows computed so far, each with its time step, and for every row the number of
      time steps it has gone through. */
  datatype State<R> = State(bufs: Buffers<R>, progress: seq<int>, threads: seq<Thread>,
                            log: seq<(int, int)>, versions: seq<int>)

  predicate WellFormed<R>(p: Problem<R>, s: State<R>) {
    && ValidGrid(p.grid)
    && Fits(p, s.bufs)
    && |s.versions| == p.grid.ny
    && |s.progress| == |s.threads| == p.grid.threads
    && (forall k :: 0 <= k < |s.threads| ==> ThreadOk(p.grid, k, s.threads[k]))
  }

  function Initial<R>(p: Problem<R>, init: Buffers<R>): State<R>
    requires p.grid.threads >= 0 && p.grid.ny >= 0
  {
    State(init,
          seq(p.grid.threads, _ => p.progress0),
          seq(p.grid.threads, _ => Thread(0, WaitPrev)),
          [],
          seq(p.grid.ny, _ => 0))
  }

  /** Thread k has work left and does not spin. */
  predicate CanStep<R>(p: Problem<R>, s: State<R>, k: int)
    requires WellFormed(p, s)
  {
    && 0 <= k < p.grid.threads
    && !Finished(p.grid, s.threads[k])
    && (s.threads[k].pc.WaitPrev? && k > 0 ==> s.progress[k - 1] >= s.progress[k])
    && (s.threads[k].pc.WaitNext? && k < p.grid.threads - 1 ==> s.progress[k + 1] >= s.progress[k])
  }

  /** The iteration that leaves the initialize or the finalize loops also bumps the counter. */
  predicate BumpsCounter(g: Grid, pc: Pc) {
    (pc.Init? || pc.Final?) && pc.step >= g.batch
  }

  function Next<R>(p: Problem<R>, s: State<R>, k: int): State<R>
    requires WellFormed(p, s) && CanStep(p, s, k)
  {
    var t := s.threads[k];
    var a := ActionAt(p.grid, k, t.pc);
    var moved := s.(
      threads := s.threads[k := Advance(p.grid, k, t)],
      progress := if BumpsCounter(p.grid, t.pc) then s.progress[k := s.progress[k] + 1] else s.progress,
      versions := Bumped(p.grid, s.versions, TargetRow(a)));
    if a.ComputeRow? then
      TargetIsInner(p.grid, k, t);
      var step := StepOf(p.grid, t, a);
      moved.(bufs := WriteRow(p, s.bufs, a.row, step), log := s.log + [(a.row, step)])
    else moved
  }

  function Bumped(g: Grid, versions: seq<int>, row: int): seq<int>
    requires |versions| == g.ny
  {
    if Inner(g, row) then versions[row := versions[row] + 1] else versions
  }

  /** The schedule names the thread that makes each step; any interleaving is a schedule. */
  ghost predicate Leads<R>(p: Problem<R>, s: State<R>, schedule: seq<int>, s': State<R>)
    decreases |schedule|
  {
    if schedule == [] then s == s'
    else WellFormed(p, s) && CanStep(p, s, schedule[0]) && Leads(p, Next(p, s, schedule[0]), schedule[1..], s')
  }

  predicate AllFinished<R>(p: Problem<R>, s: State<R>) {
    forall k :: 0 <= k < |s.threads| ==> Finished(p.grid, s.threads[k])
  }

  // ---------- The row guard ----------

  lemma TargetIsInner(g: Grid, k: int, t: Thread)
    requires ValidGrid(g) && 0 <= k < g.threads && ThreadOk(g, k, t) && ActionAt(g, k, t.pc).ComputeRow?
    ensures Inner(g, ActionAt(g, k, t.pc).row)
  {
    TargetInReach(g, k, t);
    Geometry(g, k);
    if k > 0 {
      Geometry(g, k - 1);
    }
  }

  lemma {:induction false} StepInBatch(g: Grid, done: nat, step: int)
    requires 0 <= step < g.batch
    ensures Elapsed(g, done) >= 0
    ensures (Elapsed(g, done) + step) % g.batch == step
  {
    if done > 0 {
      StepInBatch(g, done - 1, step);
      var x := Elapsed(g, done - 1) + step;
      assert (x + g.batch) % g.batch == x % g.batch by {
        ModPlus(x, g.batch);
      }
    }
  }

  lemma ModPlus(x: nat, n: int)
    requires n > 0
    ensures (x + n) % n == x % n
  {
    assert n * (x / n + 1) == n * (x / n) + n;
    QuotientIs(x + n, n, x / n + 1, x % n);
  }

  /** The loops compute exactly the rows that the reference updates. */
  lemma ComputedIsUpdated(g: Grid, k: int, t: Thread)
    requires ValidGrid(g) && 0 <= k < g.threads && ThreadOk(g, k, t) && !ActionAt(g, k, t.pc).Control?
    requires TargetRow(ActionAt(g, k, t.pc)) >= 1
    ensures var a := ActionAt(g, k, t.pc);
            Inner(g, a.row) && Updated(g, a.row, StepOf(g, t, a)) == a.ComputeRow?
  {
    var a := ActionAt(g, k, t.pc);
    TargetInReach(g, k, t);
    Geometry(g, k);
    StepInBatch(g, t.done, a.step);
    if a.row == 1 {
      assert k == 0 by {
        if k > 0 {
          Geometry(g, k - 1);
        }
      }
    }
  }
}
