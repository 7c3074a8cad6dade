/** The solver object: two row buffers overwritten in place by threads that share progress counters. */
module WaveEquation {
  import opened WaveSchedule
  import opened WaveSolver
  import opened WaveCorrectness

  class Solver<R> {
    const ny: int
    const numThreads: int
    const kernel: (int, int, R, R, R, R) -> R
    const buf1: array<R>
    const buf2: array<R>
    const sectionProgress: array<int>
    var stepGlobal: nat

    /** Between calls all progress counters stand at the same value. */
    ghost predicate Valid()
      reads this, buf1, buf2, sectionProgress
    {
      && buf1.Length == buf2.Length == ny
      && sectionProgress.Length == numThreads >= 1
      && buf1 != buf2 && buf1 as object != sectionProgress && buf2 as object != sectionProgress
      && (forall k :: 0 <= k < numThreads ==> sectionProgress[k] == sectionProgress[0])
    }

    /** All rows start as the given blank row and all counters at 0. */
    constructor (ny: nat, numThreads: nat, kernel: (int, int, R, R, R, R) -> R, blank: R)
      requires numThreads >= 1
      ensures Valid() && stepGlobal == 0
      ensures this.ny == ny && this.numThreads == numThreads && this.kernel == kernel
      ensures forall row :: 0 <= row < ny ==> buf1[row] == blank && buf2[row] == blank
      ensures fresh(buf1) && fresh(buf2) && fresh(sectionProgress)
    {
      this.ny, this.numThreads, this.kernel := ny, numThreads, kernel;
      buf1 := new R[ny](_ => blank);
      buf2 := new R[ny](_ => blank);
      sectionProgress := new int[numThreads](_ => 0);
      stepGlobal := 0;
    }

    /** The problem that a call with the given batches solves from the current state. */
    ghost function CurrentProblem(batchSize: int, batches: nat): Problem<R>
      reads this, sectionProgress
      requires sectionProgress.Length >= 1
    {
      Problem(Grid(ny, numThreads, batchSize, batches), stepGlobal, sectionProgress[0], kernel)
    }

    /** One row of one time step, in place: the buffer that is not read gets the new row. */
    method ComputeRow(row: int, step: nat, ghost p: Problem<R>)
      requires buf1.Length == buf2.Length == ny && buf1 != buf2
      requires 1 <= row < ny - 1
      requires p.grid.ny == ny && p.kernel == kernel && p.step0 <= step
      modifies buf1, buf2
      ensures Buffers(buf1[..], buf2[..]) == WriteRow(p, old(Buffers(buf1[..], buf2[..])), row, step - p.step0)
      ensures step % 2 == 0 ==>
        && buf1[..] == old(buf1[..])
        && buf2[row] == kernel(step, row, old(buf1[row - 1]), old(buf1[row]), old(buf1[row + 1]), old(buf2[row]))
      ensures step % 2 == 1 ==>
        && buf2[..] == old(buf2[..])
        && buf1[row] == kernel(step, row, old(buf2[row - 1]), old(buf2[row]), old(buf2[row + 1]), old(buf1[row]))
    {
      if step % 2 == 0 {
        buf2[row] := kernel(step, row, buf1[row - 1], buf1[row], buf1[row + 1], buf2[row]);
      } else {
        buf1[row] := kernel(step, row, buf2[row - 1], buf2[row], buf2[row + 1], buf1[row]);
      }
    }

    /** Thread k has batches left and its spin loop, if it is at one, lets it through. */
    predicate MayRun(g: Grid, threads: seq<Thread>, k: int)
      requires g.threads == |threads| == sectionProgress.Length
      reads sectionProgress
    {
      && 0 <= k < g.threads
      && !Finished(g, threads[k])
      && (threads[k].pc.WaitPrev? && k > 0 ==> sectionProgress[k - 1] >= sectionProgress[k])
      && (threads[k].pc.WaitNext? && k < g.threads - 1 ==> sectionProgress[k + 1] >= sectionProgress[k])
    }

    /** What the object and the local variables of the threads have to do with a state. */
    ghost predicate Shows(p: Problem<R>, s: State<R>, threads: seq<Thread>)
      reads this, buf1, buf2, sectionProgress
    {
      && p.grid.ny == ny && p.grid.threads == numThreads && p.kernel == kernel && p.step0 == stepGlobal
      && buf1.Length == buf2.Length == ny
      && sectionProgress.Length == numThreads >= 1
      && buf1 != buf2 && buf1 as object != sectionProgress && buf2 as object != sectionProgress
      && s.threads == threads
      && s.progress == sectionProgress[..]
      && s.bufs == Buffers(buf1[..], buf2[..])
    }

    /** One iteration of thread k's innermost loop, on the shared arrays. */
    method RunIteration(g: Grid, threads: seq<Thread>, k: int, ghost p: Problem<R>, ghost s: State<R>)
      returns (threads': seq<Thread>)
      requires g == p.grid && WellFormed(p, s) && Shows(p, s, threads) && CanStep(p, s, k)
      modifies buf1, buf2, sectionProgress
      ensures Shows(p, Next(p, s, k), threads')
    {
      var t := threads[k];
      var a := ActionAt(g, k, t.pc);
      if a.ComputeRow? {
        TargetIsInner(g, k, t);
        TargetInReach(g, k, t);
        StepInBatch(g, t.done, a.step);
        ComputeRow(a.row, stepGlobal + StepOf(g, t, a), p);
      }
      if BumpsCounter(g, t.pc) {
        sectionProgress[k] := sectionProgress[k] + 1;
      }
      threads' := threads[k := Advance(g, k, t)];
    }

    /** A scheduler that picks any thread that does not spin, again and again, stands for the
        parallel region. Its loop ends, whatever it picks, with both buffers as plain sweeps
        leave them and with all counters equal again. */
    method RunThreads(g: Grid, ghost p: Problem<R>, ghost init: Buffers<R>)
      requires g == p.grid && ValidGrid(g) && Fits(p, init)
      requires Shows(p, Initial(p, init), Initial(p, init).threads)
      modifies buf1, buf2, sectionProgress
      ensures Buffers(buf1[..], buf2[..]) == Sweep(p, init, g.batches * g.batch)
      ensures forall k :: 0 <= k < numThreads ==> sectionProgress[k] == p.progress0 + 2 * g.batches
    {
      var threads := seq(numThreads, _ => Thread(0, WaitPrev));
      ghost var s := Initial(p, init);
      InitialInv(p, init);
      while exists k :: 0 <= k < numThreads && MayRun(g, threads, k)
        invariant Inv(p, init, s) && Shows(p, s, threads)
        decreases WorkLeft(p, s, numThreads)
      {
        var k :| 0 <= k < numThreads && MayRun(g, threads, k);
        NextInv(p, init, s, k);
        StepTakesWork(p, s, k, numThreads);
        threads := RunIteration(g, threads, k, p, s);
        s := Next(p, s, k);
      }
      assert forall k :: 0 <= k < numThreads ==> CanStep(p, s, k) == MayRun(g, threads, k);
      AllDone(p, init, s);
      assert sectionProgress[..] == s.progress;
    }

    /** The buffers go through a history of that many time steps, numbered on from the steps made before. */
    method SkipNIterations(totalIterations: nat, batchSize: int) returns (ghost history: seq<Buffers<R>>)
      requires Valid()
      requires batchSize >= 2 && totalIterations % batchSize == 0
      requires ny >= 2 && (ny - 2) / numThreads >= 2 * (batchSize - 1)
      modifies this, buf1, buf2, sectionProgress
      ensures Valid() && stepGlobal == old(stepGlobal) + totalIterations
      ensures Buffers(buf1[..], buf2[..])
           == Sweep(old(CurrentProblem(batchSize, totalIterations / batchSize)),
                    old(Buffers(buf1[..], buf2[..])), totalIterations)
      ensures |history| == totalIterations + 1 && IsHistory(ny, batchSize, kernel, old(stepGlobal), history)
      ensures history[0] == old(Buffers(buf1[..], buf2[..])) && history[totalIterations] == Buffers(buf1[..], buf2[..])
    {
      var nBatches := totalIterations / batchSize;
      WholeBatches(totalIterations, batchSize);
      ghost var p := CurrentProblem(batchSize, nBatches);
      ghost var init := Buffers(buf1[..], buf2[..]);
      assert Initial(p, init).progress == sectionProgress[..];
      history := SweepsAreHistory(p, init, totalIterations);
      RunThreads(Grid(ny, numThreads, batchSize, nBatches), p, init);
      stepGlobal := stepGlobal + totalIterations;
    }

    method NextIteration(batchSize: int) returns (ghost history: seq<Buffers<R>>)
      requires Valid() && batchSize >= 2
      requires ny >= 2 && (ny - 2) / numThreads >= 2 * (batchSize - 1)
      modifies this, buf1, buf2, sectionProgress
      ensures Valid() && stepGlobal == old(stepGlobal) + batchSize
      ensures Buffers(buf1[..], buf2[..])
           == Sweep(old(CurrentProblem(batchSize, 1)), old(Buffers(buf1[..], buf2[..])), batchSize)
      ensures |history| == batchSize + 1 && IsHistory(ny, batchSize, kernel, old(stepGlobal), history)
      ensures history[0] == old(Buffers(buf1[..], buf2[..])) && history[batchSize] == Buffers(buf1[..], buf2[..])
    {
      history := SkipNIterations(batchSize, batchSize);
    }
  }

  lemma WholeBatches(total: nat, batch: int)
    requires batch > 0 && total % batch == 0
    ensures total / batch * batch == total
  {
  }

  lemma AllDone<R>(p: Problem<R>, init: Buffers<R>, s: State<R>)
    requires Inv(p, init, s) && forall k :: !CanStep(p, s, k)
    ensures s.bufs == Sweep(p, init, p.grid.batches * p.grid.batch)
    ensures forall k :: 0 <= k < p.grid.threads ==> s.progress[k] == p.progress0 + 2 * p.grid.batches
  {
    if !AllFinished(p, s) {
      SomeCanStep(p, s);
    }
    FinishedBuffers(p, init, s);
    ElapsedFormula(p.grid, p.grid.batches);
    forall k | 0 <= k < p.grid.threads
      ensures s.progress[k] == p.progress0 + 2 * p.grid.batches
    {
      assert ThreadOk(p.grid, k, s.threads[k]);
    }
  }
}
