/** The time-tiled schedule of the wave solver.

    Every thread owns a section of rows and advances it by a whole batch of time steps
    in three phases: an inverted trapezoid around its first row (initialize), skewed columns
    (main) and the triangle left over at its last row (finalize). This module describes the
    loops of those phases as a program counter that moves one loop test at a time, and gives
    the version of a row, the number of time steps it has gone through, in closed form.
 */
module WaveSchedule {
  import opened Extremes

  /** The grid has rows 0 .. ny-1; rows 0 and ny-1 are the fixed border. */
  datatype Grid = Grid(ny: int, threads: int, batch: int, batches: nat)

  predicate ValidGrid(g: Grid) {
    && g.threads >= 1
    && g.batch >= 2
    && Width(g) >= 2 * (g.batch - 1)
  }

  /** The number of rows in every section but the last. */
  function Width(g: Grid): int {
    if g.threads >= 1 && g.ny >= 2 then (g.ny - 2) / g.threads else 0
  }

  /** The first row of section k; StartFormula gives the product the solver computes. */
  function Start(g: Grid, k: int): int {
    if k <= 0 then 1 else Start(g, k - 1) + Width(g)
  }

  lemma {:induction false} StartFormula(g: Grid, k: nat)
    ensures Start(g, k) == 1 + Width(g) * k
  {
    if k > 0 {
      StartFormula(g, k - 1);
      assert Width(g) * k == Width(g) * (k - 1) + Width(g);
    }
  }

  /** The time steps that a number of whole batches make up. */
  function Elapsed(g: Grid, batches: nat): int {
    if batches == 0 then 0 else Elapsed(g, batches - 1) + g.batch
  }

  lemma {:induction false} ElapsedFormula(g: Grid, batches: nat)
    ensures Elapsed(g, batches) == batches * g.batch
  {
    if batches > 0 {
      ElapsedFormula(g, batches - 1);
      assert batches * g.batch == (batches - 1) * g.batch + g.batch;
    }
  }

  function Stop(g: Grid, k: int): int {
    if k == g.threads - 1 then g.ny + g.batch - 2 else Start(g, k) + Width(g)
  }

  /** One past the last row of section k. */
  function SectionEnd(g: Grid, k: int): int {
    if k == g.threads - 1 then g.ny - 1 else Start(g, k + 1)
  }

  predicate InSection(g: Grid, k: int, row: int) {
    0 <= k < g.threads && Start(g, k) <= row < SectionEnd(g, k)
  }

  lemma Geometry(g: Grid, k: int)
    requires ValidGrid(g) && 0 <= k < g.threads
    ensures Start(g, k) >= 1
    ensures k == 0 ==> Start(g, k) == 1
    ensures k > 0 ==> Start(g, k) == Start(g, k - 1) + Width(g) == Stop(g, k - 1) == SectionEnd(g, k - 1)
    ensures Start(g, k) + Width(g) <= SectionEnd(g, k) <= g.ny - 1
    ensures Stop(g, k) == (if k == g.threads - 1 then SectionEnd(g, k) + g.batch - 1 else SectionEnd(g, k))
  {
    StartMonotone(g, 0, k);
    StartMonotone(g, k + 1, g.threads);
    StartFormula(g, g.threads);
    assert Width(g) * g.threads <= g.ny - 2;
  }

  lemma {:induction false} StartMonotone(g: Grid, k: int, l: int)
    requires ValidGrid(g) && 0 <= k <= l
    ensures Start(g, k) <= Start(g, l)
    ensures k < l ==> Start(g, k) + Width(g) <= Start(g, l)
    decreases l
  {
    if k < l {
      StartMonotone(g, k, l - 1);
    }
  }

  /** The section that holds a row. */
  function Owner(g: Grid, row: int): (k: int)
    requires ValidGrid(g) && 1 <= row < g.ny - 1
    ensures InSection(g, k, row)
  {
    Geometry(g, 0);
    OwnerFrom(g, 0, row)
  }

  function OwnerFrom(g: Grid, k: int, row: int): (owner: int)
    requires ValidGrid(g) && 0 <= k < g.threads && Start(g, k) <= row < g.ny - 1
    ensures InSection(g, owner, row)
    decreases g.threads - k
  {
    if k == g.threads - 1 || row < Start(g, k + 1) then k else OwnerFrom(g, k + 1, row)
  }

  lemma OwnerUnique(g: Grid, j: int, k: int, row: int)
    requires ValidGrid(g) && InSection(g, j, row) && InSection(g, k, row)
    ensures j == k
  {
    if j < k {
      StartMonotone(g, j + 1, k);
    } else if k < j {
      StartMonotone(g, k + 1, j);
    }
  }

  // ---------- The program of one thread ----------

  /** Where a thread stands: spinning on a neighbour's progress counter, or at the test of the
      innermost loop of one of the three phases. */
  datatype Pc =
    | WaitPrev
    | Init(step: int, i: int)
    | Main(i: int, step: int)
    | WaitNext
    | Final(step: int, i: int)

  /** A thread with `done` batches behind it. */
  datatype Thread = Thread(done: nat, pc: Pc)

  /** What the next loop iteration does: only control flow, skip a row because of the row guard of
      the initialize phase, or compute a row. */
  datatype Action = Control | SkipRow(row: int, step: int) | ComputeRow(row: int, step: int)

  predicate Finished(g: Grid, t: Thread) {
    t.done >= g.batches
  }

  function ActionAt(g: Grid, k: int, pc: Pc): Action {
    var w := g.batch - 1;
    match pc
    case WaitPrev => Control
    case Init(step, i) =>
      if step >= g.batch || i >= Start(g, k) + w - step then Control
      else if i <= 1 then SkipRow(i, step)
      else ComputeRow(i, step)
    case Main(i, step) =>
      if i >= Stop(g, k) - w || step >= g.batch then Control
      else ComputeRow(i - step, step)
    case WaitNext => Control
    case Final(step, i) =>
      if step >= g.batch || i >= Stop(g, k) - w + step || i >= g.ny - 1 then Control
      else ComputeRow(i, step)
  }

  /** The thread after one loop iteration (for a wait: after the awaited counter was seen). */
  function Advance(g: Grid, k: int, t: Thread): Thread {
    var w := g.batch - 1;
    match t.pc
    case WaitPrev => t.(pc := Init(0, Start(g, k) - w))
    case Init(step, i) =>
      if step >= g.batch then t.(pc := Main(Start(g, k) + w, 0))
      else if i >= Start(g, k) + w - step then t.(pc := Init(step + 1, Start(g, k) - w + (step + 1)))
      else t.(pc := Init(step, i + 1))
    case Main(i, step) =>
      if i >= Stop(g, k) - w then t.(pc := WaitNext)
      else if step >= g.batch then t.(pc := Main(i + 1, 0))
      else t.(pc := Main(i, step + 1))
    case WaitNext => t.(pc := Final(0, Stop(g, k) - w))
    case Final(step, i) =>
      if step >= g.batch then Thread(t.done + 1, WaitPrev)
      else if i >= Stop(g, k) - w + step || i >= g.ny - 1 then
        t.(pc := Final(step + 1, Stop(g, k) - w - (step + 1)))
      else t.(pc := Final(step, i + 1))
  }

  /** How often the thread has bumped its progress counter. */
  function Bumps(t: Thread): nat {
    2 * t.done + (if PastInit(t.pc) then 1 else 0)
  }

  predicate PastInit(pc: Pc) {
    pc.Main? || pc.WaitNext? || pc.Final?
  }

  predicate PcOk(g: Grid, k: int, pc: Pc) {
    var w := g.batch - 1;
    match pc
    case WaitPrev => true
    case Init(step, i) =>
      && 0 <= step <= g.batch
      && Start(g, k) - w + step <= i
      && (i <= Start(g, k) + w - step || i == Start(g, k) - w + step)
    case Main(i, step) =>
      && Start(g, k) + w <= i <= Stop(g, k) - w
      && 0 <= step <= g.batch
      && (i == Stop(g, k) - w ==> step == 0)
    case WaitNext => true
    case Final(step, i) =>
      && 0 <= step <= g.batch
      && Stop(g, k) - w - step <= i <= Stop(g, k) - w + step
  }

  predicate ThreadOk(g: Grid, k: int, t: Thread) {
    && PcOk(g, k, t.pc)
    && t.done <= g.batches
    && (t.done == g.batches ==> t.pc == WaitPrev)
  }

  // ---------- Versions ----------

  /** How many steps of a batch the initialize phase of thread k does on a row. */
  function InitShare(g: Grid, k: int, row: int): int {
    var w := g.batch - 1;
    Max(0, if row < Start(g, k) then row - (Start(g, k) - w) + 1 else Start(g, k) + w - row)
  }

  function InitCount(g: Grid, k: int, step: int, i: int, row: int): int {
    var share := InitShare(g, k, row);
    Min(share, step) + (if step < share && row < i then 1 else 0)
  }

  /** The first step of a batch that the finalize phase of thread k does on a row. */
  function FinalFrom(g: Grid, k: int, row: int): int {
    var border := Stop(g, k) - (g.batch - 1);
    Min(g.batch, if row < border then border - row else row - border + 1)
  }

  function MainCount(g: Grid, k: int, i: int, step: int, row: int): int {
    Min(FinalFrom(g, k, row), Max(0, i - row + (if i - row < step then 1 else 0)))
  }

  function FinalCount(g: Grid, k: int, step: int, i: int, row: int): int {
    var from := FinalFrom(g, k, row);
    Max(from, step) + (if from <= step < g.batch && row < i then 1 else 0)
  }

  /** Rows next to the following section, whose batch the next thread opens. */
  predicate Shared(g: Grid, k: int, row: int) {
    k < g.threads - 1 && row >= Stop(g, k) - (g.batch - 1)
  }

  /** How many steps of its batch a thread has seen a row through, by its own program counter. */
  function OwnCount(g: Grid, k: int, pc: Pc, row: int): int {
    match pc
    case WaitPrev => 0
    case Init(step, i) => InitCount(g, k, step, i, row)
    case Main(i, step) => MainCount(g, k, i, step, row)
    case WaitNext => FinalFrom(g, k, row)
    case Final(step, i) => FinalCount(g, k, step, i, row)
  }

  /** The count of a shared row of section k. */
  function SharedCount(g: Grid, k: int, t: Thread, next: Thread, row: int): int {
    if t.pc.Final? then OwnCount(g, k, t.pc, row) else OpenedByNext(g, k, t.done, next, row)
  }

  /** How many steps of thread k's current batch a row of section k has gone through. */
  function BatchCount(g: Grid, ts: seq<Thread>, k: int, row: int): int
    requires |ts| == g.threads && 0 <= k < g.threads
  {
    if Shared(g, k, row) then SharedCount(g, k, ts[k], ts[k + 1], row)
    else OwnCount(g, k, ts[k].pc, row)
  }

  function OpenedByNext(g: Grid, k: int, done: nat, next: Thread, row: int): int {
    if next.done > done then InitShare(g, k + 1, row)
    else if next.done < done then 0
    else
      match next.pc
      case WaitPrev => 0
      case Init(step, i) => InitCount(g, k + 1, step, i, row)
      case _ => InitShare(g, k + 1, row)
  }

  /** The version of a row of section k: how many time steps it has gone through. */
  function VersionIn(g: Grid, ts: seq<Thread>, k: int, row: int): int
    requires |ts| == g.threads && 0 <= k < g.threads
  {
    Elapsed(g, ts[k].done) + BatchCount(g, ts, k, row)
  }

  // ---------- What the handshake keeps ----------

  /** Thread k + 1 is in a batch only when thread k has finished the one before, and thread k closes
      a batch only when thread k + 1 has opened it. */
  predicate InStep(t: Thread, next: Thread) {
    && next.done <= t.done + 1
    && (next.done == t.done + 1 ==> next.pc == WaitPrev)
    && t.done <= next.done + 1
    && (t.done == next.done + 1 ==> PastInit(next.pc) && !t.pc.Final?)
    && (t.done == next.done && t.pc.Final? ==> PastInit(next.pc))
  }

  predicate AllInStep(g: Grid, ts: seq<Thread>) {
    && |ts| == g.threads
    && (forall k :: 0 <= k < g.threads ==> ThreadOk(g, k, ts[k]))
    && (forall k :: 0 <= k < g.threads - 1 ==> InStep(ts[k], ts[k + 1]))
  }

  /** The spin loops of thread k, over the counters that stand at Bumps. */
  predicate CanAdvance(g: Grid, ts: seq<Thread>, k: int)
    requires |ts| == g.threads && 0 <= k < g.threads
  {
    && !Finished(g, ts[k])
    && (ts[k].pc.WaitPrev? && k > 0 ==> Bumps(ts[k - 1]) >= Bumps(ts[k]))
    && (ts[k].pc.WaitNext? && k < g.threads - 1 ==> Bumps(ts[k + 1]) >= Bumps(ts[k]))
  }

  lemma AdvanceThreadOk(g: Grid, k: int, t: Thread)
    requires ValidGrid(g) && 0 <= k < g.threads && ThreadOk(g, k, t) && !Finished(g, t)
    ensures ThreadOk(g, k, Advance(g, k, t))
  {
    Geometry(g, k);
  }

  lemma AdvanceInStep(g: Grid, ts: seq<Thread>, k: int)
    requires ValidGrid(g) && AllInStep(g, ts) && 0 <= k < g.threads && CanAdvance(g, ts, k)
    ensures AllInStep(g, ts[k := Advance(g, k, ts[k])])
  {
    AdvanceThreadOk(g, k, ts[k]);
    var ts' := ts[k := Advance(g, k, ts[k])];
    forall j | 0 <= j < g.threads - 1
      ensures InStep(ts'[j], ts'[j + 1])
    {
      assert InStep(ts[j], ts[j + 1]);
    }
  }

  // ---------- Versions move one row at a time ----------

  /** The row a thread is about to take through one more step, or -1. */
  function TargetRow(a: Action): int {
    if a.Control? then -1 else a.row
  }

  lemma TargetInReach(g: Grid, k: int, t: Thread)
    requires ValidGrid(g) && 0 <= k < g.threads && ThreadOk(g, k, t)
    requires !ActionAt(g, k, t.pc).Control?
    ensures Start(g, k) - (g.batch - 1) <= TargetRow(ActionAt(g, k, t.pc)) < SectionEnd(g, k)
    ensures 0 <= ActionAt(g, k, t.pc).step < g.batch
  {
    Geometry(g, k);
  }

  function Hit(g: Grid, k: int, t: Thread, row: int): int {
    if TargetRow(ActionAt(g, k, t.pc)) == row then 1 else 0
  }

  lemma InitCountAdvance(g: Grid, k: int, t: Thread, row: int)
    requires ValidGrid(g) && 0 <= k < g.threads && ThreadOk(g, k, t) && t.pc.Init? && row >= 1
    ensures
      var t' := Advance(g, k, t);
      InitCount(g, k, t.pc.step, t.pc.i, row) + Hit(g, k, t, row)
      == if t'.pc.Init? then InitCount(g, k, t'.pc.step, t'.pc.i, row) else InitShare(g, k, row)
  {
    Geometry(g, k);
  }

  lemma MainCountAdvance(g: Grid, k: int, t: Thread, row: int)
    requires ValidGrid(g) && 0 <= k < g.threads && ThreadOk(g, k, t) && t.pc.Main?
    requires InSection(g, k, row) && !Shared(g, k, row)
    ensures
      var t' := Advance(g, k, t);
      MainCount(g, k, t.pc.i, t.pc.step, row) + Hit(g, k, t, row)
      == if t'.pc.Main? then MainCount(g, k, t'.pc.i, t'.pc.step, row) else FinalFrom(g, k, row)
  {
    Geometry(g, k);
  }

  lemma FinalCountAdvance(g: Grid, k: int, t: Thread, row: int)
    requires ValidGrid(g) && 0 <= k < g.threads && ThreadOk(g, k, t) && t.pc.Final?
    requires InSection(g, k, row)
    ensures
      var t' := Advance(g, k, t);
      FinalCount(g, k, t.pc.step, t.pc.i, row) + Hit(g, k, t, row)
      == if t'.pc.Final? then FinalCount(g, k, t'.pc.step, t'.pc.i, row) else g.batch
  {
    Geometry(g, k);
  }

  lemma OwnCountAdvance(g: Grid, k: int, t: Thread, row: int)
    requires ValidGrid(g) && 0 <= k < g.threads && ThreadOk(g, k, t) && !t.pc.Final?
    requires InSection(g, k, row) && !Shared(g, k, row)
    ensures OwnCount(g, k, Advance(g, k, t).pc, row) == OwnCount(g, k, t.pc, row) + Hit(g, k, t, row)
  {
    Geometry(g, k);
    match t.pc
    case WaitPrev =>
    case Init(_, _) => InitCountAdvance(g, k, t, row);
    case Main(_, _) => MainCountAdvance(g, k, t, row);
    case WaitNext =>
    case Final(_, _) =>
  }

  lemma SharedNotTarget(g: Grid, k: int, t: Thread, row: int)
    requires ValidGrid(g) && 0 <= k < g.threads && ThreadOk(g, k, t) && !t.pc.Final?
    requires InSection(g, k, row) && Shared(g, k, row)
    ensures Hit(g, k, t, row) == 0
  {
    Geometry(g, k);
  }

  lemma SharedCountAdvance(g: Grid, k: int, t: Thread, next: Thread, row: int)
    requires ValidGrid(g) && 0 <= k < g.threads && ThreadOk(g, k, t) && InStep(t, next)
    requires InSection(g, k, row) && Shared(g, k, row)
    requires t.pc.WaitNext? ==> Bumps(next) >= Bumps(t)
    ensures
      var t' := Advance(g, k, t);
      SharedCount(g, k, t', next, row) + (if t'.done == t.done then 0 else g.batch)
      == SharedCount(g, k, t, next, row) + Hit(g, k, t, row)
  {
    match t.pc
    case Final(_, _) =>
      FinalCountAdvance(g, k, t, row);
    case _ =>
      SharedNotTarget(g, k, t, row);
      Geometry(g, k + 1);
  }

  /** Thread k's own iteration moves its rows: its target by one step, the others not at all. */
  lemma VersionAfterOwn(g: Grid, ts: seq<Thread>, k: int, row: int)
    requires ValidGrid(g) && AllInStep(g, ts) && 0 <= k < g.threads && CanAdvance(g, ts, k)
    requires InSection(g, k, row)
    ensures VersionIn(g, ts[k := Advance(g, k, ts[k])], k, row) == VersionIn(g, ts, k, row) + Hit(g, k, ts[k], row)
  {
    var t := ts[k];
    assert ThreadOk(g, k, t);
    if Shared(g, k, row) {
      assert InStep(ts[k], ts[k + 1]);
      SharedCountAdvance(g, k, t, ts[k + 1], row);
    } else if t.pc.Final? {
      FinalCountAdvance(g, k, t, row);
    } else {
      OwnCountAdvance(g, k, t, row);
    }
  }

  lemma NextNotTarget(g: Grid, k: int, t: Thread, row: int)
    requires ValidGrid(g) && 0 < k < g.threads && ThreadOk(g, k, t)
    requires InSection(g, k - 1, row) && (!t.pc.Init? || !Shared(g, k - 1, row))
    ensures Hit(g, k, t, row) == 0
  {
    Geometry(g, k);
    Geometry(g, k - 1);
  }

  /** An iteration of the next thread moves only the shared rows at the end of a section. */
  lemma VersionAfterNext(g: Grid, ts: seq<Thread>, k: int, row: int)
    requires ValidGrid(g) && AllInStep(g, ts) && 0 < k < g.threads && CanAdvance(g, ts, k)
    requires InSection(g, k - 1, row)
    ensures VersionIn(g, ts[k := Advance(g, k, ts[k])], k - 1, row)
         == VersionIn(g, ts, k - 1, row) + Hit(g, k, ts[k], row)
  {
    var t := ts[k];
    assert ThreadOk(g, k, t);
    assert InStep(ts[k - 1], ts[k - 1 + 1]);
    Geometry(g, k - 1);
    if t.pc.Init? && Shared(g, k - 1, row) {
      InitCountAdvance(g, k, t, row);
    } else {
      NextNotTarget(g, k, t, row);
    }
    if t.pc.WaitPrev? && Shared(g, k - 1, row) {
      Geometry(g, k);
    }
  }

  // ---------- Every row is taken through its next step, between neighbours that are ready ----------

  /** The time step, counted from the start of the run, of a thread's next row. */
  function StepOf(g: Grid, t: Thread, a: Action): int {
    Elapsed(g, t.done) + (if a.Control? then 0 else a.step)
  }

  lemma SectionNearTarget(g: Grid, k: int, t: Thread, j: int, row: int)
    requires ValidGrid(g) && 0 <= k < g.threads && ThreadOk(g, k, t)
    requires !ActionAt(g, k, t.pc).Control?
    requires InSection(g, j, row)
    requires TargetRow(ActionAt(g, k, t.pc)) - 1 <= row <= TargetRow(ActionAt(g, k, t.pc)) + 1
    ensures k - 1 <= j <= k + 1
  {
    TargetInReach(g, k, t);
    Geometry(g, k);
    if j < k - 1 {
      StartMonotone(g, j + 1, k - 1);
      Geometry(g, k - 1);
    } else if j > k + 1 {
      Geometry(g, k + 1);
      StartMonotone(g, k + 2, j);
      Geometry(g, k + 2);
    }
  }

  /** The versions around the row that a thread computes next. */
  predicate Ready(g: Grid, ts: seq<Thread>, k: int, j: int, row: int)
    requires |ts| == g.threads && 0 <= k < g.threads && 0 <= j < g.threads
  {
    var a := ActionAt(g, k, ts[k].pc);
    && StepOf(g, ts[k], a) <= VersionIn(g, ts, j, row) <= StepOf(g, ts[k], a) + 1
    && (row == TargetRow(a) ==> VersionIn(g, ts, j, row) == StepOf(g, ts[k], a))
  }

  predicate NearTarget(g: Grid, k: int, t: Thread, row: int) {
    var a := ActionAt(g, k, t.pc);
    !a.Control? && a.row - 1 <= row <= a.row + 1
  }

  /** A count that lets the row serve as input to the next computed row. */
  predicate ReadyCount(a: Action, row: int, count: int) {
    !a.Control? && a.step <= count <= a.step + 1 && (row == a.row ==> count == a.step)
  }

  lemma ReadyOwnCount(g: Grid, k: int, t: Thread, row: int)
    requires ValidGrid(g) && 0 <= k < g.threads && ThreadOk(g, k, t) && NearTarget(g, k, t, row)
    requires InSection(g, k, row) && (t.pc.Final? || !Shared(g, k, row))
    ensures ReadyCount(ActionAt(g, k, t.pc), row, OwnCount(g, k, t.pc, row))
  {
    Geometry(g, k);
  }

  lemma ReadyShared(g: Grid, k: int, t: Thread, next: Thread, row: int)
    requires ValidGrid(g) && 0 <= k < g.threads - 1 && ThreadOk(g, k, t) && NearTarget(g, k, t, row)
    requires InSection(g, k, row) && Shared(g, k, row) && !t.pc.Final?
    requires InStep(t, next) && ThreadOk(g, k + 1, next)
    ensures ReadyCount(ActionAt(g, k, t.pc), row, OpenedByNext(g, k, t.done, next, row))
  {
    Geometry(g, k);
    Geometry(g, k + 1);
    // only the first shared row can be next to a row of the main phase
    assert row == Stop(g, k) - (g.batch - 1) && InitShare(g, k + 1, row) == 1;
  }

  lemma ReadyOwn(g: Grid, ts: seq<Thread>, k: int, row: int)
    requires ValidGrid(g) && AllInStep(g, ts) && 0 <= k < g.threads
    requires NearTarget(g, k, ts[k], row) && InSection(g, k, row)
    ensures Ready(g, ts, k, k, row)
  {
    assert ThreadOk(g, k, ts[k]);
    if Shared(g, k, row) && !ts[k].pc.Final? {
      assert InStep(ts[k], ts[k + 1]) && ThreadOk(g, k + 1, ts[k + 1]);
      ReadyShared(g, k, ts[k], ts[k + 1], row);
    } else {
      ReadyOwnCount(g, k, ts[k], row);
    }
  }

  /** Rows of the section before, as thread k's first rows see them. */
  lemma ReadyPrevOwn(g: Grid, k: int, prev: Thread, t: Thread, row: int)
    requires ValidGrid(g) && 0 < k < g.threads && ThreadOk(g, k, t) && ThreadOk(g, k - 1, prev)
    requires NearTarget(g, k, t, row) && InSection(g, k - 1, row) && InStep(prev, t)
    requires !Shared(g, k - 1, row)
    ensures prev.done == t.done && ReadyCount(ActionAt(g, k, t.pc), row, OwnCount(g, k - 1, prev.pc, row))
  {
    Geometry(g, k);
    Geometry(g, k - 1);
  }

  lemma ReadyPrevShared(g: Grid, k: int, prev: Thread, t: Thread, row: int)
    requires ValidGrid(g) && 0 < k < g.threads && ThreadOk(g, k, t) && ThreadOk(g, k - 1, prev)
    requires NearTarget(g, k, t, row) && InSection(g, k - 1, row) && InStep(prev, t)
    requires Shared(g, k - 1, row)
    ensures t.done <= prev.done <= t.done + 1
    ensures ReadyCount(ActionAt(g, k, t.pc), row,
                       SharedCount(g, k - 1, prev, t, row) + (if prev.done == t.done then 0 else g.batch))
  {
    Geometry(g, k);
    Geometry(g, k - 1);
  }

  lemma ReadyPrev(g: Grid, ts: seq<Thread>, k: int, row: int)
    requires ValidGrid(g) && AllInStep(g, ts) && 0 < k < g.threads
    requires NearTarget(g, k, ts[k], row) && InSection(g, k - 1, row)
    ensures Ready(g, ts, k, k - 1, row)
  {
    assert ThreadOk(g, k, ts[k]) && ThreadOk(g, k - 1, ts[k - 1]) && InStep(ts[k - 1], ts[k - 1 + 1]);
    if Shared(g, k - 1, row) {
      ReadyPrevShared(g, k, ts[k - 1], ts[k], row);
    } else {
      ReadyPrevOwn(g, k, ts[k - 1], ts[k], row);
    }
  }

  /** The first row of the section after, as thread k's last rows see it. */
  lemma ReadyNextOwn(g: Grid, k: int, t: Thread, next: Thread, row: int)
    requires ValidGrid(g) && 0 <= k < g.threads - 1 && ThreadOk(g, k, t) && ThreadOk(g, k + 1, next)
    requires NearTarget(g, k, t, row) && InSection(g, k + 1, row) && InStep(t, next)
    ensures !Shared(g, k + 1, row) && t.done <= next.done <= t.done + 1
    ensures ReadyCount(ActionAt(g, k, t.pc), row,
                       OwnCount(g, k + 1, next.pc, row) + (if next.done == t.done then 0 else g.batch))
  {
    Geometry(g, k);
    Geometry(g, k + 1);
    assert row == Start(g, k + 1) && t.pc.Final?;
  }

  lemma ReadyNext(g: Grid, ts: seq<Thread>, k: int, row: int)
    requires ValidGrid(g) && AllInStep(g, ts) && 0 <= k < g.threads - 1
    requires NearTarget(g, k, ts[k], row) && InSection(g, k + 1, row)
    ensures Ready(g, ts, k, k + 1, row)
  {
    assert ThreadOk(g, k, ts[k]) && ThreadOk(g, k + 1, ts[k + 1]) && InStep(ts[k], ts[k + 1]);
    ReadyNextOwn(g, k, ts[k], ts[k + 1], row);
  }
}
