/** The hand-over-hand locked list: counters walk the list while swappers exchange neighbours.

    The storage and the nodes are treated alike: each is a cell with a lock and a link, the link
    being storage->first or node->next. Both thread routines then start at the storage cell, and
    their storage part and their loop over nodes are the same steps. Every step below is one lock
    operation, one read of a link, one write of a link, or one comparison.
 */
module LockedList {
  import opened Options

  /** The storage, or a node by its identity. */
  datatype Cell = Storage | Node(id: nat)

  /** A lock held by one writer or by any number of readers. */
  datatype Lock = Lock(writer: Option<int>, readers: set<int>)

  datatype Pc =
    // counter
    | CounterStart                                        // about to read_lock(storage)
    | CounterRead(cur: Cell)                              // about to read cur's link
    | CounterTest(cur: Cell, seen: Option<Cell>)          // loop test and comparison
    | CounterLock(cur: Cell, next: Cell)                  // about to rlock next
    | CounterUnlock(cur: Cell, next: Cell)                // about to unlock cur and move on
    | CounterEnd(cur: Cell)                               // about to unlock the last cell
    // swapper
    | SwapperStart                                        // about to write_lock(storage)
    | SwapperRead(cur: Cell)                              // about to read cur's link
    | SwapperLock(cur: Cell, next: Cell)                  // about to wlock next
    | SwapperReadNext(cur: Cell, next: Cell)              // about to read next's link
    | SwapperLockNext(cur: Cell, next: Cell, nextNext: Cell)  // about to wlock nextNext
    | SwapperToss(cur: Cell, next: Cell, nextNext: Cell)      // need_to_swap; link of cur := nextNext
    | SwapperRelink(cur: Cell, next: Cell, nextNext: Cell)    // link of next := link of nextNext
    | SwapperClose(cur: Cell, next: Cell, nextNext: Cell)     // link of nextNext := next
    | SwapperUnlock(cur: Cell, next: Cell, nextNext: Cell, swapped: bool)  // about to unlock nextNext
    | SwapperMove(cur: Cell, next: Cell, swapped: bool)   // about to unlock cur and move on
    | SwapperAbandon(cur: Cell, next: Cell)               // nextNext is NULL: about to unlock next
    | SwapperEnd(cur: Cell)                               // about to unlock the last cell

  /** A thread, with auxiliary records: where its cell stands in the list, and which nodes the
      current pass of a counter has visited and how many comparisons it has made. */
  datatype Thread = Thread(pc: Pc, at: nat, visited: seq<Cell>, compared: nat)

  /** `shared` tells a readers-writer lock from the mutex and the spinlock, which admit one reader.
      The list itself lives in the links; `chain` records it, storage first, and changes when the
      last link of a swap is written. */
  datatype State = State(shared: bool, link: map<Cell, Option<Cell>>, locks: map<Cell, Lock>,
                         threads: seq<Thread>, chain: seq<Cell>)

  predicate IsCounter(pc: Pc) {
    pc.CounterStart? || pc.CounterRead? || pc.CounterTest? || pc.CounterLock? || pc.CounterUnlock? || pc.CounterEnd?
  }

  /** The cells whose locks a thread holds, by its program counter. */
  function Held(pc: Pc): set<Cell> {
    match pc
    case CounterStart => {}
    case CounterRead(cur) => {cur}
    case CounterTest(cur, _) => {cur}
    case CounterLock(cur, _) => {cur}
    case CounterUnlock(cur, next) => {cur, next}
    case CounterEnd(cur) => {cur}
    case SwapperStart => {}
    case SwapperRead(cur) => {cur}
    case SwapperLock(cur, _) => {cur}
    case SwapperReadNext(cur, next) => {cur, next}
    case SwapperLockNext(cur, next, _) => {cur, next}
    case SwapperToss(cur, next, nextNext) => {cur, next, nextNext}
    case SwapperRelink(cur, next, nextNext) => {cur, next, nextNext}
    case SwapperClose(cur, next, nextNext) => {cur, next, nextNext}
    case SwapperUnlock(cur, next, nextNext, _) => {cur, next, nextNext}
    case SwapperMove(cur, next, _) => {cur, next}
    case SwapperAbandon(cur, next) => {cur, next}
    case SwapperEnd(cur) => {cur}
  }

  /** The lock a thread is about to take, if any. */
  function Wanted(pc: Pc): Option<Cell> {
    match pc
    case CounterStart => Some(Storage)
    case CounterLock(_, next) => Some(next)
    case SwapperStart => Some(Storage)
    case SwapperLock(_, next) => Some(next)
    case SwapperLockNext(_, _, nextNext) => Some(nextNext)
    case _ => None
  }

  /** The lock a thread is about to release, if any. */
  function Released(pc: Pc): Option<Cell> {
    match pc
    case CounterUnlock(cur, _) => Some(cur)
    case CounterEnd(cur) => Some(cur)
    case SwapperUnlock(_, _, nextNext, _) => Some(nextNext)
    case SwapperMove(cur, _, _) => Some(cur)
    case SwapperAbandon(_, next) => Some(next)
    case SwapperEnd(cur) => Some(cur)
    case _ => None
  }

  predicate Grants(shared: bool, l: Lock, read: bool) {
    l.writer == None && (l.readers == {} || (read && shared))
  }

  function Acquire(l: Lock, t: int, read: bool): Lock {
    if read then l.(readers := l.readers + {t}) else l.(writer := Some(t))
  }

  function Release(l: Lock, t: int): Lock {
    if l.writer == Some(t) then l.(writer := None) else l.(readers := l.readers - {t})
  }

  /** The cells that a program counter mentions. */
  function Mentioned(pc: Pc): set<Cell> {
    Held(pc) + (if Wanted(pc).Some? then {Wanted(pc).value} else {})
  }

  predicate WellFormed(s: State) {
    && Storage in s.link
    && s.locks.Keys == s.link.Keys
    && (forall t :: 0 <= t < |s.threads| ==> Mentioned(s.threads[t].pc) <= s.link.Keys)
  }

  predicate CanStep(s: State, t: int)
    requires WellFormed(s)
  {
    && 0 <= t < |s.threads|
    && (Wanted(s.threads[t].pc).Some? ==>
          Grants(s.shared, s.locks[Wanted(s.threads[t].pc).value], IsCounter(s.threads[t].pc)))
  }

  /** The thread after its step; `coin` is the answer of need_to_swap. */
  function ThreadAfter(link: map<Cell, Option<Cell>>, th: Thread, coin: bool): Thread
    requires Mentioned(th.pc) <= link.Keys
  {
    match th.pc
    case CounterStart => Thread(CounterRead(Storage), 0, [], 0)
    case CounterRead(cur) => th.(pc := CounterTest(cur, link[cur]))
    case CounterTest(cur, seen) =>
      if seen == None then th.(pc := CounterEnd(cur))
      else th.(pc := CounterLock(cur, seen.value), compared := th.compared + (if cur == Storage then 0 else 1))
    case CounterLock(cur, next) => th.(pc := CounterUnlock(cur, next))
    case CounterUnlock(cur, next) => th.(pc := CounterRead(next), at := th.at + 1, visited := th.visited + [next])
    case CounterEnd(cur) => th.(pc := CounterStart)
    case SwapperStart => th.(pc := SwapperRead(Storage), at := 0)
    case SwapperRead(cur) =>
      if link[cur] == None then th.(pc := SwapperEnd(cur)) else th.(pc := SwapperLock(cur, link[cur].value))
    case SwapperLock(cur, next) => th.(pc := SwapperReadNext(cur, next))
    case SwapperReadNext(cur, next) =>
      if link[next] == None then th.(pc := SwapperAbandon(cur, next))
      else th.(pc := SwapperLockNext(cur, next, link[next].value))
    case SwapperLockNext(cur, next, nextNext) => th.(pc := SwapperToss(cur, next, nextNext))
    case SwapperToss(cur, next, nextNext) =>
      if coin then th.(pc := SwapperRelink(cur, next, nextNext))
      else th.(pc := SwapperUnlock(cur, next, nextNext, false))
    case SwapperRelink(cur, next, nextNext) => th.(pc := SwapperClose(cur, next, nextNext))
    case SwapperClose(cur, next, nextNext) => th.(pc := SwapperUnlock(cur, next, nextNext, true))
    case SwapperUnlock(cur, next, nextNext, swapped) => th.(pc := SwapperMove(cur, next, swapped))
    case SwapperMove(cur, next, swapped) => th.(pc := SwapperRead(next), at := th.at + (if swapped then 2 else 1))
    case SwapperAbandon(cur, next) => th.(pc := SwapperEnd(cur))
    case SwapperEnd(cur) => th.(pc := SwapperStart)
  }

  function LinkAfter(link: map<Cell, Option<Cell>>, pc: Pc, coin: bool): map<Cell, Option<Cell>>
    requires Mentioned(pc) <= link.Keys
  {
    match pc
    case SwapperToss(cur, next, nextNext) => if coin then link[cur := Some(nextNext)] else link
    case SwapperRelink(cur, next, nextNext) => link[next := link[nextNext]]
    case SwapperClose(cur, next, nextNext) => link[nextNext := Some(next)]
    case _ => link
  }

  function LocksAfter(locks: map<Cell, Lock>, t: int, pc: Pc): map<Cell, Lock>
    requires Mentioned(pc) <= locks.Keys
  {
    if Wanted(pc).Some? then
      locks[Wanted(pc).value := Acquire(locks[Wanted(pc).value], t, IsCounter(pc))]
    else if Released(pc).Some? then
      locks[Released(pc).value := Release(locks[Released(pc).value], t)]
    else locks
  }

  /** The list with the cells at i and i + 1 exchanged. */
  function Exchanged(chain: seq<Cell>, i: nat): seq<Cell>
    requires i + 1 < |chain|
  {
    chain[i := chain[i + 1]][i + 1 := chain[i]]
  }

  function ChainAfter(chain: seq<Cell>, th: Thread): seq<Cell> {
    if th.pc.SwapperClose? && th.at + 2 < |chain| then Exchanged(chain, th.at + 1) else chain
  }

  function Next(s: State, t: int, coin: bool): State
    requires WellFormed(s) && CanStep(s, t)
  {
    var th := s.threads[t];
    State(s.shared,
          LinkAfter(s.link, th.pc, coin),
          LocksAfter(s.locks, t, th.pc),
          s.threads[t := ThreadAfter(s.link, th, coin)],
          ChainAfter(s.chain, th))
  }

  /** A schedule names the thread of each step and the coin it would toss. */
  ghost predicate Leads(s: State, schedule: seq<(int, bool)>, s': State)
    decreases |schedule|
  {
    if schedule == [] then s == s'
    else
      && WellFormed(s) && CanStep(s, schedule[0].0)
      && Leads(Next(s, schedule[0].0, schedule[0].1), schedule[1..], s')
  }

  // ---------- Lists in memory ----------

  predicate Distinct(cells: seq<Cell>) {
    forall i, j :: 0 <= i < j < |cells| ==> cells[i] != cells[j]
  }

  function Successor(chain: seq<Cell>, i: int): Option<Cell>
    requires 0 <= i < |chain|
  {
    if i + 1 < |chain| then Some(chain[i + 1]) else None
  }

  /** Following the links from the storage visits exactly the given cells. */
  predicate IsList(link: map<Cell, Option<Cell>>, cells: seq<Cell>) {
    && |cells| > 0 && cells[0] == Storage
    && (forall i :: 0 <= i < |cells| ==> cells[i] in link && link[cells[i]] == Successor(cells, i))
  }

  /** A list of distinct nodes with free locks, and threads at the start of their routines. */
  predicate IsInitial(s: State) {
    && IsList(s.link, s.chain)
    && Distinct(s.chain)
    && s.link.Keys == (set c | c in s.chain)
    && s.locks.Keys == s.link.Keys
    && (forall c :: c in s.locks ==> s.locks[c] == Lock(None, {}))
    && (forall t :: 0 <= t < |s.threads| ==> s.threads[t].pc == CounterStart || s.threads[t].pc == SwapperStart)
  }
}
