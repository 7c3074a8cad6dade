/** Whole-run results about the locked list, for any number of counters and swappers: the list stays
    a permutation, every counter pass is exact, no data race and no deadlock.
 */
module LockedListCorrectness {
  import opened LockedList
  import opened Options

  ghost predicate At(chain: seq<Cell>, i: int, c: Cell) {
    0 <= i < |chain| && chain[i] == c
  }

  /** The local variables of a thread against the list: its cells are neighbours in it. */
  ghost predicate PcOk(chain: seq<Cell>, link: map<Cell, Option<Cell>>, th: Thread) {
    match th.pc
    case CounterStart => true
    case CounterRead(cur) => At(chain, th.at, cur)
    case CounterTest(cur, seen) => At(chain, th.at, cur) && seen == Successor(chain, th.at)
    case CounterLock(cur, next) => At(chain, th.at, cur) && At(chain, th.at + 1, next)
    case CounterUnlock(cur, next) => At(chain, th.at, cur) && At(chain, th.at + 1, next)
    case CounterEnd(cur) => At(chain, th.at, cur) && th.at == |chain| - 1
    case SwapperStart => true
    case SwapperRead(cur) => At(chain, th.at, cur)
    case SwapperLock(cur, next) => At(chain, th.at, cur) && At(chain, th.at + 1, next)
    case SwapperReadNext(cur, next) => At(chain, th.at, cur) && At(chain, th.at + 1, next)
    case SwapperLockNext(cur, next, nextNext) => ThreeAt(chain, th.at, cur, next, nextNext)
    case SwapperToss(cur, next, nextNext) => ThreeAt(chain, th.at, cur, next, nextNext)
    case SwapperRelink(cur, next, nextNext) =>
      ThreeAt(chain, th.at, cur, next, nextNext) && cur in link && link[cur] == Some(nextNext)
    case SwapperClose(cur, next, nextNext) =>
      && ThreeAt(chain, th.at, cur, next, nextNext)
      && cur in link && link[cur] == Some(nextNext)
      && next in link && link[next] == Successor(chain, th.at + 2)
    case SwapperUnlock(cur, next, nextNext, swapped) =>
      if swapped then ThreeAt(chain, th.at, cur, nextNext, next) else ThreeAt(chain, th.at, cur, next, nextNext)
    case SwapperMove(cur, next, swapped) =>
      At(chain, th.at, cur) && At(chain, th.at + (if swapped then 2 else 1), next)
    case SwapperAbandon(cur, next) =>
      At(chain, th.at, cur) && At(chain, th.at + 1, next) && th.at + 2 == |chain|
    case SwapperEnd(cur) => At(chain, th.at, cur) && |chain| <= th.at + 2
  }

  ghost predicate ThreeAt(chain: seq<Cell>, i: int, a: Cell, b: Cell, c: Cell) {
    At(chain, i, a) && At(chain, i + 1, b) && At(chain, i + 2, c)
  }

  ghost function Elements(cells: seq<Cell>): set<Cell> {
    set c | c in cells
  }

  /** The nodes of the list up to a position; the storage at position 0 is not one. */
  ghost function NodesUpTo(chain: seq<Cell>, at: int): set<Cell>
    requires 0 <= at < |chain|
  {
    set i | 1 <= i <= at :: chain[i]
  }

  /** What a counter has visited since the start of its pass: the nodes up to its own, each once,
      with a comparison for every node it has left or is about to leave. */
  ghost predicate VisitedOk(chain: seq<Cell>, th: Thread) {
    IsCounter(th.pc) && !th.pc.CounterStart? ==>
      && |th.visited| == th.at < |chain|
      && Distinct(th.visited)
      && Elements(th.visited) == NodesUpTo(chain, th.at)
      && th.compared == if th.pc.CounterLock? || th.pc.CounterUnlock? || th.at == 0 then th.at else th.at - 1
  }

  /** The lock table says who holds what. */
  ghost predicate LockOk(threads: seq<Thread>, c: Cell, l: Lock) {
    && (forall t :: t in l.readers <==> 0 <= t < |threads| && IsCounter(threads[t].pc) && c in Held(threads[t].pc))
    && (forall t :: l.writer == Some(t) <==> 0 <= t < |threads| && !IsCounter(threads[t].pc) && c in Held(threads[t].pc))
    && (l.writer.Some? ==> l.readers == {})
  }

  /** A swapper is between its first and its last write, and the link at position i is not
      the one the list is to have. */
  ghost predicate Dirty(th: Thread, i: int) {
    || (th.pc.SwapperRelink? && i == th.at)
    || (th.pc.SwapperClose? && (i == th.at || i == th.at + 1))
  }

  ghost predicate LinkOk(s: State, i: int)
    requires 0 <= i < |s.chain|
  {
    (forall t :: 0 <= t < |s.threads| ==> !Dirty(s.threads[t], i)) ==>
      s.chain[i] in s.link && s.link[s.chain[i]] == Successor(s.chain, i)
  }

  ghost predicate ChainOk(s: State) {
    && |s.chain| > 0 && s.chain[0] == Storage
    && Distinct(s.chain)
    && (forall c :: c in s.link <==> c in s.chain)
    && s.locks.Keys == s.link.Keys
  }

  ghost predicate Inv(s: State) {
    && ChainOk(s)
    && (forall t :: 0 <= t < |s.threads| ==> PcOk(s.chain, s.link, s.threads[t]))
    && (forall t :: 0 <= t < |s.threads| ==> VisitedOk(s.chain, s.threads[t]))
    && (forall c :: c in s.locks ==> LockOk(s.threads, c, s.locks[c]))
    && (forall i :: 0 <= i < |s.chain| ==> LinkOk(s, i))
  }

  lemma MentionedInChain(chain: seq<Cell>, link: map<Cell, Option<Cell>>, th: Thread, c: Cell)
    requires |chain| > 0 && chain[0] == Storage && PcOk(chain, link, th) && c in Mentioned(th.pc)
    ensures c in chain
  {
  }

  lemma InvWellFormed(s: State)
    requires Inv(s)
    ensures WellFormed(s)
  {
    assert s.chain[0] in s.link;
    forall t | 0 <= t < |s.threads|
      ensures Mentioned(s.threads[t].pc) <= s.link.Keys
    {
      forall c | c in Mentioned(s.threads[t].pc)
        ensures c in s.link
      {
        MentionedInChain(s.chain, s.link, s.threads[t], c);
      }
    }
  }

  lemma InitialInv(s: State)
    requires IsInitial(s)
    ensures Inv(s)
  {
    assert ChainOk(s);
    forall t | 0 <= t < |s.threads|
      ensures PcOk(s.chain, s.link, s.threads[t]) && VisitedOk(s.chain, s.threads[t])
      ensures Held(s.threads[t].pc) == {}
    {
    }
    forall c | c in s.locks
      ensures LockOk(s.threads, c, s.locks[c])
    {
    }
    forall i | 0 <= i < |s.chain|
      ensures LinkOk(s, i)
    {
    }
  }

  // ---------- Locks ----------

  /** No other thread holds a cell that a swapper holds. */
  lemma HeldByOne(s: State, t: int, u: int, c: Cell)
    requires c in s.locks && LockOk(s.threads, c, s.locks[c])
    requires 0 <= t < |s.threads| && 0 <= u < |s.threads| && t != u
    requires !IsCounter(s.threads[t].pc) && c in Held(s.threads[t].pc)
    ensures c !in Held(s.threads[u].pc)
  {
    assert s.locks[c].writer == Some(t);
  }

  ghost predicate CellsDiffer(pc: Pc) {
    match pc
    case CounterUnlock(cur, next) => cur != next
    case SwapperUnlock(cur, next, nextNext, _) => cur != nextNext && next != nextNext
    case SwapperMove(cur, next, _) => cur != next
    case SwapperAbandon(cur, next) => cur != next
    case _ => true
  }

  lemma DistinctCells(chain: seq<Cell>, link: map<Cell, Option<Cell>>, th: Thread)
    requires Distinct(chain) && PcOk(chain, link, th)
    ensures CellsDiffer(th.pc)
  {
  }

  /** A step takes the lock it wants or releases one, and holds the others on. */
  lemma HeldAfter(link: map<Cell, Option<Cell>>, th: Thread, coin: bool, c: Cell)
    requires Mentioned(th.pc) <= link.Keys && CellsDiffer(th.pc)
    ensures
      var pc' := ThreadAfter(link, th, coin).pc;
      && IsCounter(pc') == IsCounter(th.pc)
      && (c in Held(pc') <==> (c in Held(th.pc) && Released(th.pc) != Some(c)) || Wanted(th.pc) == Some(c))
      && (Released(th.pc) == Some(c) ==> c in Held(th.pc) && Wanted(th.pc) == None)
  {
  }

  lemma LockTaken(shared: bool, threads: seq<Thread>, t: int, th: Thread, c: Cell, l: Lock)
    requires LockOk(threads, c, l) && 0 <= t < |threads| && IsCounter(th.pc) == IsCounter(threads[t].pc)
    requires Grants(shared, l, IsCounter(th.pc)) && c in Held(th.pc)
    ensures LockOk(threads[t := th], c, Acquire(l, t, IsCounter(th.pc)))
  {
  }

  lemma LockGiven(threads: seq<Thread>, t: int, th: Thread, c: Cell, l: Lock)
    requires LockOk(threads, c, l) && 0 <= t < |threads| && IsCounter(th.pc) == IsCounter(threads[t].pc)
    requires c in Held(threads[t].pc) && c !in Held(th.pc)
    ensures LockOk(threads[t := th], c, Release(l, t))
  {
  }

  lemma LockUntouched(threads: seq<Thread>, t: int, th: Thread, c: Cell, l: Lock)
    requires LockOk(threads, c, l) && 0 <= t < |threads| && IsCounter(th.pc) == IsCounter(threads[t].pc)
    requires c in Held(threads[t].pc) <==> c in Held(th.pc)
    ensures LockOk(threads[t := th], c, l)
  {
  }

  lemma LocksKept(s: State, t: int, coin: bool, c: Cell)
    requires WellFormed(s) && CanStep(s, t) && CellsDiffer(s.threads[t].pc)
    requires c in s.locks && LockOk(s.threads, c, s.locks[c])
    ensures c in Next(s, t, coin).locks
    ensures LockOk(Next(s, t, coin).threads, c, Next(s, t, coin).locks[c])
  {
    var pc := s.threads[t].pc;
    var th := ThreadAfter(s.link, s.threads[t], coin);
    HeldAfter(s.link, s.threads[t], coin, c);
    if Wanted(pc) == Some(c) {
      LockTaken(s.shared, s.threads, t, th, c, s.locks[c]);
    } else if Released(pc) == Some(c) {
      LockGiven(s.threads, t, th, c, s.locks[c]);
    } else {
      LockUntouched(s.threads, t, th, c, s.locks[c]);
    }
  }

  // ---------- Links ----------

  /** A dirty link belongs to a cell that its swapper holds. */
  lemma DirtyIsHeld(chain: seq<Cell>, link: map<Cell, Option<Cell>>, th: Thread, i: int)
    requires PcOk(chain, link, th) && Dirty(th, i)
    ensures 0 <= i < |chain| && !IsCounter(th.pc) && chain[i] in Held(th.pc)
  {
  }

  /** A thread that holds a cell and is not in the middle of a swap there reads its true link. */
  lemma ReadLink(s: State, t: int, i: int)
    requires Inv(s) && 0 <= t < |s.threads| && 0 <= i < |s.chain|
    requires s.chain[i] in Held(s.threads[t].pc) && !Dirty(s.threads[t], i)
    ensures s.chain[i] in s.link && s.link[s.chain[i]] == Successor(s.chain, i)
  {
    assert s.chain[i] in s.link;
    forall u | 0 <= u < |s.threads|
      ensures !Dirty(s.threads[u], i)
    {
      if u != t && Dirty(s.threads[u], i) {
        DirtyIsHeld(s.chain, s.link, s.threads[u], i);
        HeldByOne(s, u, t, s.chain[i]);
      }
    }
    assert LinkOk(s, i);
  }

  // ---------- What a step of one thread leaves alone ----------

  lemma LinkWriteElsewhere(chain: seq<Cell>, link: map<Cell, Option<Cell>>, c: Cell, v: Option<Cell>, th: Thread)
    requires PcOk(chain, link, th) && c !in Held(th.pc)
    ensures PcOk(chain, link[c := v], th)
  {
  }

  /** A swap of the cells at i and i + 1 by a thread that holds them and the cell before moves
      nothing that another thread relies on. */
  lemma ExchangeElsewhere(chain: seq<Cell>, link: map<Cell, Option<Cell>>, i: int, th: Thread)
    requires PcOk(chain, link, th) && 1 <= i < |chain| - 1
    requires chain[i - 1] !in Held(th.pc) && chain[i] !in Held(th.pc) && chain[i + 1] !in Held(th.pc)
    ensures PcOk(Exchanged(chain, i), link, th)
  {
  }

  lemma ExchangeKeepsVisited(chain: seq<Cell>, link: map<Cell, Option<Cell>>, i: int, th: Thread)
    requires PcOk(chain, link, th) && VisitedOk(chain, th) && 1 <= i < |chain| - 1
    requires chain[i] !in Held(th.pc) && chain[i + 1] !in Held(th.pc)
    ensures VisitedOk(Exchanged(chain, i), th)
  {
    if IsCounter(th.pc) && !th.pc.CounterStart? {
      ExchangeKeepsPrefix(chain, i, th.at);
    }
  }

  lemma ExchangeKeepsPrefix(chain: seq<Cell>, i: int, at: nat)
    requires 1 <= i < |chain| - 1 && at < |chain| && at != i
    ensures NodesUpTo(Exchanged(chain, i), at) == NodesUpTo(chain, at)
  {
    ExchangeAddsNothing(chain, i, at);
    assert Exchanged(Exchanged(chain, i), i) == chain;
    ExchangeAddsNothing(Exchanged(chain, i), i, at);
  }

  lemma ExchangeAddsNothing(chain: seq<Cell>, i: int, at: nat)
    requires 1 <= i < |chain| - 1 && at < |chain| && at != i
    ensures NodesUpTo(Exchanged(chain, i), at) <= NodesUpTo(chain, at)
  {
    forall c | c in NodesUpTo(Exchanged(chain, i), at)
      ensures c in NodesUpTo(chain, at)
    {
      var j :| 1 <= j <= at && Exchanged(chain, i)[j] == c;
      assert c == chain[if j == i then i + 1 else if j == i + 1 then i else j];
    }
  }

  /** Moving on to the next node visits a new one. */
  lemma VisitNext(chain: seq<Cell>, visited: seq<Cell>, at: nat)
    requires Distinct(chain) && at + 1 < |chain| && Distinct(visited)
    requires Elements(visited) == NodesUpTo(chain, at)
    ensures Distinct(visited + [chain[at + 1]])
    ensures Elements(visited + [chain[at + 1]]) == NodesUpTo(chain, at + 1)
  {
    assert chain[at + 1] !in Elements(visited);
    assert NodesUpTo(chain, at + 1) == NodesUpTo(chain, at) + {chain[at + 1]};
  }

  /** The cells held by a swapper in the middle of a swap, against another thread. */
  lemma SwapIsPrivate(s: State, t: int, u: int)
    requires Inv(s) && 0 <= t < |s.threads| && 0 <= u < |s.threads| && t != u
    requires s.threads[t].pc.SwapperToss? || s.threads[t].pc.SwapperRelink? || s.threads[t].pc.SwapperClose?
    ensures
      var at := s.threads[t].at;
      && at + 2 < |s.chain|
      && s.chain[at] !in Held(s.threads[u].pc)
      && s.chain[at + 1] !in Held(s.threads[u].pc)
      && s.chain[at + 2] !in Held(s.threads[u].pc)
  {
    assert PcOk(s.chain, s.link, s.threads[t]);
    var at := s.threads[t].at;
    HeldByOne(s, t, u, s.chain[at]);
    HeldByOne(s, t, u, s.chain[at + 1]);
    HeldByOne(s, t, u, s.chain[at + 2]);
  }

  ghost predicate InSwap(pc: Pc) {
    pc.SwapperToss? || pc.SwapperRelink? || pc.SwapperClose?
  }

  /** None of the three cells that a swapper works on is held by another thread. */
  ghost predicate Private(chain: seq<Cell>, at: int, other: Thread) {
    && 0 <= at < |chain| - 2
    && chain[at] !in Held(other.pc) && chain[at + 1] !in Held(other.pc) && chain[at + 2] !in Held(other.pc)
  }

  lemma OtherThreadKept(chain: seq<Cell>, link: map<Cell, Option<Cell>>, th: Thread, coin: bool, other: Thread)
    requires PcOk(chain, link, th) && Mentioned(th.pc) <= link.Keys
    requires PcOk(chain, link, other) && VisitedOk(chain, other)
    requires InSwap(th.pc) ==> Private(chain, th.at, other)
    ensures PcOk(ChainAfter(chain, th), LinkAfter(link, th.pc, coin), other)
    ensures VisitedOk(ChainAfter(chain, th), other)
  {
    match th.pc
    case SwapperToss(cur, _, nextNext) =>
      LinkWriteElsewhere(chain, link, cur, Some(nextNext), other);
    case SwapperRelink(_, next, nextNext) =>
      LinkWriteElsewhere(chain, link, next, link[nextNext], other);
    case SwapperClose(_, next, nextNext) =>
      CloseElsewhere(chain, link, nextNext, Some(next), th.at, other);
    case _ =>
  }

  lemma CloseElsewhere(chain: seq<Cell>, link: map<Cell, Option<Cell>>, c: Cell, v: Option<Cell>, at: nat, other: Thread)
    requires PcOk(chain, link, other) && VisitedOk(chain, other) && Private(chain, at, other)
    requires c == chain[at + 2]
    ensures PcOk(Exchanged(chain, at + 1), link[c := v], other)
    ensures VisitedOk(Exchanged(chain, at + 1), other)
  {
    LinkWriteElsewhere(chain, link, c, v, other);
    ExchangeElsewhere(chain, link[c := v], at + 1, other);
    ExchangeKeepsVisited(chain, link, at + 1, other);
  }

  // ---------- What a step does for its own thread ----------

  /** The links a thread reads are the successors in the list. */
  ghost predicate ReadsTrue(chain: seq<Cell>, link: map<Cell, Option<Cell>>, th: Thread) {
    match th.pc
    case CounterRead(cur) => th.at < |chain| && cur in link && link[cur] == Successor(chain, th.at)
    case SwapperRead(cur) => th.at < |chain| && cur in link && link[cur] == Successor(chain, th.at)
    case SwapperReadNext(_, next) => th.at + 1 < |chain| && next in link && link[next] == Successor(chain, th.at + 1)
    case SwapperRelink(_, _, nextNext) =>
      th.at + 2 < |chain| && nextNext in link && link[nextNext] == Successor(chain, th.at + 2)
    case _ => true
  }

  lemma OwnCounterKept(chain: seq<Cell>, link: map<Cell, Option<Cell>>, th: Thread, coin: bool)
    requires Mentioned(th.pc) <= link.Keys && IsCounter(th.pc)
    requires |chain| > 0 && chain[0] == Storage && Distinct(chain)
    requires PcOk(chain, link, th) && VisitedOk(chain, th) && ReadsTrue(chain, link, th)
    ensures PcOk(chain, link, ThreadAfter(link, th, coin))
    ensures VisitedOk(chain, ThreadAfter(link, th, coin))
  {
    if th.pc.CounterUnlock? {
      VisitNext(chain, th.visited, th.at);
    }
  }

  lemma OwnSwapperKept(chain: seq<Cell>, link: map<Cell, Option<Cell>>, th: Thread, coin: bool)
    requires Mentioned(th.pc) <= link.Keys && !IsCounter(th.pc) && !InSwap(th.pc)
    requires |chain| > 0 && chain[0] == Storage
    requires PcOk(chain, link, th) && ReadsTrue(chain, link, th)
    ensures PcOk(chain, link, ThreadAfter(link, th, coin))
  {
  }

  lemma OwnSwapKept(chain: seq<Cell>, link: map<Cell, Option<Cell>>, th: Thread, coin: bool)
    requires Mentioned(th.pc) <= link.Keys && InSwap(th.pc) && Distinct(chain)
    requires PcOk(chain, link, th) && ReadsTrue(chain, link, th)
    ensures PcOk(ChainAfter(chain, th), LinkAfter(link, th.pc, coin), ThreadAfter(link, th, coin))
  {
  }

  lemma OwnThreadKept(chain: seq<Cell>, link: map<Cell, Option<Cell>>, th: Thread, coin: bool)
    requires Mentioned(th.pc) <= link.Keys
    requires |chain| > 0 && chain[0] == Storage && Distinct(chain)
    requires PcOk(chain, link, th) && VisitedOk(chain, th) && ReadsTrue(chain, link, th)
    ensures PcOk(ChainAfter(chain, th), LinkAfter(link, th.pc, coin), ThreadAfter(link, th, coin))
    ensures VisitedOk(ChainAfter(chain, th), ThreadAfter(link, th, coin))
  {
    if IsCounter(th.pc) {
      OwnCounterKept(chain, link, th, coin);
    } else if InSwap(th.pc) {
      OwnSwapKept(chain, link, th, coin);
    } else {
      OwnSwapperKept(chain, link, th, coin);
    }
  }

  // ---------- What a step does for the links ----------

  lemma LinkKeptOutsideSwap(s: State, t: int, coin: bool, i: int)
    requires WellFormed(s) && CanStep(s, t) && !InSwap(s.threads[t].pc)
    requires 0 <= i < |s.chain| && LinkOk(s, i)
    ensures LinkOk(Next(s, t, coin), i)
  {
    assert !Dirty(s.threads[t], i);
    OthersNotDirty(s, t, coin, i);
  }

  /** If nobody is dirty somewhere after a step then only its own thread can have been before. */
  lemma OthersNotDirty(s: State, t: int, coin: bool, i: int)
    requires WellFormed(s) && CanStep(s, t)
    requires !Dirty(s.threads[t], i)
    ensures (forall u :: 0 <= u < |s.threads| ==> !Dirty(Next(s, t, coin).threads[u], i)) ==>
            (forall u :: 0 <= u < |s.threads| ==> !Dirty(s.threads[u], i))
  {
    var threads' := Next(s, t, coin).threads;
    if forall u :: 0 <= u < |s.threads| ==> !Dirty(threads'[u], i) {
      forall u | 0 <= u < |s.threads|
        ensures !Dirty(s.threads[u], i)
      {
        assert u != t ==> threads'[u] == s.threads[u];
      }
    }
  }

  /** The first two writes of a swap leave their own position dirty and touch no other link. */
  lemma LinkKeptInSwap(s: State, t: int, coin: bool, i: int)
    requires WellFormed(s) && CanStep(s, t) && (s.threads[t].pc.SwapperToss? || s.threads[t].pc.SwapperRelink?)
    requires PcOk(s.chain, s.link, s.threads[t]) && Distinct(s.chain)
    requires 0 <= i < |s.chain| && LinkOk(s, i)
    ensures LinkOk(Next(s, t, coin), i)
  {
    var s' := Next(s, t, coin);
    if Dirty(s'.threads[t], i) {
    } else {
      OthersNotDirty(s, t, coin, i);
    }
  }

  /** The last write completes the exchange: all links agree with the new list again. */
  lemma LinkKeptAtClose(s: State, t: int, coin: bool, i: int)
    requires WellFormed(s) && CanStep(s, t) && s.threads[t].pc.SwapperClose?
    requires PcOk(s.chain, s.link, s.threads[t]) && Distinct(s.chain)
    requires 0 <= i < |s.chain| && LinkOk(s, i)
    ensures |Next(s, t, coin).chain| == |s.chain| && LinkOk(Next(s, t, coin), i)
  {
    if i == s.threads[t].at || i == s.threads[t].at + 1 || i == s.threads[t].at + 2 {
    } else {
      OthersNotDirty(s, t, coin, i);
    }
  }

  // ---------- The invariant over whole runs ----------

  lemma ThreadReadsTrue(s: State, t: int)
    requires Inv(s) && 0 <= t < |s.threads|
    ensures ReadsTrue(s.chain, s.link, s.threads[t])
  {
    var th := s.threads[t];
    assert PcOk(s.chain, s.link, th);
    match th.pc
    case CounterRead(_) => ReadLink(s, t, th.at);
    case SwapperRead(_) => ReadLink(s, t, th.at);
    case SwapperReadNext(_, _) => ReadLink(s, t, th.at + 1);
    case SwapperRelink(_, _, _) => ReadLink(s, t, th.at + 2);
    case _ =>
  }

  lemma ChainKept(s: State, t: int, coin: bool)
    requires ChainOk(s) && WellFormed(s) && CanStep(s, t) && PcOk(s.chain, s.link, s.threads[t])
    ensures ChainOk(Next(s, t, coin))
    ensures |Next(s, t, coin).chain| == |s.chain|
    ensures multiset(Next(s, t, coin).chain) == multiset(s.chain)
  {
    ChainAfterKept(s.chain, s.link, s.threads[t]);
    LinkKeysKept(s.link, s.threads[t].pc, coin);
    LockKeysKept(s.locks, t, s.threads[t].pc);
  }

  lemma ChainAfterKept(chain: seq<Cell>, link: map<Cell, Option<Cell>>, th: Thread)
    requires |chain| > 0 && chain[0] == Storage && Distinct(chain) && PcOk(chain, link, th)
    ensures |ChainAfter(chain, th)| == |chain| && ChainAfter(chain, th)[0] == Storage
    ensures Distinct(ChainAfter(chain, th))
    ensures forall c :: c in ChainAfter(chain, th) <==> c in chain
    ensures multiset(ChainAfter(chain, th)) == multiset(chain)
  {
    if th.pc.SwapperClose? {
      ExchangeIsPermutation(chain, th.at + 1);
      ExchangeIsDistinct(chain, th.at + 1);
    }
  }

  lemma LockKeysKept(locks: map<Cell, Lock>, t: int, pc: Pc)
    requires Mentioned(pc) <= locks.Keys
    ensures LocksAfter(locks, t, pc).Keys == locks.Keys
  {
  }

  lemma LinkKeysKept(link: map<Cell, Option<Cell>>, pc: Pc, coin: bool)
    requires Mentioned(pc) <= link.Keys
    ensures LinkAfter(link, pc, coin).Keys == link.Keys
  {
  }

  lemma ExchangeIsPermutation(chain: seq<Cell>, i: nat)
    requires i + 1 < |chain|
    ensures multiset(Exchanged(chain, i)) == multiset(chain)
  {
    var once := chain[i := chain[i + 1]];
    assert multiset(once) == multiset(chain) - multiset{chain[i]} + multiset{chain[i + 1]};
    assert Exchanged(chain, i) == once[i + 1 := chain[i]];
  }

  lemma ExchangeIsDistinct(chain: seq<Cell>, i: nat)
    requires i + 1 < |chain| && Distinct(chain)
    ensures Distinct(Exchanged(chain, i))
    ensures forall c :: c in Exchanged(chain, i) <==> c in chain
  {
    forall c
      ensures c in Exchanged(chain, i) <==> c in chain
    {
      assert Exchanged(chain, i)[i] == chain[i + 1] && Exchanged(chain, i)[i + 1] == chain[i];
      if c in chain {
        var j :| 0 <= j < |chain| && chain[j] == c;
        assert Exchanged(chain, i)[if j == i then i + 1 else if j == i + 1 then i else j] == c;
      }
    }
  }

  lemma SteppingThreadKept(s: State, t: int, coin: bool)
    requires Inv(s) && WellFormed(s) && CanStep(s, t)
    ensures PcOk(Next(s, t, coin).chain, Next(s, t, coin).link, Next(s, t, coin).threads[t])
    ensures VisitedOk(Next(s, t, coin).chain, Next(s, t, coin).threads[t])
  {
    assert PcOk(s.chain, s.link, s.threads[t]) && VisitedOk(s.chain, s.threads[t]);
    ThreadReadsTrue(s, t);
    OwnThreadKept(s.chain, s.link, s.threads[t], coin);
  }

  lemma WaitingThreadKept(s: State, t: int, coin: bool, u: int)
    requires Inv(s) && WellFormed(s) && CanStep(s, t) && 0 <= u < |s.threads| && u != t
    ensures PcOk(Next(s, t, coin).chain, Next(s, t, coin).link, Next(s, t, coin).threads[u])
    ensures VisitedOk(Next(s, t, coin).chain, Next(s, t, coin).threads[u])
  {
    assert PcOk(s.chain, s.link, s.threads[t]) && PcOk(s.chain, s.link, s.threads[u]);
    assert VisitedOk(s.chain, s.threads[u]);
    if InSwap(s.threads[t].pc) {
      SwapIsPrivate(s, t, u);
    }
    OtherThreadKept(s.chain, s.link, s.threads[t], coin, s.threads[u]);
  }

  lemma LinksKept(s: State, t: int, coin: bool, i: int)
    requires WellFormed(s) && CanStep(s, t) && Distinct(s.chain) && PcOk(s.chain, s.link, s.threads[t])
    requires 0 <= i < |s.chain| == |Next(s, t, coin).chain| && LinkOk(s, i)
    ensures LinkOk(Next(s, t, coin), i)
  {
    if !InSwap(s.threads[t].pc) {
      LinkKeptOutsideSwap(s, t, coin, i);
    } else if s.threads[t].pc.SwapperClose? {
      LinkKeptAtClose(s, t, coin, i);
    } else {
      LinkKeptInSwap(s, t, coin, i);
    }
  }

  lemma NextInv(s: State, t: int, coin: bool)
    requires Inv(s) && WellFormed(s) && CanStep(s, t)
    ensures Inv(Next(s, t, coin))
    ensures multiset(Next(s, t, coin).chain) == multiset(s.chain)
  {
    var s' := Next(s, t, coin);
    assert PcOk(s.chain, s.link, s.threads[t]);
    ChainKept(s, t, coin);
    forall u | 0 <= u < |s'.threads|
      ensures PcOk(s'.chain, s'.link, s'.threads[u]) && VisitedOk(s'.chain, s'.threads[u])
    {
      if u == t {
        SteppingThreadKept(s, t, coin);
      } else {
        WaitingThreadKept(s, t, coin, u);
      }
    }
    DistinctCells(s.chain, s.link, s.threads[t]);
    forall c | c in s'.locks
      ensures LockOk(s'.threads, c, s'.locks[c])
    {
      LocksKept(s, t, coin, c);
    }
    forall i | 0 <= i < |s'.chain|
      ensures LinkOk(s', i)
    {
      LinksKept(s, t, coin, i);
    }
  }

  lemma {:induction false} RunInv(s: State, schedule: seq<(int, bool)>, s': State)
    requires Inv(s) && Leads(s, schedule, s')
    ensures Inv(s') && WellFormed(s')
    ensures multiset(s'.chain) == multiset(s.chain)
    ensures |s'.threads| == |s.threads|
    decreases |schedule|
  {
    InvWellFormed(s);
    if schedule != [] {
      NextInv(s, schedule[0].0, schedule[0].1);
      RunInv(Next(s, schedule[0].0, schedule[0].1), schedule[1..], s');
    }
  }

  lemma Reachable(init: State, schedule: seq<(int, bool)>, s: State)
    requires IsInitial(init) && Leads(init, schedule, s)
    ensures Inv(s) && WellFormed(s)
    ensures multiset(s.chain) == multiset(init.chain)
    ensures |s.threads| == |init.threads|
  {
    InitialInv(init);
    RunInv(init, schedule, s);
  }

  // ---------- The results ----------

  /** In every reachable state in which no swapper is between its writes, following the links from
      the storage gives a permutation of the original list. */
  lemma ListIsPermutation(init: State, schedule: seq<(int, bool)>, s: State)
    requires IsInitial(init) && Leads(init, schedule, s)
    requires forall t :: 0 <= t < |s.threads| ==> !s.threads[t].pc.SwapperRelink? && !s.threads[t].pc.SwapperClose?
    ensures IsList(s.link, s.chain) && multiset(s.chain) == multiset(init.chain)
  {
    Reachable(init, schedule, s);
    CleanLinks(s);
  }

  lemma CleanLinks(s: State)
    requires ChainOk(s) && forall i :: 0 <= i < |s.chain| ==> LinkOk(s, i)
    requires forall t :: 0 <= t < |s.threads| ==> !s.threads[t].pc.SwapperRelink? && !s.threads[t].pc.SwapperClose?
    ensures IsList(s.link, s.chain)
  {
    forall i | 0 <= i < |s.chain|
      ensures s.chain[i] in s.link && s.link[s.chain[i]] == Successor(s.chain, i)
    {
      assert LinkOk(s, i);
    }
  }

  /** The links determine the list. */
  lemma {:induction false} ListIsUnique(link: map<Cell, Option<Cell>>, a: seq<Cell>, b: seq<Cell>, i: nat)
    requires IsList(link, a) && IsList(link, b)
    ensures i < |a| ==> i < |b| && a[i] == b[i]
    decreases i
  {
    if 0 < i < |a| {
      ListIsUnique(link, a, b, i - 1);
      assert link[a[i - 1]] == Some(a[i]);
    }
  }

  lemma {:induction false} DistinctMultiset(cells: seq<Cell>, c: Cell)
    requires Distinct(cells)
    ensures multiset(cells)[c] == if c in cells then 1 else 0
  {
    if cells != [] {
      var last := |cells| - 1;
      assert cells == cells[..last] + [cells[last]];
      DistinctMultiset(cells[..last], c);
    }
  }

  /** A counter that is about to leave the last cell of a pass over a non-empty list has visited
      every node exactly once and has compared each node but the last with its successor. */
  lemma CounterPassIsExact(init: State, schedule: seq<(int, bool)>, s: State, t: int)
    requires IsInitial(init) && Leads(init, schedule, s)
    requires 0 <= t < |s.threads| && s.threads[t].pc.CounterEnd? && |init.chain| > 1
    ensures multiset(s.threads[t].visited) == multiset(init.chain[1..])
    ensures s.threads[t].compared == |init.chain[1..]| - 1
  {
    Reachable(init, schedule, s);
    VisitedAtEnd(s, t);
    RestOfList(init.chain, s.chain);
  }

  lemma RestOfList(before: seq<Cell>, after: seq<Cell>)
    requires |before| > 0 && before[0] == Storage && multiset(after) == multiset(before)
    ensures |after| == |before|
    ensures multiset(after) - multiset{Storage} == multiset(before[1..])
  {
    assert |after| == |multiset(after)|;
    assert before == [Storage] + before[1..];
  }

  lemma VisitedAtEnd(s: State, t: int)
    requires Inv(s) && 0 <= t < |s.threads| && s.threads[t].pc.CounterEnd?
    ensures multiset(s.threads[t].visited) == multiset(s.chain) - multiset{Storage}
    ensures |s.chain| > 1 ==> s.threads[t].compared == |s.chain| - 2
  {
    assert PcOk(s.chain, s.link, s.threads[t]) && VisitedOk(s.chain, s.threads[t]);
    VisitedAll(s.chain, s.threads[t]);
  }

  lemma VisitedAll(chain: seq<Cell>, th: Thread)
    requires |chain| > 0 && chain[0] == Storage && Distinct(chain)
    requires th.pc.CounterEnd? && th.at == |chain| - 1 && VisitedOk(chain, th)
    ensures multiset(th.visited) == multiset(chain) - multiset{Storage}
  {
    forall c
      ensures multiset(th.visited)[c] == (multiset(chain) - multiset{Storage})[c]
    {
      DistinctMultiset(th.visited, c);
      DistinctMultiset(chain, c);
      assert c in th.visited <==> c in Elements(th.visited);
      assert c in NodesUpTo(chain, th.at) <==> c in chain && c != Storage;
    }
  }

  /** What a counter compares is a node and its successor at that moment. */
  lemma ComparesNeighbours(init: State, schedule: seq<(int, bool)>, s: State, t: int)
    requires IsInitial(init) && Leads(init, schedule, s)
    requires 0 <= t < |s.threads| && s.threads[t].pc.CounterTest?
    ensures s.threads[t].pc.cur in s.link && s.link[s.threads[t].pc.cur] == s.threads[t].pc.seen
  {
    Reachable(init, schedule, s);
    SeenIsLink(s, t);
  }

  lemma SeenIsLink(s: State, t: int)
    requires Inv(s) && 0 <= t < |s.threads| && s.threads[t].pc.CounterTest?
    ensures s.threads[t].pc.cur in s.link && s.link[s.threads[t].pc.cur] == s.threads[t].pc.seen
  {
    assert PcOk(s.chain, s.link, s.threads[t]);
    ReadLink(s, t, s.threads[t].at);
  }

  // ---------- Deadlock ----------

  /** The place of the lock that a thread waits for in the order of the current list. */
  ghost function WantedAt(th: Thread): int {
    match th.pc
    case CounterLock(_, _) => th.at + 1
    case SwapperLock(_, _) => th.at + 1
    case SwapperLockNext(_, _, _) => th.at + 2
    case _ => 0
  }

  lemma WaitsForward(chain: seq<Cell>, link: map<Cell, Option<Cell>>, th: Thread, i: int)
    requires PcOk(chain, link, th) && Distinct(chain) && |chain| > 0 && chain[0] == Storage
    requires Wanted(th.pc).Some? && 0 <= i < |chain| && chain[i] in Held(th.pc)
    ensures i < WantedAt(th) < |chain| && chain[WantedAt(th)] == Wanted(th.pc).value
  {
  }

  /** In every reachable state a thread that waits for a lock waits for one that comes later in the
      current list than every lock it holds. */
  lemma LockOrder(init: State, schedule: seq<(int, bool)>, s: State, t: int, i: int)
    requires IsInitial(init) && Leads(init, schedule, s)
    requires 0 <= t < |s.threads| && Wanted(s.threads[t].pc).Some?
    requires 0 <= i < |s.chain| && s.chain[i] in Held(s.threads[t].pc)
    ensures exists j :: i < j < |s.chain| && s.chain[j] == Wanted(s.threads[t].pc).value
  {
    Reachable(init, schedule, s);
    assert ChainOk(s) && PcOk(s.chain, s.link, s.threads[t]);
    WaitsForward(s.chain, s.link, s.threads[t], i);
  }

  lemma WantedIsAt(chain: seq<Cell>, link: map<Cell, Option<Cell>>, th: Thread)
    requires PcOk(chain, link, th) && |chain| > 0 && chain[0] == Storage && Wanted(th.pc).Some?
    ensures 0 <= WantedAt(th) < |chain| && chain[WantedAt(th)] == Wanted(th.pc).value
  {
  }

  /** A lock that is not granted has a holder. */
  lemma Holder(s: State, t: int) returns (u: int)
    requires WellFormed(s) && 0 <= t < |s.threads| && !CanStep(s, t)
    requires forall c :: c in s.locks ==> LockOk(s.threads, c, s.locks[c])
    ensures 0 <= u < |s.threads| && Wanted(s.threads[t].pc).value in Held(s.threads[u].pc)
  {
    var c := Wanted(s.threads[t].pc).value;
    assert LockOk(s.threads, c, s.locks[c]);
    if s.locks[c].writer.Some? {
      u := s.locks[c].writer.value;
    } else {
      var readers := s.locks[c].readers;
      assert (forall r :: r !in readers) ==> readers == {};
      var reader :| reader in readers;
      u := reader;
    }
  }

  /** From a blocked thread, the chain of lock holders climbs the list and ends at one that can step. */
  lemma {:induction false} SomeoneCanStep(s: State, t: int) returns (u: int)
    requires Inv(s) && WellFormed(s) && 0 <= t < |s.threads|
    ensures CanStep(s, u)
    decreases |s.chain| - WantedAt(s.threads[t])
  {
    if CanStep(s, t) {
      u := t;
    } else {
      var h := Holder(s, t);
      assert PcOk(s.chain, s.link, s.threads[t]) && PcOk(s.chain, s.link, s.threads[h]);
      WantedIsAt(s.chain, s.link, s.threads[t]);
      if CanStep(s, h) {
        u := h;
      } else {
        WaitsForward(s.chain, s.link, s.threads[h], WantedAt(s.threads[t]));
        u := SomeoneCanStep(s, h);
      }
    }
  }

  /** In every reachable state some thread can take its next step, whatever kind of lock is used. */
  lemma NoDeadlock(init: State, schedule: seq<(int, bool)>, s: State)
    requires IsInitial(init) && Leads(init, schedule, s) && |init.threads| > 0
    ensures WellFormed(s) && exists t :: CanStep(s, t)
  {
    Reachable(init, schedule, s);
    var t := SomeoneCanStep(s, 0);
  }

  // ---------- Data races ----------

  ghost function LinksRead(pc: Pc): set<Cell> {
    match pc
    case CounterRead(cur) => {cur}
    case CounterTest(cur, _) => {cur}
    case SwapperRead(cur) => {cur}
    case SwapperReadNext(_, next) => {next}
    case SwapperRelink(_, _, nextNext) => {nextNext}
    case _ => {}
  }

  ghost function LinksWritten(pc: Pc): set<Cell> {
    match pc
    case SwapperToss(cur, _, _) => {cur}
    case SwapperRelink(_, next, _) => {next}
    case SwapperClose(_, _, nextNext) => {nextNext}
    case _ => {}
  }

  /** No link is written by one thread while another reads or writes it. */
  lemma NoRace(init: State, schedule: seq<(int, bool)>, s: State, t: int, u: int, c: Cell)
    requires IsInitial(init) && Leads(init, schedule, s)
    requires 0 <= t < |s.threads| && 0 <= u < |s.threads| && t != u
    requires c in LinksWritten(s.threads[t].pc)
    ensures c !in LinksRead(s.threads[u].pc) && c !in LinksWritten(s.threads[u].pc)
  {
    Reachable(init, schedule, s);
    OneWriter(s, t, u, c);
  }

  lemma OneWriter(s: State, t: int, u: int, c: Cell)
    requires WellFormed(s) && forall c :: c in s.locks ==> LockOk(s.threads, c, s.locks[c])
    requires 0 <= t < |s.threads| && 0 <= u < |s.threads| && t != u
    requires c in LinksWritten(s.threads[t].pc)
    ensures c !in LinksRead(s.threads[u].pc) && c !in LinksWritten(s.threads[u].pc)
  {
    assert c in Held(s.threads[t].pc) && c in Mentioned(s.threads[t].pc);
    assert LockOk(s.threads, c, s.locks[c]);
    HeldByOne(s, t, u, c);
  }
}
