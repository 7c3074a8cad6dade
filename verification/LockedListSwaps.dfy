/** What the swappers of the locked list do to it, whatever the other threads do meanwhile. */
module LockedListSwaps {
  import opened LockedList
  import opened LockedListCorrectness
  import opened Options

  /** How many steps of a schedule are those of a thread. */
  function StepsOf(schedule: seq<(int, bool)>, t: int): nat {
    if schedule == [] then 0 else (if schedule[0].0 == t then 1 else 0) + StepsOf(schedule[1..], t)
  }

  /**
   * A swapper that has tossed for a swap and made so many of its two further writes, with the links it has written
   * and the one it has still to move.
   */
  ghost predicate AtStage(s: State, t: int, stage: nat, cur: Cell, next: Cell, nextNext: Cell, after: Option<Cell>) {
    && 0 <= t < |s.threads| && cur in s.link && next in s.link && nextNext in s.link
    && s.link[cur] == Some(nextNext)
    && (stage == 0 ==> s.threads[t].pc == SwapperRelink(cur, next, nextNext) && s.link[nextNext] == after)
    && (stage == 1 ==> s.threads[t].pc == SwapperClose(cur, next, nextNext) && s.link[next] == after)
    && (stage == 2 ==>
          && s.threads[t].pc == SwapperUnlock(cur, next, nextNext, true)
          && s.link[next] == after && s.link[nextNext] == Some(next))
  }

  /** The writer of a link holds its cell. */
  lemma WritesHeld(link: map<Cell, Option<Cell>>, pc: Pc, coin: bool, c: Cell)
    requires Mentioned(pc) <= link.Keys && c in link && c !in Held(pc)
    ensures LinkAfter(link, pc, coin)[c] == link[c]
  {
  }

  /** A step of another thread leaves the links of the cells that a swapper holds. */
  lemma OthersLeaveLinks(s: State, t: int, u: int, coin: bool, c: Cell)
    requires Inv(s) && WellFormed(s) && CanStep(s, u) && 0 <= t < |s.threads| && t != u
    requires !IsCounter(s.threads[t].pc) && c in Held(s.threads[t].pc)
    ensures c in s.link && Next(s, u, coin).link[c] == s.link[c]
  {
    assert c in Mentioned(s.threads[t].pc);
    HeldByOne(s, t, u, c);
    WritesHeld(s.link, s.threads[u].pc, coin, c);
  }

  lemma StageHeld(s: State, t: int, stage: nat, cur: Cell, next: Cell, nextNext: Cell, after: Option<Cell>)
    requires AtStage(s, t, stage, cur, next, nextNext, after) && stage <= 2
    ensures !IsCounter(s.threads[t].pc) && Held(s.threads[t].pc) == {cur, next, nextNext}
  {
  }

  lemma StageKept(s: State, n: State, t: int, stage: nat, cur: Cell, next: Cell, nextNext: Cell, after: Option<Cell>)
    requires AtStage(s, t, stage, cur, next, nextNext, after)
    requires |n.threads| == |s.threads| && n.threads[t] == s.threads[t] && n.link.Keys == s.link.Keys
    requires n.link[cur] == s.link[cur] && n.link[next] == s.link[next] && n.link[nextNext] == s.link[nextNext]
    ensures AtStage(n, t, stage, cur, next, nextNext, after)
  {
  }

  lemma OtherStep(s: State, t: int, u: int, coin: bool, stage: nat, cur: Cell, next: Cell, nextNext: Cell,
                  after: Option<Cell>)
    requires Inv(s) && WellFormed(s) && CanStep(s, u) && t != u && stage <= 2
    requires AtStage(s, t, stage, cur, next, nextNext, after)
    ensures AtStage(Next(s, u, coin), t, stage, cur, next, nextNext, after)
  {
    StageHeld(s, t, stage, cur, next, nextNext, after);
    OthersLeaveLinks(s, t, u, coin, cur);
    OthersLeaveLinks(s, t, u, coin, next);
    OthersLeaveLinks(s, t, u, coin, nextNext);
    LinkKeysKept(s.link, s.threads[u].pc, coin);
    StageKept(s, Next(s, u, coin), t, stage, cur, next, nextNext, after);
  }

  lemma CellsAreThree(s: State, t: int, cur: Cell, next: Cell, nextNext: Cell)
    requires Inv(s) && 0 <= t < |s.threads|
    requires ThreeAt(s.chain, s.threads[t].at, cur, next, nextNext)
    ensures cur != next && next != nextNext && cur != nextNext
  {
  }

  lemma OwnStep(s: State, t: int, coin: bool, stage: nat, cur: Cell, next: Cell, nextNext: Cell, after: Option<Cell>)
    requires Inv(s) && WellFormed(s) && CanStep(s, t) && stage < 2
    requires AtStage(s, t, stage, cur, next, nextNext, after)
    ensures AtStage(Next(s, t, coin), t, stage + 1, cur, next, nextNext, after)
  {
    assert PcOk(s.chain, s.link, s.threads[t]);
    CellsAreThree(s, t, cur, next, nextNext);
  }

  lemma {:induction false} StagesFollow(s: State, t: int, stage: nat, cur: Cell, next: Cell, nextNext: Cell,
                                        after: Option<Cell>, schedule: seq<(int, bool)>, s': State)
    requires Inv(s) && AtStage(s, t, stage, cur, next, nextNext, after) && Leads(s, schedule, s')
    requires stage + StepsOf(schedule, t) <= 2
    ensures AtStage(s', t, stage + StepsOf(schedule, t), cur, next, nextNext, after)
    decreases |schedule|
  {
    if schedule != [] {
      var (u, coin) := schedule[0];
      NextInv(s, u, coin);
      if u == t {
        OwnStep(s, t, coin, stage, cur, next, nextNext, after);
        StagesFollow(Next(s, u, coin), t, stage + 1, cur, next, nextNext, after, schedule[1..], s');
      } else {
        OtherStep(s, t, u, coin, stage, cur, next, nextNext, after);
        StagesFollow(Next(s, u, coin), t, stage, cur, next, nextNext, after, schedule[1..], s');
      }
    }
  }

  /** A swapper between its toss and its first unlock waits for nobody. */
  lemma SwapperIsFree(s: State, t: int)
    requires WellFormed(s) && 0 <= t < |s.threads|
    requires InSwap(s.threads[t].pc) || s.threads[t].pc.SwapperUnlock?
    ensures CanStep(s, t)
  {
  }

  lemma TossedLinks(s: State, t: int, cur: Cell, next: Cell, nextNext: Cell)
    requires Inv(s) && WellFormed(s) && 0 <= t < |s.threads| && s.threads[t].pc == SwapperToss(cur, next, nextNext)
    ensures cur in s.link && next in s.link && nextNext in s.link
    ensures s.link[cur] == Some(next) && s.link[next] == Some(nextNext)
    ensures cur != next && next != nextNext && cur != nextNext
    ensures CanStep(s, t) && AtStage(Next(s, t, true), t, 0, cur, next, nextNext, s.link[nextNext])
  {
    var at := s.threads[t].at;
    assert PcOk(s.chain, s.link, s.threads[t]);
    CellsAreThree(s, t, cur, next, nextNext);
    ReadLink(s, t, at);
    ReadLink(s, t, at + 1);
  }

  /**
   * A swapper stands before two neighbours, and its coin says swap. Whatever the other threads do, it can make its
   * next two steps at any time, and when it has made them the cell before leads to the second neighbour, that one to
   * the first, and the first to what was behind them.
   */
  lemma SwapHappens(init: State, before: seq<(int, bool)>, s: State, t: int, cur: Cell, next: Cell, nextNext: Cell,
                    schedule: seq<(int, bool)>, s': State)
    requires IsInitial(init) && Leads(init, before, s) && WellFormed(s) && 0 <= t < |s.threads|
    requires s.threads[t].pc == SwapperToss(cur, next, nextNext) && CanStep(s, t)
    requires Leads(Next(s, t, true), schedule, s') && StepsOf(schedule, t) <= 2
    ensures WellFormed(s') && CanStep(s', t)
    ensures cur in s'.link && next in s'.link && nextNext in s.link && nextNext in s'.link
    ensures StepsOf(schedule, t) == 2 ==>
      && s'.threads[t].pc == SwapperUnlock(cur, next, nextNext, true)
      && s'.link[cur] == Some(nextNext) && s'.link[nextNext] == Some(next) && s'.link[next] == s.link[nextNext]
  {
    Reachable(init, before, s);
    TossedLinks(s, t, cur, next, nextNext);
    NextInv(s, t, true);
    StagesFollow(Next(s, t, true), t, 0, cur, next, nextNext, s.link[nextNext], schedule, s');
    RunInv(Next(s, t, true), schedule, s');
    SwapperIsFree(s', t);
  }

  // ---------- No swap ----------

  ghost predicate HasLeft(s: State, t: int, cur: Cell, next: Cell, nextNext: Cell, after: Option<Cell>) {
    && 0 <= t < |s.threads| && cur in s.link && next in s.link && nextNext in s.link
    && s.threads[t].pc == SwapperUnlock(cur, next, nextNext, false)
    && s.link[cur] == Some(next) && s.link[next] == Some(nextNext) && s.link[nextNext] == after
  }

  lemma {:induction false} StaysLeft(s: State, t: int, cur: Cell, next: Cell, nextNext: Cell, after: Option<Cell>,
                                     schedule: seq<(int, bool)>, s': State)
    requires Inv(s) && HasLeft(s, t, cur, next, nextNext, after) && Leads(s, schedule, s')
    requires StepsOf(schedule, t) == 0
    ensures HasLeft(s', t, cur, next, nextNext, after)
    decreases |schedule|
  {
    if schedule != [] {
      var (u, coin) := schedule[0];
      NextInv(s, u, coin);
      OthersLeaveLinks(s, t, u, coin, cur);
      OthersLeaveLinks(s, t, u, coin, next);
      OthersLeaveLinks(s, t, u, coin, nextNext);
      StaysLeft(Next(s, u, coin), t, cur, next, nextNext, after, schedule[1..], s');
    }
  }

  /** With the other side of the coin the three links stay what they are, as long as the swapper holds the cells. */
  lemma NoSwapHappens(init: State, before: seq<(int, bool)>, s: State, t: int, cur: Cell, next: Cell, nextNext: Cell,
                      schedule: seq<(int, bool)>, s': State)
    requires IsInitial(init) && Leads(init, before, s) && WellFormed(s) && 0 <= t < |s.threads|
    requires s.threads[t].pc == SwapperToss(cur, next, nextNext) && CanStep(s, t)
    requires Leads(Next(s, t, false), schedule, s') && StepsOf(schedule, t) == 0
    ensures WellFormed(s') && CanStep(s', t) && s'.threads[t].pc == SwapperUnlock(cur, next, nextNext, false)
    ensures cur in s'.link && next in s'.link && nextNext in s.link && nextNext in s'.link
    ensures s'.link[cur] == Some(next) && s'.link[next] == Some(nextNext) && s'.link[nextNext] == s.link[nextNext]
  {
    Reachable(init, before, s);
    TossedLinks(s, t, cur, next, nextNext);
    NextInv(s, t, false);
    StaysLeft(Next(s, t, false), t, cur, next, nextNext, s.link[nextNext], schedule, s');
    RunInv(Next(s, t, false), schedule, s');
    SwapperIsFree(s', t);
  }

  // ---------- Whole passes ----------

  lemma EndOfPass(chain: seq<Cell>, link: map<Cell, Option<Cell>>, th: Thread)
    requires PcOk(chain, link, th) && th.pc.SwapperEnd?
    ensures th.at < |chain| <= th.at + 2 && chain[th.at] == th.pc.cur
  {
  }

  /** A swapper ends its pass at the last cell or at the one before it. */
  lemma SwapperPassReachesEnd(init: State, schedule: seq<(int, bool)>, s: State, t: int)
    requires IsInitial(init) && Leads(init, schedule, s) && 0 <= t < |s.threads| && s.threads[t].pc.SwapperEnd?
    ensures var at := s.threads[t].at;
      at < |s.chain| <= at + 2 && s.chain[at] == s.threads[t].pc.cur
  {
    Reachable(init, schedule, s);
    EndOfPass(s.chain, s.link, s.threads[t]);
  }
}
