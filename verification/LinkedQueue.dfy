/** The linked list and the counter of a bounded queue, changed by one read or write at a time. */
module LinkedQueue {
  import opened Options

  /** Who calls the queue. */
  datatype Role = Producer | Consumer

  // ---------- The program ----------

  /** The next access of a call: to the list when adding, to the list when getting, to the counter in both. */
  datatype Place =
    | Allocate | FillValue | FillNext | TestFirst | SetLast | SetFirst
    | ReadLast | LinkLast | RereadLast | ReadLink | MoveLast
    | TakeFirst | ReadValue | ReadFirst | ReadNext | MoveFirst | Release
    | ReadCount | WriteCount

  /** The variables of a call: its value, the node that it allocated or took, the last link and the counter it read. */
  datatype Local = Local(val: int, node: Option<nat>, link: Option<nat>, count: int)

  /** Allocated nodes are live; val and next hold the fields that were written since. */
  datatype Memory = Memory(first: Option<nat>, last: Option<nat>, count: int, live: set<nat>,
                           val: map<nat, int>, next: map<nat, Option<nat>>)

  /** Not part of the program: the nodes in the list, the values given to calls and the values returned, in order. */
  datatype Record = Record(chain: seq<nat>, added: seq<int>, taken: seq<int>)

  function FirstPlace(r: Role): Place {
    if r == Producer then Allocate else TakeFirst
  }

  predicate Fits(r: Role, p: Place) {
    match p
    case TakeFirst | ReadValue | ReadFirst | ReadNext | MoveFirst | Release => r == Consumer
    case ReadCount | WriteCount => true
    case _ => r == Producer
  }

  predicate IsLive(m: Memory, n: Option<nat>) {
    n.Some? && n.value in m.live
  }

  /** Memory is only got where it is free, given back while live and accessed while live, and read after a write. */
  predicate IsSafe(m: Memory, p: Place, l: Local, addr: nat) {
    match p
    case Allocate => addr !in m.live
    case FillValue | FillNext | Release => IsLive(m, l.node)
    case LinkLast => IsLive(m, l.link)
    case ReadLink | ReadNext => IsLive(m, l.link) && l.link.value in m.next
    case ReadValue => IsLive(m, l.node) && l.node.value in m.val
    case _ => true
  }

  /** An allocation leaves the fields of the node unset, whatever node had its address before. */
  function MemoryAfter(m: Memory, r: Role, p: Place, l: Local, addr: nat): Memory
    requires IsSafe(m, p, l, addr)
  {
    match p
    case Allocate => m.(live := m.live + {addr}, val := m.val - {addr}, next := m.next - {addr})
    case FillValue => m.(val := m.val[l.node.value := l.val])
    case FillNext => m.(next := m.next[l.node.value := None])
    case SetLast => m.(last := l.node)
    case SetFirst => m.(first := l.node)
    case LinkLast => m.(next := m.next[l.link.value := l.node])
    case MoveLast => m.(last := l.link)
    case MoveFirst => m.(first := l.link)
    case Release => m.(live := m.live - {l.node.value})
    case WriteCount => m.(count := if r == Producer then l.count + 1 else l.count - 1)
    case _ => m
  }

  function LocalAfter(m: Memory, p: Place, l: Local, addr: nat): Local
    requires IsSafe(m, p, l, addr)
  {
    match p
    case Allocate => l.(node := Some(addr))
    case ReadLast | RereadLast => l.(link := m.last)
    case ReadLink | ReadNext => l.(link := m.next[l.link.value])
    case TakeFirst => l.(node := m.first)
    case ReadValue => l.(val := m.val[l.node.value])
    case ReadFirst => l.(link := m.first)
    case ReadCount => l.(count := m.count)
    case _ => l
  }

  function PlaceAfter(m: Memory, p: Place): Place {
    match p
    case Allocate => FillValue
    case FillValue => FillNext
    case FillNext => TestFirst
    case TestFirst => if m.first == None then SetLast else ReadLast
    case SetLast => SetFirst
    case SetFirst => ReadCount
    case ReadLast => LinkLast
    case LinkLast => RereadLast
    case RereadLast => ReadLink
    case ReadLink => MoveLast
    case MoveLast => ReadCount
    case TakeFirst => ReadValue
    case ReadValue => ReadFirst
    case ReadFirst => ReadNext
    case ReadNext => MoveFirst
    case MoveFirst => Release
    case Release => ReadCount
    case ReadCount => WriteCount
    case WriteCount => WriteCount
  }

  /** A value counts as given when its call starts on the list, and as returned when the call is done with it. */
  function RecordAfter(rec: Record, r: Role, p: Place, l: Local): Record {
    match p
    case Allocate => rec.(added := rec.added + [l.val])
    case SetFirst | LinkLast => if l.node.Some? then rec.(chain := rec.chain + [l.node.value]) else rec
    case MoveFirst => if rec.chain != [] then rec.(chain := rec.chain[1..]) else rec
    case WriteCount => if r == Consumer then rec.(taken := rec.taken + [l.val]) else rec
    case _ => rec
  }

  // ---------- The list ----------

  /** The node at a place, and none past the end. */
  function At(chain: seq<nat>, i: nat): Option<nat> {
    if i < |chain| then Some(chain[i]) else None
  }

  predicate LinksTo(m: Memory, n: nat, to: Option<nat>) {
    n in m.next && m.next[n] == to
  }

  /** Following the links from the first node visits these nodes and ends. */
  predicate Spells(m: Memory, chain: seq<nat>) {
    && m.first == At(chain, 0)
    && forall i :: 0 <= i < |chain| ==> LinksTo(m, chain[i], At(chain, i + 1))
  }

  function Members(chain: seq<nat>): set<nat> {
    set n | n in chain
  }

  function ValueOf(m: Memory, n: nat): int {
    if n in m.val then m.val[n] else 0
  }

  function Values(m: Memory, chain: seq<nat>): seq<int> {
    seq(|chain|, i requires 0 <= i < |chain| => ValueOf(m, chain[i]))
  }

  /** The links spell distinct filled nodes, and no other node is live but the one a call has in hand. */
  predicate IsList(m: Memory, chain: seq<nat>, inHand: set<nat>) {
    && (forall i, j :: 0 <= i < j < |chain| ==> chain[i] != chain[j])
    && Spells(m, chain)
    && (forall n :: n in chain ==> n in m.val)
    && m.live == Members(chain) + inHand
    && Members(chain) !! inHand
  }

  /** Nothing is said of the last link of an empty list: it may lead to a node given back long ago. */
  predicate EndsAtLast(m: Memory, chain: seq<nat>) {
    chain != [] ==> m.last == Some(chain[|chain| - 1])
  }

  // ---------- What holds at each place ----------

  predicate Rests(m: Memory, chain: seq<nat>) {
    IsList(m, chain, {}) && EndsAtLast(m, chain) && m.count == |chain|
  }

  predicate HasNode(m: Memory, chain: seq<nat>, l: Local) {
    l.node.Some? && IsList(m, chain, {l.node.value}) && EndsAtLast(m, chain) && m.count == |chain|
  }

  predicate HasFilled(m: Memory, chain: seq<nat>, l: Local) {
    && HasNode(m, chain, l)
    && l.node.value in m.val && m.val[l.node.value] == l.val
    && l.node.value in m.next && m.next[l.node.value] == None
  }

  /** The new node is linked in, and the last link is still at the node before it. */
  predicate HasLinked(m: Memory, chain: seq<nat>) {
    IsList(m, chain, {}) && |chain| >= 2 && m.last == Some(chain[|chain| - 2]) && m.count == |chain| - 1
  }

  predicate HasTaken(m: Memory, chain: seq<nat>, l: Local) {
    Rests(m, chain) && chain != [] && l.node == Some(chain[0])
  }

  predicate HasRead(m: Memory, chain: seq<nat>, l: Local) {
    HasTaken(m, chain, l) && l.val == m.val[chain[0]]
  }

  predicate HasUnlinked(m: Memory, chain: seq<nat>, l: Local) {
    l.node.Some? && IsList(m, chain, {l.node.value}) && EndsAtLast(m, chain) && m.count == |chain| + 1
  }

  predicate HasChanged(m: Memory, chain: seq<nat>, r: Role) {
    IsList(m, chain, {}) && EndsAtLast(m, chain) && m.count == if r == Producer then |chain| - 1 else |chain| + 1
  }

  predicate PlaceOk(m: Memory, chain: seq<nat>, r: Role, p: Place, l: Local) {
    match p
    case Allocate | TakeFirst => Rests(m, chain)
    case FillValue => HasNode(m, chain, l)
    case FillNext => HasNode(m, chain, l) && l.node.value in m.val && m.val[l.node.value] == l.val
    case TestFirst => HasFilled(m, chain, l)
    case SetLast => HasFilled(m, chain, l) && chain == []
    case SetFirst => HasFilled(m, chain, l) && chain == [] && m.last == l.node
    case ReadLast => HasFilled(m, chain, l) && chain != []
    case LinkLast => HasFilled(m, chain, l) && chain != [] && l.link == m.last
    case RereadLast => HasLinked(m, chain)
    case ReadLink => HasLinked(m, chain) && l.link == m.last
    case MoveLast => HasLinked(m, chain) && l.link == Some(chain[|chain| - 1])
    case ReadValue => HasTaken(m, chain, l)
    case ReadFirst => HasRead(m, chain, l)
    case ReadNext => HasRead(m, chain, l) && l.link == m.first
    case MoveFirst => HasRead(m, chain, l) && l.link == m.next[chain[0]]
    case Release => HasUnlinked(m, chain, l)
    case ReadCount => HasChanged(m, chain, r)
    case WriteCount => HasChanged(m, chain, r) && l.count == m.count
  }

  /** A value given to a call but not in the list yet. */
  function Entering(p: Place, l: Local): seq<int> {
    match p
    case FillValue | FillNext | TestFirst | SetLast | SetFirst | ReadLast | LinkLast => [l.val]
    case _ => []
  }

  /** A value not in the list any more but not returned yet. */
  function Leaving(r: Role, p: Place, l: Local): seq<int> {
    if p == Release || (r == Consumer && (p == ReadCount || p == WriteCount)) then [l.val] else []
  }

  predicate OrderOk(m: Memory, rec: Record, r: Role, p: Place, l: Local) {
    rec.added == rec.taken + (Leaving(r, p, l) + Values(m, rec.chain) + Entering(p, l))
  }

  predicate CallOk(m: Memory, rec: Record, r: Role, p: Place, l: Local) {
    Fits(r, p) && PlaceOk(m, rec.chain, r, p, l) && OrderOk(m, rec, r, p, l)
  }

  /** Between calls the links spell the values that were given and not returned, and the counter is their number. */
  predicate AtRest(m: Memory, rec: Record) {
    Rests(m, rec.chain) && rec.added == rec.taken + Values(m, rec.chain)
  }

  // ---------- One access ----------

  predicate StaysOk(m: Memory, rec: Record, r: Role, p: Place, l: Local, addr: nat)
    requires IsSafe(m, p, l, addr)
  {
    CallOk(MemoryAfter(m, r, p, l, addr), RecordAfter(rec, r, p, l), r, PlaceAfter(m, p), LocalAfter(m, p, l, addr))
  }

  lemma AllocatingOk(m: Memory, rec: Record, l: Local, addr: nat)
    requires CallOk(m, rec, Producer, Allocate, l) && IsSafe(m, Allocate, l, addr)
    ensures StaysOk(m, rec, Producer, Allocate, l, addr)
  {
    assert Values(MemoryAfter(m, Producer, Allocate, l, addr), rec.chain) == Values(m, rec.chain);
  }

  lemma FillingOk(m: Memory, rec: Record, p: Place, l: Local, addr: nat)
    requires CallOk(m, rec, Producer, p, l) && IsSafe(m, p, l, addr) && (p == FillValue || p == FillNext)
    ensures StaysOk(m, rec, Producer, p, l, addr)
  {
    assert Values(MemoryAfter(m, Producer, p, l, addr), rec.chain) == Values(m, rec.chain);
  }

  lemma TestingOk(m: Memory, rec: Record, p: Place, l: Local, addr: nat)
    requires CallOk(m, rec, Producer, p, l) && (p == TestFirst || p == ReadLast)
    ensures StaysOk(m, rec, Producer, p, l, addr)
  {
  }

  lemma SettingLastOk(m: Memory, rec: Record, l: Local, addr: nat)
    requires CallOk(m, rec, Producer, SetLast, l)
    ensures StaysOk(m, rec, Producer, SetLast, l, addr)
  {
    assert Values(MemoryAfter(m, Producer, SetLast, l, addr), rec.chain) == Values(m, rec.chain);
  }

  lemma LongerIsSpelled(m: Memory, chain: seq<nat>, p: Place, l: Local, addr: nat)
    requires PlaceOk(m, chain, Producer, p, l) && IsSafe(m, p, l, addr) && (p == SetFirst || p == LinkLast)
    ensures Spells(MemoryAfter(m, Producer, p, l, addr), chain + [l.node.value])
  {
    var longer, n := chain + [l.node.value], MemoryAfter(m, Producer, p, l, addr);
    forall i | 0 <= i < |longer|
      ensures LinksTo(n, longer[i], At(longer, i + 1))
    {
      assert i < |chain| ==> chain[i] in Members(chain) && LinksTo(m, chain[i], At(chain, i + 1));
    }
  }

  lemma LongerIsList(m: Memory, chain: seq<nat>, p: Place, l: Local, addr: nat) returns (n: Memory)
    requires PlaceOk(m, chain, Producer, p, l) && IsSafe(m, p, l, addr) && (p == SetFirst || p == LinkLast)
    ensures n == MemoryAfter(m, Producer, p, l, addr) && IsList(n, chain + [l.node.value], {})
    ensures Values(n, chain + [l.node.value]) == Values(m, chain) + [l.val]
  {
    n := MemoryAfter(m, Producer, p, l, addr);
    LongerIsSpelled(m, chain, p, l, addr);
    assert Members(chain + [l.node.value]) == Members(chain) + {l.node.value};
    assert forall i :: 0 <= i < |chain| ==> chain[i] in Members(chain);
  }

  /** The write that puts the node into the list. */
  lemma LinkingOk(m: Memory, rec: Record, p: Place, l: Local, addr: nat)
    requires CallOk(m, rec, Producer, p, l) && IsSafe(m, p, l, addr) && (p == SetFirst || p == LinkLast)
    ensures StaysOk(m, rec, Producer, p, l, addr)
  {
    var _ := LongerIsList(m, rec.chain, p, l, addr);
  }

  lemma MovingLastOk(m: Memory, rec: Record, p: Place, l: Local, addr: nat)
    requires CallOk(m, rec, Producer, p, l) && IsSafe(m, p, l, addr)
    requires p == RereadLast || p == ReadLink || p == MoveLast
    ensures StaysOk(m, rec, Producer, p, l, addr)
  {
    assert Values(MemoryAfter(m, Producer, p, l, addr), rec.chain) == Values(m, rec.chain);
  }

  lemma ReadingOk(m: Memory, rec: Record, p: Place, l: Local, addr: nat)
    requires CallOk(m, rec, Consumer, p, l) && IsSafe(m, p, l, addr)
    requires p == TakeFirst || p == ReadValue || p == ReadFirst || p == ReadNext
    requires p == TakeFirst ==> m.count > 0
    ensures StaysOk(m, rec, Consumer, p, l, addr)
  {
  }

  lemma TailIsSpelled(m: Memory, chain: seq<nat>)
    requires Spells(m, chain) && chain != []
    ensures Spells(m.(first := m.next[chain[0]]), chain[1..])
  {
    var shorter, n := chain[1..], m.(first := m.next[chain[0]]);
    forall i | 0 <= i < |shorter|
      ensures LinksTo(n, shorter[i], At(shorter, i + 1))
    {
      assert LinksTo(m, chain[i + 1], At(chain, i + 1 + 1));
    }
    assert LinksTo(m, chain[0], At(chain, 0 + 1));
  }

  lemma TailMembers(chain: seq<nat>)
    requires chain != [] && forall i, j :: 0 <= i < j < |chain| ==> chain[i] != chain[j]
    ensures Members(chain) == Members(chain[1..]) + {chain[0]} && chain[0] !in Members(chain[1..])
  {
    assert chain == [chain[0]] + chain[1..];
  }

  lemma TailValues(m: Memory, first: Option<nat>, chain: seq<nat>)
    requires chain != []
    ensures Values(m, chain) == [ValueOf(m, chain[0])] + Values(m.(first := first), chain[1..])
  {
  }

  lemma TailIsList(m: Memory, chain: seq<nat>) returns (n: Memory)
    requires IsList(m, chain, {}) && chain != []
    ensures n == m.(first := m.next[chain[0]]) && IsList(n, chain[1..], {chain[0]})
    ensures Values(m, chain) == [m.val[chain[0]]] + Values(n, chain[1..])
  {
    n := m.(first := m.next[chain[0]]);
    TailIsSpelled(m, chain);
    TailMembers(chain);
    TailValues(m, n.first, chain);
  }

  /** The write that takes the node out of the list. */
  lemma UnlinkingOk(m: Memory, rec: Record, l: Local, addr: nat)
    requires CallOk(m, rec, Consumer, MoveFirst, l)
    ensures StaysOk(m, rec, Consumer, MoveFirst, l, addr)
  {
    var _ := TailIsList(m, rec.chain);
  }

  lemma ReleasingOk(m: Memory, rec: Record, l: Local, addr: nat)
    requires CallOk(m, rec, Consumer, Release, l) && IsSafe(m, Release, l, addr)
    ensures StaysOk(m, rec, Consumer, Release, l, addr)
  {
    assert Values(MemoryAfter(m, Consumer, Release, l, addr), rec.chain) == Values(m, rec.chain);
  }

  lemma ReadingCountOk(m: Memory, rec: Record, r: Role, l: Local, addr: nat)
    requires CallOk(m, rec, r, ReadCount, l)
    ensures StaysOk(m, rec, r, ReadCount, l, addr)
  {
  }

  lemma AddingOk(m: Memory, rec: Record, p: Place, l: Local, addr: nat)
    requires CallOk(m, rec, Producer, p, l) && IsSafe(m, p, l, addr) && p != ReadCount && p != WriteCount
    ensures StaysOk(m, rec, Producer, p, l, addr)
  {
    if p == SetFirst || p == LinkLast {
      LinkingOk(m, rec, p, l, addr);
    } else if p == RereadLast || p == ReadLink || p == MoveLast {
      MovingLastOk(m, rec, p, l, addr);
    } else if p == Allocate {
      AllocatingOk(m, rec, l, addr);
    } else if p == TestFirst || p == ReadLast {
      TestingOk(m, rec, p, l, addr);
    } else if p == SetLast {
      SettingLastOk(m, rec, l, addr);
    } else {
      FillingOk(m, rec, p, l, addr);
    }
  }

  lemma GettingOk(m: Memory, rec: Record, p: Place, l: Local, addr: nat)
    requires CallOk(m, rec, Consumer, p, l) && IsSafe(m, p, l, addr) && p != ReadCount && p != WriteCount
    requires p == TakeFirst ==> m.count > 0
    ensures StaysOk(m, rec, Consumer, p, l, addr)
  {
    if p == MoveFirst {
      UnlinkingOk(m, rec, l, addr);
    } else if p == Release {
      ReleasingOk(m, rec, l, addr);
    } else {
      ReadingOk(m, rec, p, l, addr);
    }
  }

  /** Each access of a call keeps what holds at its places, provided that a getting call finds an item. */
  lemma AccessOk(m: Memory, rec: Record, r: Role, p: Place, l: Local, addr: nat)
    requires CallOk(m, rec, r, p, l) && IsSafe(m, p, l, addr) && p != WriteCount
    requires p == TakeFirst ==> m.count > 0
    ensures StaysOk(m, rec, r, p, l, addr)
  {
    if p == ReadCount {
      ReadingCountOk(m, rec, r, l, addr);
    } else if r == Producer {
      AddingOk(m, rec, p, l, addr);
    } else {
      GettingOk(m, rec, p, l, addr);
    }
  }

  /** With the write of the counter the call is done, and the list is at rest again. */
  lemma LastAccessOk(m: Memory, rec: Record, r: Role, l: Local, addr: nat)
    requires CallOk(m, rec, r, WriteCount, l)
    ensures AtRest(MemoryAfter(m, r, WriteCount, l, addr), RecordAfter(rec, r, WriteCount, l))
  {
    var n := MemoryAfter(m, r, WriteCount, l, addr);
    assert Values(n, rec.chain) == Values(m, rec.chain);
  }

  // ---------- What follows ----------

  // ---------- Calls of several threads ----------

  /** A call that is accessing the list. */
  datatype Call = Call(role: Role, place: Place, local: Local)

  /** The list is as the accessing call has to have left it, and at rest without one. */
  predicate ListOk(m: Memory, rec: Record, calls: seq<Option<Call>>) {
    && (forall t :: 0 <= t < |calls| && calls[t].Some? ==>
          CallOk(m, rec, calls[t].value.role, calls[t].value.place, calls[t].value.local))
    && ((forall t :: 0 <= t < |calls| ==> calls[t].None?) ==> AtRest(m, rec))
  }

  predicate OnlyCall(calls: seq<Option<Call>>, t: nat) {
    t < |calls| && forall k :: 0 <= k < |calls| && k != t ==> calls[k].None?
  }

  /** The call after one more access, if it is not done. */
  function CallAfter(m: Memory, c: Call, addr: nat): Option<Call>
    requires IsSafe(m, c.place, c.local, addr)
  {
    if c.place == WriteCount then None
    else Some(c.(place := PlaceAfter(m, c.place), local := LocalAfter(m, c.place, c.local, addr)))
  }

  /** An access by the only call keeps the list in order. */
  lemma AccessListOk(m: Memory, rec: Record, calls: seq<Option<Call>>, t: nat, addr: nat)
    requires ListOk(m, rec, calls) && OnlyCall(calls, t) && calls[t].Some?
    requires var c := calls[t].value; IsSafe(m, c.place, c.local, addr) && (c.place == TakeFirst ==> m.count > 0)
    ensures var c := calls[t].value;
      ListOk(MemoryAfter(m, c.role, c.place, c.local, addr), RecordAfter(rec, c.role, c.place, c.local),
             calls[t := CallAfter(m, c, addr)])
  {
    var c := calls[t].value;
    if c.place == WriteCount {
      LastAccessOk(m, rec, c.role, c.local, addr);
    } else {
      AccessOk(m, rec, c.role, c.place, c.local, addr);
      assert calls[t := CallAfter(m, c, addr)][t].Some?;
    }
  }

  /** A call may start when there is none. */
  lemma StartListOk(m: Memory, rec: Record, calls: seq<Option<Call>>, t: nat, c: Call)
    requires ListOk(m, rec, calls) && OnlyCall(calls, t) && calls[t].None? && c.place == FirstPlace(c.role)
    ensures ListOk(m, rec, calls[t := Some(c)])
  {
    assert calls[t := Some(c)][t].Some?;
  }

  /** By how much an access of a call changes the counter. */
  function Change(call: Option<Call>): int {
    if call.None? || call.value.place != WriteCount then 0 else if call.value.role == Producer then 1 else -1
  }

  /** The counter moves by one with its write, since nobody else has changed it since it was read. */
  lemma CountAfter(m: Memory, rec: Record, c: Call, addr: nat)
    requires CallOk(m, rec, c.role, c.place, c.local) && IsSafe(m, c.place, c.local, addr)
    ensures MemoryAfter(m, c.role, c.place, c.local, addr).count == m.count + Change(Some(c))
  {
  }

  /** Whatever calls are under way, the values returned are the first of the values given. */
  lemma ReturnedInOrder(m: Memory, rec: Record, calls: seq<Option<Call>>)
    requires ListOk(m, rec, calls)
    ensures rec.taken <= rec.added
  {
  }

  /** Before the first call the list is empty. */
  function Blank(): Memory {
    Memory(None, None, 0, {}, map[], map[])
  }

  /** Every access but the allocation is safe, and so is an allocation that gets free memory. */
  lemma AccessIsSafe(m: Memory, rec: Record, r: Role, p: Place, l: Local, addr: nat)
    requires CallOk(m, rec, r, p, l) && (p == Allocate ==> addr !in m.live)
    ensures IsSafe(m, p, l, addr)
  {
    if rec.chain != [] {
      var last := |rec.chain| - 1;
      assert rec.chain[0] in rec.chain && rec.chain[last] in rec.chain;
      assert last > 0 ==> rec.chain[last - 1] in rec.chain;
    }
  }

  /** There is always free memory. */
  lemma FreeAddress(live: set<nat>) returns (addr: nat)
    ensures addr !in live
  {
    addr := 0;
    var seen: set<nat> := {};
    while addr in live
      invariant seen <= live && forall n :: n in seen ==> n < addr
      decreases live - seen
    {
      seen := seen + {addr};
      addr := addr + 1;
    }
  }

  /** The links determine the list. */
  lemma {:induction false} SpelledOnce(m: Memory, a: seq<nat>, b: seq<nat>)
    requires Spells(m, a) && Spells(m, b)
    ensures a == b
    decreases |a|
  {
    if a != [] {
      TailIsSpelled(m, a);
      TailIsSpelled(m, b);
      SpelledOnce(m.(first := m.next[a[0]]), a[1..], b[1..]);
      assert a == [a[0]] + a[1..] && b == [b[0]] + b[1..];
    }
  }
}
