/** task_sleep and task_wakeup of kernel/task.c with the clock interrupt of kernel/clock.c.

    Times are unsigned 32-bit words.  The sleep list is sorted by them as signed integers, and the wakeup
    compares them as unsigned ones. */
module Sleepers {
  import opened Basics
  import opened IntrusiveLists

  const WORD := 0x1_0000_0000
  const HALF := 0x8000_0000
  const JIFFY := 10

  datatype Sleeper = Sleeper(task: nat, ticks: nat)

  datatype Clock = Clock(jiffies: nat, list: seq<Sleeper>)

  function TickKeys(list: seq<Sleeper>): (r: seq<int>)
    ensures |r| == |list|
    ensures forall i :: 0 <= i < |r| ==> r[i] == AsInt32(list[i].ticks)
  {
    seq(|list|, i requires 0 <= i < |list| => AsInt32(list[i].ticks))
  }

  /** Milliseconds in clock ticks, at least one. */
  function Ticks(ms: nat): nat {
    if ms / JIFFY > 0 then ms / JIFFY else 1
  }

  /** task_sleep: sorted in by the deadline; schedule then replaces a deadline of zero by the priority. */
  function Sleep(c: Clock, task: nat, ms: nat, priority: nat): Clock {
    var deadline := (c.jiffies + Ticks(ms)) % WORD;
    var sleeper := Sleeper(task, if deadline == 0 then priority else deadline);
    Clock(c.jiffies, InsertAt(c.list, InsertIndex(TickKeys(c.list), AsInt32(deadline)), sleeper))
  }

  /** The sleepers that task_wakeup releases: those before the first whose time has not come. */
  function Due(list: seq<Sleeper>, now: nat): (r: nat)
    ensures r <= |list|
    ensures forall i :: 0 <= i < r ==> list[i].ticks <= now
    ensures r < |list| ==> list[r].ticks > now
  {
    if list == [] || list[0].ticks > now then 0 else 1 + Due(list[1..], now)
  }

  /** The clock interrupt: wake up first, count afterwards. */
  function Tick(c: Clock): Clock {
    Clock((c.jiffies + 1) % WORD, c.list[Due(c.list, c.jiffies)..])
  }

  // ---------------------------------------------------------------- when the early break is sound

  predicate Words(list: seq<Sleeper>) {
    forall i :: 0 <= i < |list| ==> list[i].ticks < WORD
  }

  /** Every sleeper whose time has come is among the released ones. */
  ghost predicate ReleasesAllDue(list: seq<Sleeper>, now: nat) {
    forall i :: Due(list, now) <= i < |list| ==> list[i].ticks > now
  }

  /** A deadline in the upper half of the range is still ahead while one in the lower half is due. */
  ghost predicate Overtaken(list: seq<Sleeper>, now: nat) {
    exists i, j :: 0 <= i < |list| && 0 <= j < |list| &&
      list[i].ticks >= HALF && list[i].ticks > now && list[j].ticks < HALF && list[j].ticks <= now
  }

  /** Behind the first sleeper that stays, every one stays, or the first is in the upper half and it is not. */
  lemma BehindTheBreak(list: seq<Sleeper>, now: nat, i: nat)
    requires Ascending(TickKeys(list)) && Words(list) && Due(list, now) <= i < |list|
    ensures var r := Due(list, now);
      list[i].ticks > now || (list[r].ticks >= HALF && list[r].ticks > now && list[i].ticks < HALF)
  {
    assert TickKeys(list)[Due(list, now)] <= TickKeys(list)[i];
  }

  /** A later time of the upper half stands in front of any due time of the lower half. */
  lemma OvertakenIsMissed(list: seq<Sleeper>, now: nat, i: nat, j: nat)
    requires Ascending(TickKeys(list)) && i < |list| && j < |list|
    requires HALF <= list[i].ticks < WORD && list[i].ticks > now && list[j].ticks < HALF && list[j].ticks <= now
    ensures Due(list, now) <= i < j
  {
    assert TickKeys(list)[i] < 0 <= TickKeys(list)[j];
  }

  /** On a sorted list task_wakeup misses a due sleeper exactly when the signed order puts a later time
      of the upper half in front of a due time of the lower half. */
  lemma WakeupExactness(list: seq<Sleeper>, now: nat)
    requires Ascending(TickKeys(list)) && Words(list) && now < WORD
    ensures ReleasesAllDue(list, now) <==> !Overtaken(list, now)
  {
    forall i | Due(list, now) <= i < |list|
      ensures list[i].ticks > now || Overtaken(list, now)
    {
      BehindTheBreak(list, now, i);
    }
    if Overtaken(list, now) {
      var i: nat, j: nat :| i < |list| && j < |list|
        && list[i].ticks >= HALF && list[i].ticks > now && list[j].ticks < HALF && list[j].ticks <= now;
      OvertakenIsMissed(list, now, i, j);
    }
  }

  lemma SleepsAlone(now: nat, task: nat, ms: nat, priority: nat)
    requires (now + Ticks(ms)) % WORD != 0
    ensures Sleep(Clock(now, []), task, ms, priority) == Clock(now, [Sleeper(task, (now + Ticks(ms)) % WORD)])
  {}

  lemma SleepsInFront(now: nat, first: Sleeper, task: nat, ms: nat, priority: nat)
    requires (now + Ticks(ms)) % WORD != 0 && AsInt32((now + Ticks(ms)) % WORD) < AsInt32(first.ticks)
    ensures Sleep(Clock(now, [first]), task, ms, priority) == Clock(now, [Sleeper(task, (now + Ticks(ms)) % WORD), first])
  {
    var d := (now + Ticks(ms)) % WORD;
    assert InsertIndex(TickKeys([first]), AsInt32(d)) == 0;
    assert InsertAt([first], 0, Sleeper(task, d)) == [Sleeper(task, d), first];
    hide InsertIndex, InsertAt, TickKeys, AsInt32, Ticks;
  }

  lemma NothingDue(now: nat, list: seq<Sleeper>)
    requires list != [] && list[0].ticks > now
    ensures Tick(Clock(now, list)) == Clock((now + 1) % WORD, list)
  {}

  /** A run in which that happens.  Two ticks short of 2^31 task 1 asks for one tick, and in the next tick task 2
      does: its deadline is the first of the upper half and sorts to the front.  The interrupt at which task 1 is
      due stops there, and task 1 sleeps on. */
  lemma LateWakeup(priority: nat) returns (c: Clock)
    ensures c == Tick(Sleep(Tick(Sleep(Clock(0x7FFF_FFFE, []), 1, 10, priority)), 2, 10, priority))
    ensures c.jiffies == 0x8000_0000 && Sleeper(1, 0x7FFF_FFFF) in c.list
  {
    var first, second := Sleeper(1, 0x7FFF_FFFF), Sleeper(2, 0x8000_0000);
    SleepsAlone(0x7FFF_FFFE, 1, 10, priority);
    NothingDue(0x7FFF_FFFE, [first]);
    SleepsInFront(0x7FFF_FFFF, first, 2, 10, priority);
    NothingDue(0x7FFF_FFFF, [second, first]);
    hide Sleep, Tick;
    c := Clock(0x8000_0000, [second, first]);
    assert c.list[1] == first;
  }

  /** A clock tick is ten milliseconds: a task asks for as many ticks as fit in its time, and for one at least. */
  lemma TicksOfTime(ms: nat)
    ensures ms < 10 ==> Ticks(ms) == 1
    ensures ms >= 10 ==> 10 * Ticks(ms) <= ms < 10 * Ticks(ms) + 10
  {}

  // ---------------------------------------------------------------- times below 2^31

  /** Sorted, in the lower half, and nobody overdue. */
  ghost predicate Inv(c: Clock) {
    && c.jiffies < HALF && Ascending(TickKeys(c.list))
    && forall i :: 0 <= i < |c.list| ==> c.jiffies <= c.list[i].ticks < HALF
  }

  lemma TickKeysOfInsert(list: seq<Sleeper>, i: nat, s: Sleeper)
    requires i <= |list|
    ensures TickKeys(InsertAt(list, i, s)) == InsertAt(TickKeys(list), i, AsInt32(s.ticks))
  {}

  lemma InsertedMembers<T>(s: seq<T>, i: nat, x: T)
    requires i <= |s|
    ensures forall y :: y in InsertAt(s, i, x) <==> y in s || y == x
  {
    var r := InsertAt(s, i, x);
    assert r[i] == x;
    forall y | y in s
      ensures y in r
    {
      var j :| 0 <= j < |s| && s[j] == y;
      assert r[if j < i then j else j + 1] == y;
    }
  }

  /** Below 2^31 a deadline neither wraps nor is replaced. */
  lemma SleepIs(c: Clock, task: nat, ms: nat, priority: nat)
    requires c.jiffies + Ticks(ms) < HALF
    ensures var d := c.jiffies + Ticks(ms);
      Sleep(c, task, ms, priority) == Clock(c.jiffies, InsertAt(c.list, InsertIndex(TickKeys(c.list), d), Sleeper(task, d)))
  {
    hide InsertIndex, TickKeys, InsertAt;
  }

  /** The deadlines of the list with one more put in. */
  lemma InsertedRange(list: seq<Sleeper>, i: nat, x: Sleeper, lo: nat)
    requires i <= |list| && lo <= x.ticks < HALF
    requires forall j :: 0 <= j < |list| ==> lo <= list[j].ticks < HALF
    ensures forall j :: 0 <= j < |InsertAt(list, i, x)| ==> lo <= InsertAt(list, i, x)[j].ticks < HALF
  {}

  lemma SleepInv(c: Clock, task: nat, ms: nat, priority: nat)
    requires Inv(c) && c.jiffies + Ticks(ms) < HALF
    ensures Inv(Sleep(c, task, ms, priority))
  {
    hide InsertIndex, Sleep, Ticks, InsertAt, TickKeys;
    var d := c.jiffies + Ticks(ms);
    var i := InsertIndex(TickKeys(c.list), d);
    SleepIs(c, task, ms, priority);
    InsertKeepsAscending(TickKeys(c.list), d);
    TickKeysOfInsert(c.list, i, Sleeper(task, d));
    InsertedRange(c.list, i, Sleeper(task, d), c.jiffies);
    hide Ascending;
  }

  lemma SleepMembers(c: Clock, task: nat, ms: nat, priority: nat)
    requires c.jiffies + Ticks(ms) < HALF
    ensures forall s :: s in Sleep(c, task, ms, priority).list <==> s in c.list || s == Sleeper(task, c.jiffies + Ticks(ms))
  {
    hide InsertIndex, Sleep, Ticks, InsertAt, TickKeys;
    var d := c.jiffies + Ticks(ms);
    SleepIs(c, task, ms, priority);
    InsertedMembers(c.list, InsertIndex(TickKeys(c.list), d), Sleeper(task, d));
  }

  /** What the interrupt leaves is sorted, and was behind the released sleepers. */
  lemma DropKeys(list: seq<Sleeper>, r: nat)
    requires r <= |list| && Ascending(TickKeys(list))
    ensures Ascending(TickKeys(list[r..]))
  {
    assert forall i :: 0 <= i < |list| - r ==> TickKeys(list[r..])[i] == TickKeys(list)[r + i];
  }

  lemma DueSplits(c: Clock)
    requires Inv(c)
    ensures forall i :: 0 <= i < |c.list| ==> (i < Due(c.list, c.jiffies) <==> c.list[i].ticks == c.jiffies)
  {
    var r := Due(c.list, c.jiffies);
    forall i | r <= i < |c.list|
      ensures c.list[i].ticks > c.jiffies
    {
      assert TickKeys(c.list)[r] <= TickKeys(c.list)[i];
    }
    hide TickKeys, Due;
  }

  /** What stays after the interrupt at `now` is what was not due then. */
  ghost predicate Dropped(list: seq<Sleeper>, rest: seq<Sleeper>, now: nat) {
    forall s :: s in rest <==> s in list && s.ticks != now
  }

  lemma SuffixMembers(list: seq<Sleeper>, r: nat, now: nat)
    requires r <= |list| && forall i :: 0 <= i < |list| ==> (i < r <==> list[i].ticks == now)
    ensures Dropped(list, list[r..], now)
  {
    forall s | s in list && s.ticks != now
      ensures s in list[r..]
    {
      var i :| 0 <= i < |list| && list[i] == s;
      assert list[r..][i - r] == s;
    }
  }

  lemma TickKeeps(c: Clock)
    requires Inv(c) && c.jiffies + 1 < HALF
    ensures Inv(Tick(c)) && Tick(c).jiffies == c.jiffies + 1
  {
    var r := Due(c.list, c.jiffies);
    DropKeys(c.list, r);
    DueSplits(c);
    assert Tick(c) == Clock(c.jiffies + 1, c.list[r..]);
    hide TickKeys, Due, Ascending, Tick;
  }

  /** The interrupt at `jiffies` releases exactly the sleepers whose deadline is that number. */
  lemma TickReleases(c: Clock)
    requires Inv(c) && c.jiffies + 1 < HALF
    ensures forall i :: 0 <= i < |c.list| ==> (i < Due(c.list, c.jiffies) <==> c.list[i].ticks == c.jiffies)
    ensures Dropped(c.list, Tick(c).list, c.jiffies)
  {
    DueSplits(c);
    hide TickKeys, Due, Ascending, Dropped, Inv;
    SuffixMembers(c.list, Due(c.list, c.jiffies), c.jiffies);
  }

  // ---------------------------------------------------------------- runs

  datatype Event = Sleeps(task: nat, ms: nat, priority: nat) | Interrupt

  /** All times stay below 2^31. */
  predicate InRange(c: Clock, e: Event) {
    match e
    case Sleeps(_, ms, _) => c.jiffies + Ticks(ms) < HALF
    case Interrupt => c.jiffies + 1 < HALF
  }

  function Do(c: Clock, e: Event): Clock {
    match e
    case Sleeps(task, ms, priority) => Sleep(c, task, ms, priority)
    case Interrupt => Tick(c)
  }

  ghost predicate Run(c: Clock, events: seq<Event>, c': Clock)
    decreases |events|
  {
    if events == [] then c' == c else InRange(c, events[0]) && Run(Do(c, events[0]), events[1..], c')
  }

  lemma DoKeeps(c: Clock, e: Event)
    requires Inv(c) && InRange(c, e)
    ensures Inv(Do(c, e)) && c.jiffies <= Do(c, e).jiffies
  {
    hide Inv, Sleep, Ticks, Tick;
    match e {
      case Sleeps(task, ms, priority) =>
        SleepInv(c, task, ms, priority);
        SleepIs(c, task, ms, priority);
      case Interrupt => TickKeeps(c);
    }
  }

  lemma {:induction false} RunKeeps(c: Clock, events: seq<Event>, c': Clock)
    requires Inv(c) && Run(c, events, c')
    ensures Inv(c')
    decreases |events|
  {
    hide Do, Inv, InRange;
    if events != [] {
      DoKeeps(c, events[0]);
      RunKeeps(Do(c, events[0]), events[1..], c');
    }
  }

  /** A step keeps every sleeper whose time is still ahead of the count behind it, and no other. */
  lemma StaysWhileAhead(c: Clock, e: Event, s: Sleeper)
    requires Inv(c) && InRange(c, e) && s in c.list
    ensures s in Do(c, e).list <==> s.ticks >= Do(c, e).jiffies
  {
    OnListIsAhead(c, s);
    hide Inv, Sleep, Ticks;
    match e {
      case Sleeps(task, ms, priority) =>
        SleepMembers(c, task, ms, priority);
        SleepIs(c, task, ms, priority);
      case Interrupt =>
        TickReleases(c);
        TickKeeps(c);
        hide Tick;
    }
  }

  /** Whatever other tasks do meanwhile, a sleeper stays on the list up to the interrupt that finds
      jiffies equal to its deadline, and is gone behind it. */
  lemma {:induction false} WokenOnTime(c: Clock, events: seq<Event>, c': Clock, s: Sleeper)
    requires Inv(c) && s in c.list && Run(c, events, c')
    ensures Inv(c')
    ensures s in c'.list <==> c'.jiffies <= s.ticks
    decreases |events|
  {
    hide Do, Inv, InRange;
    if events == [] {
      OnListIsAhead(c, s);
    } else {
      var c1 := Do(c, events[0]);
      DoKeeps(c, events[0]);
      StaysWhileAhead(c, events[0], s);
      if s in c1.list {
        WokenOnTime(c1, events[1..], c', s);
      } else {
        GoneStaysGone(c1, events[1..], c', s);
      }
    }
  }

  lemma OnListIsAhead(c: Clock, s: Sleeper)
    requires Inv(c) && s in c.list
    ensures c.jiffies <= s.ticks
  {}

  lemma {:induction false} GoneStaysGone(c: Clock, events: seq<Event>, c': Clock, s: Sleeper)
    requires Inv(c) && c.jiffies > s.ticks && Run(c, events, c')
    ensures Inv(c') && s !in c'.list && c'.jiffies > s.ticks
    decreases |events|
  {
    hide Do, Inv, InRange;
    if events == [] {
      NotBehind(c, s);
    } else {
      DoKeeps(c, events[0]);
      GoneStaysGone(Do(c, events[0]), events[1..], c', s);
    }
  }

  lemma NotBehind(c: Clock, s: Sleeper)
    requires Inv(c) && c.jiffies > s.ticks
    ensures s !in c.list
  {}

  /** A task that sleeps n ticks from time j is released in the interrupt where jiffies equals j + n. */
  lemma SleepsExactly(c: Clock, task: nat, ms: nat, priority: nat, events: seq<Event>, c': Clock)
    requires Inv(c) && c.jiffies + Ticks(ms) < HALF
    requires Run(Sleep(c, task, ms, priority), events, c')
    ensures Sleeper(task, c.jiffies + Ticks(ms)) in c'.list <==> c'.jiffies <= c.jiffies + Ticks(ms)
    ensures Ticks(ms) == if ms < 10 then 1 else ms / 10
  {
    SleepInv(c, task, ms, priority);
    SleepMembers(c, task, ms, priority);
    WokenOnTime(Sleep(c, task, ms, priority), events, c', Sleeper(task, c.jiffies + Ticks(ms)));
  }

  // ---------------------------------------------------------------- the object

  /** Linking a task in by the insertion sort is the sleep step. */
  lemma SleepElements(sleeper: map<Node, Sleeper>, nodes: seq<Node>, jiffies: nat, node: Node,
                      task: nat, ms: nat, priority: nat)
    requires Covers(sleeper, nodes) && node !in nodes
    ensures var list, deadline := Elements(sleeper, nodes), (jiffies + Ticks(ms)) % WORD;
      var i := InsertIndex(TickKeys(list), AsInt32(deadline));
      var x := Sleeper(task, if deadline == 0 then priority else deadline);
      var after := Elements(sleeper[node := x], InsertAt(nodes, i, node));
      && Covers(sleeper[node := x], InsertAt(nodes, i, node))
      && Clock(jiffies, after) == Sleep(Clock(jiffies, list), task, ms, priority)
      && TickKeys(after) == InsertAt(TickKeys(list), i, AsInt32(x.ticks))
      && InsertAt(nodes, i, node)[i] == node
  {
    var list, deadline := Elements(sleeper, nodes), (jiffies + Ticks(ms)) % WORD;
    var i := InsertIndex(TickKeys(list), AsInt32(deadline));
    var x := Sleeper(task, if deadline == 0 then priority else deadline);
    assert InsertAt(nodes, i, node)[i] == node;
    hide InsertIndex, AsInt32, InsertAt, Ticks;
    ElementsInsert(sleeper, nodes, i, node, x);
    TickKeysOfInsert(list, i, x);
    hide Elements, TickKeys;
  }

  /** The loop of task_wakeup has made the first sleepers ready, and goes on to release the due ones. */
  ghost predicate Progress(was: seq<Sleeper>, now: nat, ready: seq<Sleeper>, list: seq<Sleeper>) {
    && was == ready + list
    && Due(was, now) == |ready| + Due(list, now)
  }

  lemma ProgressStarts(was: seq<Sleeper>, now: nat)
    ensures Progress(was, now, [], was)
  {}

  lemma ProgressStep(was: seq<Sleeper>, now: nat, ready: seq<Sleeper>, list: seq<Sleeper>)
    requires Progress(was, now, ready, list) && list != [] && list[0].ticks <= now
    ensures Progress(was, now, ready + [list[0]], list[1..])
  {
    assert list == [list[0]] + list[1..];
    assert ready + list == (ready + [list[0]]) + list[1..];
  }

  lemma ProgressEnds(was: seq<Sleeper>, now: nat, ready: seq<Sleeper>, list: seq<Sleeper>)
    requires Progress(was, now, ready, list) && (list == [] || list[0].ticks > now)
    ensures ready == was[..Due(was, now)] && list == was[Due(was, now)..] && ready + list == was
  {}

  class SleepQueue {
    var jiffies: nat
    const list: List
    /** The task that a node is part of, with its deadline. */
    var sleeper: map<Node, Sleeper>

    ghost predicate Valid()
      reads this, list, list.chain
    {
      && list.Valid() && Covers(sleeper, list.Nodes())
      && list.Keys() == TickKeys(Elements(sleeper, list.Nodes()))
    }

    ghost function View(): Clock
      reads this, list, list.chain
      requires Valid()
    {
      Clock(jiffies, Elements(sleeper, list.Nodes()))
    }

    constructor ()
      ensures Valid() && View() == Clock(0, [])
    {
      list := new List();
      jiffies, sleeper := 0, map[];
    }

    /** The schedule call at the end of task_sleep replaces a deadline of zero where it stands. */
    method Rekey(node: Node, key: int, ghost i: nat)
      requires list.Valid() && i < |list.Nodes()| && list.Nodes()[i] == node
      modifies node`key
      ensures list.Valid() && list.Keys() == old(list.Keys())[i := key]
    {
      node.key := key;
    }

    /** The task's node goes in by its deadline; `ticks` is what its time is once it sleeps. */
    method Link(node: Node, deadline: nat, ticks: nat)
      requires list.Valid() && node !in list.chain && node.next == null && node.prev == null
      requires deadline != 0 ==> ticks == deadline
      modifies list`chain, list.chain, node
      ensures list.Valid()
      ensures var i := InsertIndex(old(list.Keys()), AsInt32(deadline));
        && list.Nodes() == InsertAt(old(list.Nodes()), i, node)
        && list.Keys() == InsertAt(old(list.Keys()), i, AsInt32(ticks))
    {
      ghost var i := InsertIndex(list.Keys(), AsInt32(deadline));
      InsertThenUpdate(list.Keys(), i, AsInt32(deadline), AsInt32(ticks));
      hide List.Valid, AsInt32, InsertIndex;
      node.key := AsInt32(deadline);
      list.InsertSort(node);
      if deadline == 0 {
        Rekey(node, AsInt32(ticks), i);
      }
    }

    /** task_sleep of the task whose node this is */
    method TaskSleep(node: Node, task: nat, ms: nat, priority: nat)
      requires Valid() && node !in list.chain && node.next == null && node.prev == null
      modifies this`sleeper, list`chain, list.chain, node
      ensures Valid() && View() == Sleep(old(View()), task, ms, priority)
      ensures node in list.Nodes()
    {
      hide InsertIndex, InsertAt, TickKeys, AsInt32, List.Valid, Elements, Sleep, Covers;
      assert |list.chain| >= 2 && node !in list.Nodes();
      SleepElements(sleeper, list.Nodes(), jiffies, node, task, ms, priority);
      var ticks := ms / JIFFY;
      if ticks == 0 {
        ticks := 1;
      }
      var deadline := (jiffies + ticks) % WORD;
      var time := if deadline == 0 then priority else deadline;
      assert deadline == (jiffies + Ticks(ms)) % WORD;
      hide Ticks;
      Link(node, deadline, time);
      sleeper := sleeper[node := Sleeper(task, time)];
    }

    /** What the pointer behind the head leads to. */
    lemma Front()
      requires Valid()
      ensures |list.chain| >= 2 && list.head.next == list.chain[1]
      ensures list.chain[1] == list.tail <==> View().list == []
      ensures View().list != [] ==>
        |list.chain| > 2 && list.chain[1] in sleeper && sleeper[list.chain[1]] == View().list[0]
    {
      list.Front();
    }

    /** task_unblock of the first sleeper, once the loop has stepped over its node. */
    method Release(node: Node) returns (next: Node, s: Sleeper)
      requires Valid() && View().list != [] && node == list.chain[1]
      modifies this`sleeper, list`chain, list.chain
      ensures Valid() && |list.chain| == old(|list.chain|) - 1 && list.chain[0] == old(list.chain[0])
      ensures forall i :: 0 < i < |list.chain| ==> list.chain[i] == old(list.chain)[i + 1]
      ensures s == old(View().list)[0] && View().list == old(View().list)[1..]
      ensures |list.chain| >= 2 && next == list.chain[1]
    {
      list.Neighbours(node, 0);
      ElementsRemove(sleeper, list.Nodes(), 0);
      hide List.Valid, Elements;
      next := node.next;
      s := sleeper[node];
      sleeper := sleeper - {node};
      list.Remove(node, 1);
      list.Unlinked(1);
    }

    /** task_wakeup; the tasks made ready, in order. */
    method TaskWakeup() returns (ready: seq<Sleeper>)
      requires Valid()
      modifies this`sleeper, list`chain, list.chain
      ensures Valid()
      ensures ready == old(View().list)[..Due(old(View().list), jiffies)]
      ensures View().list == old(View().list)[Due(old(View().list), jiffies)..]
      ensures ready + View().list == old(View().list)
    {
      hide *;
      ready := [];
      ghost var was := View().list;
      ghost var chain, n := list.chain, 0;
      Front();
      ProgressStarts(was, jiffies);
      var ptr := list.head.next;
      while ptr != list.tail
        invariant Valid() && |list.chain| >= 2 && ptr == list.chain[1]
        invariant |list.chain| == |chain| - n && list.chain[0] == chain[0]
        invariant forall i :: 0 < i < |list.chain| ==> list.chain[i] == chain[i + n]
        invariant Progress(was, jiffies, ready, View().list)
        decreases |list.chain|
      {
        Front();
        if sleeper[ptr].ticks > jiffies {
          break;
        }
        ProgressStep(was, jiffies, ready, View().list);
        var next, s := Release(ptr);
        ptr, n := next, n + 1;
        ready := ready + [s];
      }
      Front();
      ProgressEnds(was, jiffies, ready, View().list);
    }

    /** One more tick, in a 32-bit word. */
    method Count()
      requires Valid()
      modifies this`jiffies
      ensures Valid() && View() == Clock((old(jiffies) + 1) % WORD, old(View()).list)
    {
      jiffies := (jiffies + 1) % WORD;
    }

    /** clock_handler, as far as the sleepers and the count are concerned. */
    method ClockHandler() returns (ready: seq<Sleeper>)
      requires Valid()
      modifies this, list`chain, list.chain
      ensures Valid() && View() == Tick(old(View()))
      ensures ready + View().list == old(View().list)
    {
      hide Due, Valid;
      assert View().jiffies == jiffies;
      hide View;
      ready := TaskWakeup();
      Count();
    }
  }
}
