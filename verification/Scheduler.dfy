/** Blocking, sleeping, waking and switching in kernel/task.c and the clock interrupt of kernel/clock.c, over
    the table of 64 tasks, with slot 0 the idle task. */
module Schedulers {
  import opened Basics
  import opened Sequences
  import opened IntrusiveLists
  import Sleepers

  const NR_TASKS := 64
  const IDLE := 0
  const WORD := Sleepers.WORD
  const HALF := Sleepers.HALF

  /** TASK_BLOCKED and TASK_WAITING are one state here: off the processor, on a list of blocked tasks. */
  datatype State = Running | Ready | Blocked | Sleeping | Died

  /** `ticks` is a signed 32-bit number: the ticks left, or the deadline of a sleeping task. */
  datatype Task = Task(state: State, ticks: int, jiffies: nat, priority: int)

  /** The table, the running task, the blocked tasks, latest first, the sleep list, and the clock. */
  datatype Sys = Sys(t: seq<Option<Task>>, cur: nat, blocked: seq<nat>, asleep: seq<nat>, jiffies: nat)

  predicate StateIs(t: seq<Option<Task>>, i: nat, state: State) {
    i < |t| && t[i].Some? && t[i].value.state == state
  }

  // ---------------------------------------------------------------- task_search

  predicate Candidate(t: seq<Option<Task>>, cur: nat, i: nat) {
    StateIs(t, i, Ready) && i != cur
  }

  /** The test that makes the search move on from task a to task b. */
  predicate Preferred(t: seq<Option<Task>>, a: nat, b: nat) {
    a < |t| && b < |t| && t[a].Some? && t[b].Some? &&
    (t[a].value.ticks < t[b].value.ticks || t[b].value.jiffies < t[a].value.jiffies)
  }

  /** The loop of task_search from slot i on, with the best so far. */
  function Search(t: seq<Option<Task>>, cur: nat, i: nat, best: Option<nat>): Option<nat>
    decreases |t| - i
  {
    if i >= |t| then best
    else if Candidate(t, cur, i) && (best.None? || Preferred(t, best.value, i)) then Search(t, cur, i + 1, Some(i))
    else Search(t, cur, i + 1, best)
  }

  /** The result is a ready task other than the running one, none exactly if there is none, and no later
      candidate is preferred to it. */
  lemma {:induction false} SearchMeans(t: seq<Option<Task>>, cur: nat, i: nat, best: Option<nat>)
    requires best.Some? ==> Candidate(t, cur, best.value) && best.value < i
    ensures var r := Search(t, cur, i, best);
      && (r.None? <==> best.None? && forall j: nat :: i <= j ==> !Candidate(t, cur, j))
      && (r.Some? ==> Candidate(t, cur, r.value) && (r == best || r.value >= i))
      && (r.Some? ==> forall j: nat :: i <= j && r.value < j && Candidate(t, cur, j) ==> !Preferred(t, r.value, j))
    decreases |t| - i
  {
    if i < |t| {
      var next := if Candidate(t, cur, i) && (best.None? || Preferred(t, best.value, i)) then Some(i) else best;
      SearchMeans(t, cur, i + 1, next);
    }
  }

  // ---------------------------------------------------------------- when the search is right

  /** Every earlier candidate yields to r, and r yields to no later one. */
  ghost predicate Best(t: seq<Option<Task>>, cur: nat, r: nat) {
    && Candidate(t, cur, r)
    && (forall e: nat :: e < r && Candidate(t, cur, e) ==> Preferred(t, e, r))
    && (forall l: nat :: r < l && Candidate(t, cur, l) ==> !Preferred(t, r, l))
  }

  /** x has more ticks left than r and has waited longer. */
  predicate Dominates(t: seq<Option<Task>>, x: nat, r: nat) {
    x < |t| && r < |t| && t[x].Some? && t[r].Some?
    && t[x].value.ticks > t[r].value.ticks && t[x].value.jiffies < t[r].value.jiffies
  }

  lemma BestIsUndominated(t: seq<Option<Task>>, cur: nat, r: nat, x: nat)
    requires Best(t, cur, r) && Candidate(t, cur, x)
    ensures !Dominates(t, x, r)
  {
    assert x < r ==> Preferred(t, x, r);
    assert r < x ==> !Preferred(t, r, x);
  }

  /** The search finds the best candidate if there is one. */
  lemma {:induction false} SearchFindsBest(t: seq<Option<Task>>, cur: nat, i: nat, best: Option<nat>, r: nat)
    requires Best(t, cur, r) && (i <= r || best == Some(r))
    requires best.Some? ==> Candidate(t, cur, best.value) && best.value < i
    ensures Search(t, cur, i, best) == Some(r)
    decreases |t| - i
  {
    if i < |t| {
      var next := if Candidate(t, cur, i) && (best.None? || Preferred(t, best.value, i)) then Some(i) else best;
      assert i == r && best.Some? ==> Preferred(t, best.value, r);
      SearchFindsBest(t, cur, i + 1, next, r);
    }
  }

  /** b makes the search move on from a, and c from b, although c alone would not have replaced a. */
  ghost predicate Cycle(t: seq<Option<Task>>, cur: nat, a: nat, b: nat, c: nat) {
    && a < b < c && Candidate(t, cur, a) && Candidate(t, cur, b) && Candidate(t, cur, c)
    && Preferred(t, a, b) && Preferred(t, b, c) && !Preferred(t, a, c)
  }

  /** b is best among the candidates below slot i. */
  ghost predicate BestBelow(t: seq<Option<Task>>, cur: nat, b: nat, i: nat) {
    && b < i && Candidate(t, cur, b)
    && (forall e: nat :: e < b && Candidate(t, cur, e) ==> Preferred(t, e, b))
    && (forall l: nat :: b < l < i && Candidate(t, cur, l) ==> !Preferred(t, b, l))
  }

  lemma {:induction false} NoCycleFindsBest(t: seq<Option<Task>>, cur: nat, i: nat, best: Option<nat>)
    requires forall a, b, c :: !Cycle(t, cur, a, b, c)
    requires if best.Some? then BestBelow(t, cur, best.value, i) else forall j: nat :: j < i ==> !Candidate(t, cur, j)
    ensures var r := Search(t, cur, i, best);
      if r.Some? then Best(t, cur, r.value) else forall j: nat :: !Candidate(t, cur, j)
    decreases |t| - i
  {
    if i < |t| {
      var next := if Candidate(t, cur, i) && (best.None? || Preferred(t, best.value, i)) then Some(i) else best;
      if next == Some(i) && best.Some? {
        MovesOn(t, cur, best.value, i);
      }
      NoCycleFindsBest(t, cur, i + 1, next);
    }
  }

  /** Without cycles all that yielded to b, or that b did not yield to, yields to i if b does. */
  lemma MovesOn(t: seq<Option<Task>>, cur: nat, b: nat, i: nat)
    requires forall a, b, c :: !Cycle(t, cur, a, b, c)
    requires BestBelow(t, cur, b, i) && Candidate(t, cur, i) && Preferred(t, b, i)
    ensures BestBelow(t, cur, i, i + 1)
  {
    forall e: nat | e < i && Candidate(t, cur, e)
      ensures Preferred(t, e, i)
    {
      assert !Cycle(t, cur, e, b, i);
      assert b < e ==> !Preferred(t, b, e);
    }
  }

  lemma {:induction false} SearchSkips(t: seq<Option<Task>>, cur: nat, i: nat, j: nat, best: Option<nat>)
    requires i <= j && forall k: nat :: i <= k < j ==> !Candidate(t, cur, k)
    ensures Search(t, cur, i, best) == Search(t, cur, j, best)
    decreases j - i
  {
    if i < j {
      SearchSkips(t, cur, i + 1, j, best);
      if i >= |t| {
        assert Search(t, cur, j, best) == best;
      }
    }
  }

  /** With the three tasks of a cycle ready and no other, the search ends on the last, which the first does
      not yield to. */
  lemma CycleMisleads(t: seq<Option<Task>>, cur: nat, a: nat, b: nat, c: nat)
    requires Cycle(t, cur, a, b, c) && forall j: nat :: Candidate(t, cur, j) ==> j == a || j == b || j == c
    ensures Search(t, cur, 0, None) == Some(c) && !Best(t, cur, c)
  {
    SearchSkips(t, cur, 0, a, None);
    SearchSkips(t, cur, a + 1, b, Some(a));
    SearchSkips(t, cur, b + 1, c, Some(b));
    SearchSkips(t, cur, c + 1, |t|, Some(c));
  }

  /** The table when, of the ready tasks, only those in `ready` are. */
  function Only(t: seq<Option<Task>>, ready: set<nat>): (r: seq<Option<Task>>)
    ensures |r| == |t|
  {
    seq(|t|, i requires 0 <= i < |t| =>
      if t[i].Some? && t[i].value.state.Ready? && i !in ready then Some(WithState(t[i].value, Blocked)) else t[i])
  }

  lemma OnlyKeeps(t: seq<Option<Task>>, ready: set<nat>, cur: nat)
    ensures forall i: nat :: Candidate(Only(t, ready), cur, i) <==> Candidate(t, cur, i) && i in ready
    ensures forall i: nat, j: nat :: Preferred(Only(t, ready), i, j) <==> Preferred(t, i, j)
  {}

  /** The search ends on the best candidate. */
  ghost predicate FindsBest(t: seq<Option<Task>>, cur: nat) {
    var r := Search(t, cur, 0, None);
    if r.Some? then Best(t, cur, r.value) else forall j: nat :: !Candidate(t, cur, j)
  }

  /** On a given table the search is right exactly if a best candidate exists, or no candidate at all. */
  lemma SearchIsRightExactly(t: seq<Option<Task>>, cur: nat)
    ensures FindsBest(t, cur) <==>
      (exists r: nat :: Best(t, cur, r)) || forall j: nat :: !Candidate(t, cur, j)
  {
    SearchMeans(t, cur, 0, None);
    if r: nat :| Best(t, cur, r) {
      SearchFindsBest(t, cur, 0, None, r);
    }
    hide Search;
  }

  /** The tasks of a table can be scheduled by this search, whichever of them happen to be ready, if and only if
      no three of them form a cycle. */
  lemma SearchIsFairExactly(t: seq<Option<Task>>, cur: nat)
    ensures (forall ready: set<nat> :: FindsBest(Only(t, ready), cur)) <==> (forall a, b, c :: !Cycle(t, cur, a, b, c))
  {
    hide Search, Only;
    if a, b, c :| Cycle(t, cur, a, b, c) {
      var ready: set<nat> := {a, b, c};
      OnlyKeeps(t, ready, cur);
      CycleMisleads(Only(t, ready), cur, a, b, c);
      assert !FindsBest(Only(t, ready), cur);
    } else {
      forall ready: set<nat>
        ensures FindsBest(Only(t, ready), cur)
      {
        OnlyKeeps(t, ready, cur);
        forall a: nat, b: nat, c: nat
          ensures !Cycle(Only(t, ready), cur, a, b, c)
        {
          assert !Cycle(t, cur, a, b, c);
        }
        NoCycleFindsBest(Only(t, ready), cur, 0, None);
      }
    }
  }

  // ---------------------------------------------------------------- the steps

  function Choice(s: Sys): nat {
    var r := Search(s.t, s.cur, 0, None);
    if r.Some? then r.value else IDLE
  }

  /** What schedule does to the task that gives up the processor. */
  function Parked(task: Task): Task {
    Task(if task.state.Running? then Ready else task.state, if task.ticks == 0 then task.priority else task.ticks,
         task.jiffies, task.priority)
  }

  function WithState(task: Task, state: State): Task {
    Task(state, task.ticks, task.jiffies, task.priority)
  }

  predicate Present(s: Sys, i: nat) {
    i < |s.t| && s.t[i].Some?
  }

  /** schedule */
  function Schedule(s: Sys): Option<Sys> {
    var next := Choice(s);
    if !Present(s, s.cur) || !Present(s, next) then None
    else
      var parked := s.t[s.cur := Some(Parked(s.t[s.cur].value))];
      Some(Sys(parked[next := Some(WithState(parked[next].value, Running))], next, s.blocked, s.asleep, s.jiffies))
  }

  /** The running task is there and its list node is free, as the list operations assert. */
  predicate Unlisted(s: Sys) {
    Present(s, s.cur) && s.cur !in s.blocked && s.cur !in s.asleep
  }

  /** task_block of the running task; None where an assertion fails. */
  function Block(s: Sys): Option<Sys> {
    if !Unlisted(s) then None
    else Schedule(Sys(s.t[s.cur := Some(WithState(s.t[s.cur].value, Blocked))], s.cur, [s.cur] + s.blocked, s.asleep,
                      s.jiffies))
  }

  /** task_unblock of a blocked task */
  function Unblock(s: Sys, i: nat): Option<Sys> {
    if !Present(s, i) || i !in s.blocked then None
    else Some(Sys(s.t[i := Some(WithState(s.t[i].value, Ready))], s.cur, Without(s.blocked, i), s.asleep, s.jiffies))
  }

  /** The keys by which the sleep list is sorted. */
  function Deadlines(s: Sys): (r: seq<int>)
    ensures |r| == |s.asleep|
    ensures forall i :: 0 <= i < |r| ==> r[i] == TicksOf(s.t, s.asleep[i])
  {
    seq(|s.asleep|, i requires 0 <= i < |s.asleep| => TicksOf(s.t, s.asleep[i]))
  }

  function TicksOf(t: seq<Option<Task>>, i: nat): int {
    if i < |t| && t[i].Some? then t[i].value.ticks else 0
  }

  /** The task that gives up the processor until `deadline`. */
  function Slept(task: Task, deadline: int): Task {
    Task(Sleeping, deadline, task.jiffies, task.priority)
  }

  /** task_sleep of the running task up to its call of schedule. */
  function LieDown(s: Sys, ms: nat): Sys
    requires Present(s, s.cur)
  {
    var deadline := AsInt32((s.jiffies + Sleepers.Ticks(ms)) % WORD);
    Sys(s.t[s.cur := Some(Slept(s.t[s.cur].value, deadline))], s.cur, s.blocked,
        InsertAt(s.asleep, InsertIndex(Deadlines(s), deadline), s.cur), s.jiffies)
  }

  /** task_sleep; None where an assertion fails. */
  function Sleep(s: Sys, ms: nat): Option<Sys> {
    if !Unlisted(s) then None else Schedule(LieDown(s, ms))
  }

  /** A signed number compared with a clock reading is read as unsigned. */
  function AsWord(n: int): nat {
    n % WORD
  }

  function Awake(task: Task): Task {
    Task(Ready, 0, task.jiffies, task.priority)
  }

  /** task_wakeup makes the first sleeper ready. */
  function Released(s: Sys): Sys
    requires s.asleep != [] && Present(s, s.asleep[0])
  {
    Sys(s.t[s.asleep[0] := Some(Awake(s.t[s.asleep[0]].value))], s.cur, s.blocked, s.asleep[1..], s.jiffies)
  }

  /** task_wakeup: the loop over the sleep list, with its early end. */
  function Wakeup(s: Sys): Sys
    decreases |s.asleep|
  {
    if s.asleep == [] || !Present(s, s.asleep[0]) || AsWord(s.t[s.asleep[0]].value.ticks) > s.jiffies then s
    else Wakeup(Released(s))
  }

  /** One tick less, in 32 bits. */
  function Decreased(ticks: int): int {
    if ticks == -HALF then HALF - 1 else ticks - 1
  }

  /** clock_handler behind the wakeup, up to its test of the ticks left. */
  function Count(s: Sys): Sys
    requires Present(s, s.cur)
  {
    var now := (s.jiffies + 1) % WORD;
    var task := s.t[s.cur].value;
    Sys(s.t[s.cur := Some(Task(task.state, Decreased(task.ticks), now, task.priority))], s.cur, s.blocked, s.asleep, now)
  }

  /** clock_handler: wake the sleepers, count, and switch when the running task has no tick left. */
  function Interrupt(s: Sys): Option<Sys> {
    var woken := Wakeup(s);
    if !Present(woken, woken.cur) then None
    else if TicksOf(Count(woken).t, woken.cur) == 0 then Schedule(Count(woken))
    else Some(Count(woken))
  }

  /** task_fork by the running task; None where its assertion fails or the table is full. */
  function Fork(s: Sys): Option<Sys> {
    if !StateIs(s.t, s.cur, Running) || !Unlisted(s) then None
    else match FirstFree(s.t, 0)
      case None => None
      case Some(i) =>
        var task := s.t[s.cur].value;
        Some(Sys(s.t[i := Some(Task(Ready, task.priority, task.jiffies, task.priority))], s.cur, s.blocked, s.asleep,
                 s.jiffies))
  }

  /** task_waitpid takes a dead task off the table. */
  function Reap(s: Sys, i: nat): Option<Sys> {
    if !StateIs(s.t, i, Died) then None else Some(Sys(s.t[i := None], s.cur, s.blocked, s.asleep, s.jiffies))
  }

  /** The end of task_exit. */
  function Exit(s: Sys): Option<Sys> {
    if !Present(s, s.cur) then None
    else Schedule(Sys(s.t[s.cur := Some(WithState(s.t[s.cur].value, Died))], s.cur, s.blocked, s.asleep, s.jiffies))
  }

  // ---------------------------------------------------------------- the invariant

  predicate OnList(list: seq<nat>, i: nat) {
    i in list
  }

  /** The numbers of a task fit their 32 bits, and it has a priority. */
  predicate Sane(task: Task) {
    -HALF <= task.ticks < HALF && 0 < task.priority < HALF && task.jiffies < WORD
  }

  /** The blocked tasks and the sleeping ones are just those on the lists, each sleeper once; the idle task is
      always there to fall back on. */
  ghost predicate Listed(s: Sys) {
    && |s.t| == NR_TASKS && s.jiffies < WORD
    && (forall i: nat :: OnList(s.blocked, i) <==> StateIs(s.t, i, Blocked))
    && (forall i: nat :: OnList(s.asleep, i) <==> StateIs(s.t, i, Sleeping))
    && Distinct(s.asleep)
    && (forall i: nat :: i < |s.t| && s.t[i].Some? ==> Sane(s.t[i].value))
    && (StateIs(s.t, IDLE, Running) || StateIs(s.t, IDLE, Ready))
  }

  /** Besides, exactly the running task is in state RUNNING. */
  ghost predicate Inv(s: Sys) {
    Listed(s) && forall i: nat :: StateIs(s.t, i, Running) <==> i == s.cur
  }

  /** The state schedule starts from: the running task may have left its state already. */
  ghost predicate Leaving(s: Sys) {
    && Listed(s) && Present(s, s.cur) && !s.t[s.cur].value.state.Ready?
    && (forall i: nat :: StateIs(s.t, i, Running) ==> i == s.cur)
  }

  /** One slot of the table changes, and the lists with it. */
  lemma ChangeListed(s: Sys, s': Sys, i: nat)
    requires Listed(s) && i < |s.t| && |s'.t| == |s.t| && s'.jiffies < WORD
    requires forall j: nat :: j < |s.t| && j != i ==> s'.t[j] == s.t[j]
    requires forall j: nat :: j != i ==> (OnList(s'.blocked, j) <==> OnList(s.blocked, j))
    requires forall j: nat :: j != i ==> (OnList(s'.asleep, j) <==> OnList(s.asleep, j))
    requires OnList(s'.blocked, i) <==> StateIs(s'.t, i, Blocked)
    requires OnList(s'.asleep, i) <==> StateIs(s'.t, i, Sleeping)
    requires Distinct(s'.asleep) && (s'.t[i].Some? ==> Sane(s'.t[i].value))
    requires i == IDLE ==> StateIs(s'.t, IDLE, Running) || StateIs(s'.t, IDLE, Ready)
    ensures Listed(s')
    ensures forall j: nat, state :: j != i ==> (StateIs(s'.t, j, state) <==> StateIs(s.t, j, state))
  {
    hide OnList, Distinct, Sane;
    forall j: nat
      ensures OnList(s'.blocked, j) <==> StateIs(s'.t, j, Blocked)
      ensures OnList(s'.asleep, j) <==> StateIs(s'.t, j, Sleeping)
    {
      assert OnList(s.blocked, j) <==> StateIs(s.t, j, Blocked);
      assert OnList(s.asleep, j) <==> StateIs(s.t, j, Sleeping);
    }
  }

  /** schedule picks a ready task if there is one besides the running one, the idle task otherwise, and
      leaves exactly that one running; it touches neither the lists nor the clock nor any third task. */
  lemma ScheduleKeeps(s: Sys)
    requires Leaving(s)
    ensures Schedule(s).Some? && Inv(Schedule(s).value)
    ensures var s' := Schedule(s).value;
      && (Candidate(s.t, s.cur, s'.cur) || (s'.cur == IDLE == s.cur))
      && ((exists i: nat :: Candidate(s.t, s.cur, i)) ==> s'.cur != s.cur)
      && (forall i: nat :: i != s'.cur && i != s.cur && i < |s.t| ==> s'.t[i] == s.t[i])
      && (s.cur != s'.cur && s.t[s.cur].value.state.Running? ==> StateIs(s'.t, s.cur, Ready))
      && s'.blocked == s.blocked && s'.asleep == s.asleep && s'.jiffies == s.jiffies
  {
    SearchMeans(s.t, s.cur, 0, None);
    var next := Choice(s);
    if s.cur != IDLE {
      assert Candidate(s.t, s.cur, IDLE);
    }
    var mid := Sys(s.t[s.cur := Some(Parked(s.t[s.cur].value))], s.cur, s.blocked, s.asleep, s.jiffies);
    var s' := Schedule(s).value;
    hide Search, OnList, Distinct;
    assert OnList(s.blocked, s.cur) <==> StateIs(s.t, s.cur, Blocked);
    assert OnList(s.asleep, s.cur) <==> StateIs(s.t, s.cur, Sleeping);
    ChangeListed(s, mid, s.cur);
    assert OnList(s.blocked, next) <==> StateIs(s.t, next, Blocked);
    assert OnList(s.asleep, next) <==> StateIs(s.t, next, Sleeping);
    ChangeListed(mid, s', next);
  }

  /** What schedule does to ticks: the task that gives up the processor gets its priority if it has none left, and no
      other number of any task changes. */
  lemma ScheduleTicks(s: Sys, i: nat)
    requires Leaving(s) && i < |s.t| && s.t[i].Some?
    ensures Schedule(s).Some? && i < |Schedule(s).value.t| && Schedule(s).value.t[i].Some?
    ensures var before, after := s.t[i].value, Schedule(s).value.t[i].value;
      && after.ticks == (if i == s.cur && before.ticks == 0 then before.priority else before.ticks)
      && after.priority == before.priority && after.jiffies == before.jiffies
  {
    ScheduleKeeps(s);
    hide Choice;
  }

  /** What is running is on no list. */
  lemma RunningIsUnlisted(s: Sys)
    requires Inv(s)
    ensures Unlisted(s) && StateIs(s.t, s.cur, Running)
  {
    assert StateIs(s.t, s.cur, Running);
    assert !OnList(s.blocked, s.cur) && !OnList(s.asleep, s.cur);
  }

  lemma BlockKeeps(s: Sys)
    requires Inv(s) && s.cur != IDLE
    ensures Block(s).Some? && Inv(Block(s).value)
    ensures var s' := Block(s).value; OnList(s'.blocked, s.cur) && StateIs(s.t, s'.cur, Ready)
    ensures Block(s).value.asleep == s.asleep && Block(s).value.jiffies == s.jiffies
  {
    RunningIsUnlisted(s);
    var mid := Sys(s.t[s.cur := Some(WithState(s.t[s.cur].value, Blocked))], s.cur, [s.cur] + s.blocked, s.asleep, s.jiffies);
    ChangeListed(s, mid, s.cur);
    ScheduleKeeps(mid);
  }

  /** The assertions of task_unblock hold for a blocked task, which becomes ready and leaves its list. */
  lemma UnblockKeeps(s: Sys, i: nat)
    requires Inv(s) && StateIs(s.t, i, Blocked)
    ensures Unblock(s, i).Some? && Inv(Unblock(s, i).value)
    ensures StateIs(Unblock(s, i).value.t, i, Ready) && Unblock(s, i).value.cur == s.cur
  {
    RunningIsUnlisted(s);
    assert OnList(s.blocked, i) && !OnList(s.asleep, i);
    var s' := Unblock(s, i).value;
    ChangeListed(s, s', i);
  }

  lemma ExitKeeps(s: Sys)
    requires Inv(s) && s.cur != IDLE
    ensures Exit(s).Some? && Inv(Exit(s).value)
    ensures StateIs(s.t, Exit(s).value.cur, Ready) && StateIs(Exit(s).value.t, s.cur, Died)
    ensures Exit(s).value.asleep == s.asleep && Exit(s).value.jiffies == s.jiffies
  {
    RunningIsUnlisted(s);
    var mid := Sys(s.t[s.cur := Some(WithState(s.t[s.cur].value, Died))], s.cur, s.blocked, s.asleep, s.jiffies);
    ChangeListed(s, mid, s.cur);
    ScheduleKeeps(mid);
  }

  /** Task i of s' has the priority of the running task of s, and as many ticks left. */
  predicate FullSlice(s: Sys, s': Sys, i: nat) {
    && Present(s, s.cur) && Present(s', i)
    && s'.t[i].value.ticks == s'.t[i].value.priority == s.t[s.cur].value.priority
  }

  /** The assertion of task_fork holds; the child is ready in a slot that was empty, with a full time slice. */
  lemma ForkKeeps(s: Sys)
    requires Inv(s)
    ensures Fork(s).None? <==> forall i :: 0 <= i < |s.t| ==> s.t[i].Some?
    ensures Fork(s).Some? ==> Inv(Fork(s).value) && Fork(s).value.cur == s.cur
    ensures Fork(s).Some? ==>
      exists i: nat :: i < |s.t| && s.t[i].None? && StateIs(Fork(s).value.t, i, Ready) && FullSlice(s, Fork(s).value, i)
  {
    RunningIsUnlisted(s);
    if Fork(s).Some? {
      var s', i := Fork(s).value, FirstFree(s.t, 0).value;
      assert StateIs(s'.t, i, Ready) && FullSlice(s, s', i);
      assert !StateIs(s.t, i, Blocked) && !StateIs(s.t, i, Sleeping) && !OnList(s.blocked, i) && !OnList(s.asleep, i);
      ChangeListed(s, s', i);
    }
  }

  lemma ReapKeeps(s: Sys, i: nat)
    requires Inv(s) && StateIs(s.t, i, Died)
    ensures Reap(s, i).Some? && Inv(Reap(s, i).value)
  {
    RunningIsUnlisted(s);
    var s' := Reap(s, i).value;
    assert !OnList(s.blocked, i) && !OnList(s.asleep, i);
    ChangeListed(s, s', i);
  }

  lemma InsertOnList(list: seq<nat>, i: nat, x: nat)
    requires i <= |list|
    ensures forall y: nat :: OnList(InsertAt(list, i, x), y) <==> OnList(list, y) || y == x
  {
    Sleepers.InsertedMembers(list, i, x);
  }

  /** A task that sleeps is off the processor and on the sleep list. */
  lemma SleepKeeps(s: Sys, ms: nat)
    requires Inv(s) && s.cur != IDLE
    ensures Unlisted(s) && Leaving(LieDown(s, ms)) && Sleep(s, ms) == Schedule(LieDown(s, ms))
    ensures Sleep(s, ms).Some? && Inv(Sleep(s, ms).value)
    ensures OnList(Sleep(s, ms).value.asleep, s.cur) && StateIs(s.t, Sleep(s, ms).value.cur, Ready)
  {
    RunningIsUnlisted(s);
    hide InsertIndex, Sleepers.Ticks;
    var deadline := AsInt32((s.jiffies + Sleepers.Ticks(ms)) % WORD);
    var mid := LieDown(s, ms);
    InsertDistinct(s.asleep, InsertIndex(Deadlines(s), deadline), s.cur);
    InsertOnList(s.asleep, InsertIndex(Deadlines(s), deadline), s.cur);
    hide InsertAt, Distinct, OnList, Deadlines;
    ChangeListed(s, mid, s.cur);
    ScheduleKeeps(mid);
  }

  lemma ReleaseKeeps(s: Sys)
    requires Inv(s) && s.asleep != []
    ensures StateIs(s.t, s.asleep[0], Sleeping) && s.asleep[0] != s.cur && Inv(Released(s))
  {
    RunningIsUnlisted(s);
    var i := s.asleep[0];
    assert OnList(s.asleep, i);
    assert StateIs(s.t, i, Sleeping) && !OnList(s.blocked, i);
    assert s.asleep == [i] + s.asleep[1..];
    ChangeListed(s, Released(s), i);
  }

  /** Every sleeper that is released is ready, with no tick left; nobody else notices. */
  lemma {:induction false} WakeupKeeps(s: Sys)
    requires Inv(s)
    ensures Inv(Wakeup(s)) && Wakeup(s).cur == s.cur && Wakeup(s).jiffies == s.jiffies
    ensures Wakeup(s).blocked == s.blocked && |Wakeup(s).t| == |s.t|
    ensures forall i: nat :: i < |s.t| && !StateIs(s.t, i, Sleeping) ==> Wakeup(s).t[i] == s.t[i]
    decreases |s.asleep|
  {
    if s.asleep != [] && Present(s, s.asleep[0]) && AsWord(s.t[s.asleep[0]].value.ticks) <= s.jiffies {
      ReleaseKeeps(s);
      hide Inv;
      WakeupKeeps(Released(s));
    }
  }

  /** The interrupt takes one tick from the running task, and the processor if that was its last. */
  lemma InterruptKeeps(s: Sys)
    requires Inv(s)
    ensures Wakeup(s).cur == s.cur && Present(Wakeup(s), s.cur) && Inv(Count(Wakeup(s)))
    ensures Interrupt(s).Some? && Inv(Interrupt(s).value)
    ensures Interrupt(s).value.jiffies == (s.jiffies + 1) % WORD
    ensures Decreased(TicksOf(s.t, s.cur)) != 0 ==>
      Interrupt(s).value.cur == s.cur && TicksOf(Interrupt(s).value.t, s.cur) == Decreased(TicksOf(s.t, s.cur))
    ensures Decreased(TicksOf(s.t, s.cur)) == 0 ==> Interrupt(s) == Schedule(Count(Wakeup(s)))
  {
    WakeupKeeps(s);
    var woken := Wakeup(s);
    RunningIsUnlisted(s);
    assert !StateIs(s.t, s.cur, Sleeping);
    RunningIsUnlisted(woken);
    hide Wakeup;
    var mid := Count(woken);
    ChangeListed(woken, mid, s.cur);
    RunningIsUnlisted(mid);
    ScheduleKeeps(mid);
  }

  // ---------------------------------------------------------------- runs

  datatype Step = Yields | Blocks | Sleeps(ms: nat) | Wakes(i: nat) | Exits | Forks | Reaps(i: nat) | Ticks

  /** The idle task neither blocks nor sleeps nor exits; only blocked tasks are woken by others, only dead ones
      reaped; the clock may interrupt at any time. */
  predicate Can(s: Sys, step: Step) {
    match step
    case Yields => true
    case Blocks => s.cur != IDLE
    case Sleeps(_) => s.cur != IDLE
    case Wakes(i) => StateIs(s.t, i, Blocked)
    case Exits => s.cur != IDLE
    case Forks => true
    case Reaps(i) => StateIs(s.t, i, Died)
    case Ticks => true
  }

  function Do(s: Sys, step: Step): Option<Sys> {
    match step
    case Yields => Schedule(s)
    case Blocks => Block(s)
    case Sleeps(ms) => Sleep(s, ms)
    case Wakes(i) => Unblock(s, i)
    case Exits => Exit(s)
    case Forks => Fork(s)
    case Reaps(i) => Reap(s, i)
    case Ticks => Interrupt(s)
  }

  /** The kernel halts on a fork with a full table, and on no other step. */
  ghost predicate HaltsOnlyFull(s: Sys, step: Step) {
    Do(s, step).None? <==> step.Forks? && forall i :: 0 <= i < |s.t| ==> s.t[i].Some?
  }

  lemma StepKeeps(s: Sys, step: Step)
    requires Inv(s) && Can(s, step)
    ensures HaltsOnlyFull(s, step)
    ensures Do(s, step).Some? ==> Inv(Do(s, step).value)
  {
    match step {
      case Yields =>
        RunningIsUnlisted(s);
        ScheduleKeeps(s);
      case Blocks => BlockKeeps(s);
      case Sleeps(ms) => SleepKeeps(s, ms);
      case Wakes(i) => UnblockKeeps(s, i);
      case Exits => ExitKeeps(s);
      case Forks => ForkKeeps(s);
      case Reaps(i) => ReapKeeps(s, i);
      case Ticks => InterruptKeeps(s);
    }
  }

  ghost predicate Run(s: Sys, steps: seq<Step>, s': Sys)
    decreases |steps|
  {
    if steps == [] then s' == s
    else Can(s, steps[0]) && Do(s, steps[0]).Some? && Run(Do(s, steps[0]).value, steps[1..], s')
  }

  lemma {:induction false} RunKeeps(s: Sys, steps: seq<Step>, s': Sys)
    requires Inv(s) && Run(s, steps, s')
    ensures Inv(s')
    decreases |steps|
  {
    hide Inv, Do, Can;
    if steps != [] {
      StepKeeps(s, steps[0]);
      RunKeeps(Do(s, steps[0]).value, steps[1..], s');
    }
  }

  // ---------------------------------------------------------------- from boot

  function Fresh(priority: int): Task {
    Task(Ready, priority, 0, priority)
  }

  /** The table task_init leaves: idle, init and test. */
  function InitTable(): (t: seq<Option<Task>>)
    ensures |t| == NR_TASKS && t[0] == Some(Fresh(1)) && t[1] == Some(Fresh(5)) && t[2] == Some(Fresh(5))
    ensures forall i :: 3 <= i < NR_TASKS ==> t[i] == None
  {
    seq(NR_TASKS, i => if i == 0 then Some(Fresh(1)) else if i <= 2 then Some(Fresh(5)) else None)
  }

  /** The boot code is no task of the table; the first schedule gives the processor to init, in slot 1. */
  lemma FirstSwitch()
    ensures Search(InitTable(), NR_TASKS, 0, None) == Some(1)
  {
    var t := InitTable();
    assert Best(t, NR_TASKS, 1) by {
      assert forall j: nat :: Candidate(t, NR_TASKS, j) ==> j < 3;
      assert Candidate(t, NR_TASKS, 1) && Preferred(t, 0, 1) && !Preferred(t, 1, 2);
    }
    SearchFindsBest(t, NR_TASKS, 0, None, 1);
  }

  /** The system after that first switch. */
  function Booted(): Sys {
    Sys(InitTable()[1 := Some(WithState(Fresh(5), Running))], 1, [], [], 0)
  }

  /** Three tasks: idle with one tick, init, which is running, and test with five each. */
  lemma BootTable()
    ensures var t := Booted().t;
      && |t| == 64 && t[0] == Some(Task(Ready, 1, 0, 1)) && t[1] == Some(Task(Running, 5, 0, 5))
      && t[2] == Some(Task(Ready, 5, 0, 5)) && forall i :: 3 <= i < 64 ==> t[i] == None
  {}

  lemma BootInv()
    ensures Inv(Booted())
  {
    var s := Booted();
    forall i: nat
      ensures StateIs(s.t, i, Running) <==> i == 1
      ensures !StateIs(s.t, i, Blocked) && !StateIs(s.t, i, Sleeping)
    {
      assert i < 3 || i >= NR_TASKS || s.t[i] == None;
    }
    assert StateIs(s.t, IDLE, Ready);
  }

  /** Over every run from boot of yields, blocks, sleeps, wakeups, exits, forks, reaps and clock interrupts: exactly one
      task is running, the blocked and the sleeping tasks are just those on the lists, and the kernel halts only on
      a fork with a full table. */
  lemma OneTaskRuns(steps: seq<Step>, s: Sys)
    requires Run(Booted(), steps, s)
    ensures Inv(s)
    ensures forall step :: Can(s, step) ==> HaltsOnlyFull(s, step)
  {
    hide Inv, Can, HaltsOnlyFull, Run;
    BootInv();
    RunKeeps(Booted(), steps, s);
    forall step | Can(s, step)
      ensures HaltsOnlyFull(s, step)
    {
      StepKeeps(s, step);
    }
  }
}
