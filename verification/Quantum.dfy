/** How long a task keeps the processor, and runs from boot that show what the scheduler does not promise. */
module Quanta {
  import opened Basics
  import opened Sequences
  import opened IntrusiveLists
  import opened Schedulers
  import Sleepers

  // ---------------------------------------------------------------- the time slice

  /** How many interrupts it takes until the ticks of a task are zero. */
  function Left(ticks: int): int {
    if ticks > 0 then ticks else ticks + WORD
  }

  function LeftOf(s: Sys): int {
    Left(TicksOf(s.t, s.cur))
  }

  /** The steps in which the running task does not give up the processor itself. */
  predicate Goes(step: Step) {
    step.Ticks? || step.Wakes? || step.Forks? || step.Reaps?
  }

  /** The interrupts among the steps. */
  function Beats(steps: seq<Step>): nat {
    if steps == [] then 0 else (if steps[0].Ticks? then 1 else 0) + Beats(steps[1..])
  }

  lemma GoesOn(s: Sys, step: Step)
    requires Inv(s) && Can(s, step) && Do(s, step).Some? && Goes(step) && !step.Ticks?
    ensures Do(s, step).value.cur == s.cur && LeftOf(Do(s, step).value) == LeftOf(s)
  {
    RunningIsUnlisted(s);
  }

  /** An interrupt takes the processor from the running task if and only if that was its last tick and some other
      task is ready once the sleepers are woken. */
  lemma LosesProcessor(s: Sys)
    requires Inv(s)
    ensures Interrupt(s).Some?
    ensures Interrupt(s).value.cur != s.cur <==>
      LeftOf(s) == 1 && exists i: nat :: Candidate(Wakeup(s).t, s.cur, i)
  {
    InterruptKeeps(s);
    RunningIsUnlisted(s);
    var woken, mid := Wakeup(s), Count(Wakeup(s));
    assert Sane(s.t[s.cur].value);
    assert forall i: nat :: Candidate(mid.t, s.cur, i) <==> Candidate(woken.t, s.cur, i);
    RunningIsUnlisted(mid);
    hide Wakeup;
    ScheduleKeeps(mid);
  }

  lemma BeatKeeps(s: Sys)
    requires Inv(s) && LeftOf(s) > 1
    ensures Interrupt(s).Some? && Interrupt(s).value.cur == s.cur && LeftOf(Interrupt(s).value) == LeftOf(s) - 1
  {
    InterruptKeeps(s);
    RunningIsUnlisted(s);
    assert Sane(s.t[s.cur].value);
  }

  /** A task that does not give up the processor keeps it as long as it has ticks left, whoever becomes ready. */
  lemma {:induction false} KeepsProcessor(s: Sys, steps: seq<Step>, s': Sys)
    requires Inv(s) && Run(s, steps, s') && Beats(steps) < LeftOf(s)
    requires forall i :: 0 <= i < |steps| ==> Goes(steps[i])
    ensures Inv(s') && s'.cur == s.cur && LeftOf(s') == LeftOf(s) - Beats(steps)
    decreases |steps|
  {
    hide Inv, LeftOf;
    if steps != [] {
      var s1 := Do(s, steps[0]).value;
      StepKeeps(s, steps[0]);
      if steps[0].Ticks? {
        BeatKeeps(s);
      } else {
        GoesOn(s, steps[0]);
      }
      hide Do, Can;
      KeepsProcessor(s1, steps[1..], s');
    }
  }

  // ---------------------------------------------------------------- while nobody sleeps

  /** Every task has at least one tick left and at most five. */
  ghost predicate Timed(s: Sys) {
    && s.asleep == []
    && forall i: nat :: i < |s.t| && s.t[i].Some? ==> 1 <= s.t[i].value.ticks <= s.t[i].value.priority <= 5
  }

  lemma ScheduleTimed(s: Sys)
    requires Leaving(s) && s.asleep == []
    requires forall i: nat :: i < |s.t| && s.t[i].Some? ==>
      0 <= s.t[i].value.ticks <= s.t[i].value.priority <= 5 && (s.t[i].value.ticks == 0 ==> i == s.cur)
    ensures Schedule(s).Some? && Timed(Schedule(s).value)
  {
    ScheduleKeeps(s);
    hide Choice;
  }

  lemma StepTimed(s: Sys, step: Step)
    requires Inv(s) && Can(s, step) && Do(s, step).Some? && !step.Sleeps? && Timed(s)
    ensures Timed(Do(s, step).value)
  {
    RunningIsUnlisted(s);
    match step {
      case Yields => ScheduleTimed(s);
      case Blocks =>
        BlockKeeps(s);
        hide Search;
      case Exits =>
        ExitKeeps(s);
        hide Search;
      case Ticks =>
        InterruptKeeps(s);
        RunningIsUnlisted(Count(s));
        if TicksOf(Count(s).t, s.cur) == 0 {
          ScheduleTimed(Count(s));
        }
      case _ =>
    }
  }

  lemma {:induction false} RunTimed(s: Sys, steps: seq<Step>, s': Sys)
    requires Inv(s) && Timed(s) && Run(s, steps, s') && forall i :: 0 <= i < |steps| ==> !steps[i].Sleeps?
    ensures Inv(s') && Timed(s')
    decreases |steps|
  {
    hide Inv, Timed, Do, Can;
    if steps != [] {
      StepKeeps(s, steps[0]);
      StepTimed(s, steps[0]);
      RunTimed(Do(s, steps[0]).value, steps[1..], s');
    }
  }

  /** Over every run from boot in which nobody has slept, the running task loses the processor after at most five
      interrupts to another one that is ready. */
  lemma SlicesAreShort(steps: seq<Step>, s: Sys)
    requires Run(Booted(), steps, s) && forall i :: 0 <= i < |steps| ==> !steps[i].Sleeps?
    ensures Inv(s) && 1 <= LeftOf(s) <= 5
  {
    BootInv();
    RunTimed(Booted(), steps, s);
    RunningIsUnlisted(s);
  }

  // ---------------------------------------------------------------- runs on the first four slots

  /** A system of four slots, with the other sixty empty. */
  function Wide(s: Sys): Sys {
    Sys(s.t + seq(NR_TASKS - 4, _ => None), s.cur, s.blocked, s.asleep, s.jiffies)
  }

  lemma {:induction false} SearchWide(s: Sys, i: nat, best: Option<nat>)
    requires |s.t| == 4 && i <= 4 && (best.Some? ==> best.value < 4)
    ensures Search(Wide(s).t, s.cur, i, best) == Search(s.t, s.cur, i, best)
    decreases 4 - i
  {
    if i < 4 {
      var next := if Candidate(s.t, s.cur, i) && (best.None? || Preferred(s.t, best.value, i)) then Some(i) else best;
      SearchWide(s, i + 1, next);
    } else {
      SearchSkips(Wide(s).t, s.cur, 4, NR_TASKS, best);
    }
  }

  lemma ScheduleWide(s: Sys, s': Sys)
    requires |s.t| == 4 && Schedule(s) == Some(s')
    ensures Schedule(Wide(s)) == Some(Wide(s'))
  {
    SearchWide(s, 0, None);
    hide Search;
    var next := Choice(s);
    var parked := s.t[s.cur := Some(Parked(s.t[s.cur].value))];
    UpdateFront(s.t, seq(NR_TASKS - 4, _ => None), s.cur, Some(Parked(s.t[s.cur].value)));
    UpdateFront(parked, seq(NR_TASKS - 4, _ => None), next, Some(WithState(parked[next].value, Running)));
  }

  lemma {:induction false} WakeupWide(s: Sys)
    requires |s.t| == 4
    ensures Wakeup(Wide(s)) == Wide(Wakeup(s)) && |Wakeup(s).t| == 4
    decreases |s.asleep|
  {
    if s.asleep != [] && Present(s, s.asleep[0]) && AsWord(s.t[s.asleep[0]].value.ticks) <= s.jiffies {
      WakeupWide(Released(s));
      assert Released(Wide(s)) == Wide(Released(s));
    }
  }

  lemma InterruptWide(s: Sys, s': Sys)
    requires |s.t| == 4 && Interrupt(s) == Some(s')
    ensures Interrupt(Wide(s)) == Some(Wide(s'))
  {
    WakeupWide(s);
    var woken := Wakeup(s);
    hide Wakeup;
    assert Count(Wide(woken)) == Wide(Count(woken));
    if TicksOf(Count(woken).t, woken.cur) == 0 {
      ScheduleWide(Count(woken), s');
    }
  }

  lemma SleepWide(s: Sys, ms: nat, s': Sys)
    requires |s.t| == 4 && Sleep(s, ms) == Some(s')
    ensures Sleep(Wide(s), ms) == Some(Wide(s'))
  {
    LieDownWide(s, ms);
    hide LieDown, Schedule;
    ScheduleWide(LieDown(s, ms), s');
  }

  lemma DeadlinesWide(s: Sys)
    requires |s.t| == 4
    ensures Deadlines(Wide(s)) == Deadlines(s)
  {}

  lemma LieDownWide(s: Sys, ms: nat)
    requires |s.t| == 4 && Present(s, s.cur)
    ensures LieDown(Wide(s), ms) == Wide(LieDown(s, ms)) && |LieDown(s, ms).t| == 4
  {
    hide InsertIndex, InsertAt, Sleepers.Ticks, AsInt32;
    DeadlinesWide(s);
    hide Deadlines;
    var deadline := AsInt32((s.jiffies + Sleepers.Ticks(ms)) % WORD);
    UpdateFront(s.t, seq(NR_TASKS - 4, _ => None), s.cur, Some(Slept(s.t[s.cur].value, deadline)));
  }

  /** The steps used below do the same on the whole table. */
  lemma StepWide(s: Sys, step: Step, s': Sys)
    requires |s.t| == 4 && Can(s, step) && Do(s, step) == Some(s') && !step.Exits? && !step.Reaps? && !step.Yields?
    ensures Can(Wide(s), step) && Do(Wide(s), step) == Some(Wide(s'))
  {
    match step {
      case Ticks => InterruptWide(s, s');
      case Sleeps(ms) => SleepWide(s, ms, s');
      case Blocks =>
        var mid := Sys(s.t[s.cur := Some(WithState(s.t[s.cur].value, Blocked))], s.cur, [s.cur] + s.blocked, s.asleep,
                       s.jiffies);
        assert Wide(mid).t == Wide(s).t[s.cur := Some(WithState(s.t[s.cur].value, Blocked))];
        ScheduleWide(mid, s');
      case Wakes(i) => assert Wide(s').t == Wide(s).t[i := s'.t[i]];
      case Forks =>
        FirstFreeWide(s.t, 0);
        var i := FirstFree(s.t, 0).value;
        assert Wide(s').t == Wide(s).t[i := s'.t[i]];
    }
  }

  lemma {:induction false} FirstFreeWide(t: seq<Option<Task>>, i: nat)
    requires |t| == 4 && i <= 4 && FirstFree(t, i).Some?
    ensures FirstFree(t + seq(NR_TASKS - 4, _ => None), i) == FirstFree(t, i)
    decreases 4 - i
  {
    if i < 4 && t[i].Some? {
      FirstFreeWide(t, i + 1);
    }
  }

  lemma {:induction false} Extend(s0: Sys, steps: seq<Step>, s: Sys, step: Step, s': Sys)
    requires Run(s0, steps, s) && Can(s, step) && Do(s, step) == Some(s')
    ensures Run(s0, steps + [step], s')
    decreases |steps|
  {
    hide Can, Do;
    if steps == [] {
      assert ([step])[1..] == [];
      assert Run(s', [], s');
    } else {
      Extend(Do(s0, steps[0]).value, steps[1..], s, step, s');
      assert (steps + [step])[1..] == steps[1..] + [step];
    }
  }

  /** A run from boot in which only the first four slots are used ends here. */
  ghost predicate Reached(s: Sys) {
    |s.t| == 4 && exists steps :: Run(Booted(), steps, Wide(s))
  }

  lemma Reach(s: Sys, step: Step, s': Sys)
    requires Reached(s) && Can(s, step) && Do(s, step) == Some(s') && !step.Exits? && !step.Reaps? && !step.Yields?
    requires |s'.t| == 4
    ensures Reached(s')
  {
    var steps :| Run(Booted(), steps, Wide(s));
    StepWide(s, step, s');
    hide Do, Can;
    Extend(Booted(), steps, Wide(s), step, Wide(s'));
  }

  /** Four slots in which the tasks have priorities 1, 5, 5 and 5. */
  function Four(a: (State, int, nat), b: (State, int, nat), c: (State, int, nat), d: Option<(State, int, nat)>): seq<Option<Task>> {
    [Some(Task(a.0, a.1, a.2, 1)), Some(Task(b.0, b.1, b.2, 5)), Some(Task(c.0, c.1, c.2, 5)),
     if d.Some? then Some(Task(d.value.0, d.value.1, d.value.2, 5)) else None]
  }

  lemma BootReached()
    ensures Reached(Sys(Four((Ready, 1, 0), (Running, 5, 0), (Ready, 5, 0), None), 1, [], [], 0))
  {
    var s := Sys(Four((Ready, 1, 0), (Running, 5, 0), (Ready, 5, 0), None), 1, [], [], 0);
    assert Wide(s) == Booted();
    assert Run(Booted(), [], Wide(s));
  }

  /** The search over four slots, turn by turn. */
  lemma SearchFour(t: seq<Option<Task>>, cur: nat)
    requires |t| == 4
    ensures var a := if Candidate(t, cur, 0) then Some(0) else None;
      var b := if Candidate(t, cur, 1) && (a.None? || Preferred(t, a.value, 1)) then Some(1) else a;
      var c := if Candidate(t, cur, 2) && (b.None? || Preferred(t, b.value, 2)) then Some(2) else b;
      var d := if Candidate(t, cur, 3) && (c.None? || Preferred(t, c.value, 3)) then Some(3) else c;
      Search(t, cur, 0, None) == d
  {
    var a := if Candidate(t, cur, 0) then Some(0) else None;
    var b := if Candidate(t, cur, 1) && (a.None? || Preferred(t, a.value, 1)) then Some(1) else a;
    var c := if Candidate(t, cur, 2) && (b.None? || Preferred(t, b.value, 2)) then Some(2) else b;
    var d := if Candidate(t, cur, 3) && (c.None? || Preferred(t, c.value, 3)) then Some(3) else c;
    hide Candidate, Preferred;
    assert Search(t, cur, 0, None) == Search(t, cur, 1, a);
    assert Search(t, cur, 1, a) == Search(t, cur, 2, b);
    assert Search(t, cur, 2, b) == Search(t, cur, 3, c);
    assert Search(t, cur, 3, c) == Search(t, cur, 4, d);
  }

  /** Steps of the four slots. */
  lemma Forked(s: Sys, s': Sys, i: nat)
    requires Reached(s) && StateIs(s.t, s.cur, Running) && Unlisted(s)
    requires i < 4 && s.t[i].None? && forall j :: 0 <= j < i ==> s.t[j].Some?
    requires var task := s.t[s.cur].value;
      s'.t == s.t[i := Some(Task(Ready, task.priority, task.jiffies, task.priority))]
    requires s' == Sys(s'.t, s.cur, s.blocked, s.asleep, s.jiffies)
    ensures Reached(s')
  {
    assert FirstFree(s.t, 0) == Some(i);
    Reach(s, Forks, s');
  }

  lemma Woken(s: Sys, s': Sys, i: nat)
    requires Reached(s) && StateIs(s.t, i, Blocked) && i in s.blocked
    requires s'.t == s.t[i := Some(WithState(s.t[i].value, Ready))]
    requires s' == Sys(s'.t, s.cur, s'.blocked, s.asleep, s.jiffies) && s'.blocked == Without(s.blocked, i)
    ensures Reached(s')
  {
    Reach(s, Wakes(i), s');
  }

  lemma Switched(s: Sys, next: nat, s': Sys)
    requires |s.t| == 4 && Search(s.t, s.cur, 0, None) == Some(next) && Present(s, s.cur) && Present(s, next)
    requires next != s.cur
    requires s'.t == s.t[s.cur := Some(Parked(s.t[s.cur].value))][next := Some(WithState(s.t[next].value, Running))]
    requires s' == Sys(s'.t, next, s.blocked, s.asleep, s.jiffies)
    ensures Schedule(s) == Some(s')
  {
    hide Search;
  }

  lemma Blocking(s: Sys, next: nat, s': Sys)
    requires Reached(s) && s.cur != IDLE && Unlisted(s) && Present(s, next) && next != s.cur
    requires var task := Some(WithState(s.t[s.cur].value, Blocked));
      && Search(s.t[s.cur := task], s.cur, 0, None) == Some(next)
      && s'.t == s.t[s.cur := Some(Parked(task.value))][next := Some(WithState(s.t[next].value, Running))]
    requires s' == Sys(s'.t, next, s'.blocked, s.asleep, s.jiffies) && s'.blocked == [s.cur] + s.blocked
    ensures Reached(s')
  {
    var mid := Sys(s.t[s.cur := Some(WithState(s.t[s.cur].value, Blocked))], s.cur, [s.cur] + s.blocked, s.asleep, s.jiffies);
    hide Search, Reached;
    Switched(mid, next, s');
    assert |s.t| == 4 by { FourSlots(s); }
    hide Schedule;
    Reach(s, Blocks, s');
  }

  lemma FourSlots(s: Sys)
    requires Reached(s)
    ensures |s.t| == 4
  {}

  /** The running task after one more interrupt. */
  function Ticked(task: Task, now: nat): Task {
    Task(task.state, task.ticks - 1, now, task.priority)
  }

  /** An interrupt that wakes nobody and leaves ticks. */
  lemma Beat(s: Sys, s': Sys)
    requires Reached(s) && s.asleep == [] && Present(s, s.cur) && TicksOf(s.t, s.cur) > 1 && s.jiffies + 1 < WORD
    requires s'.t == s.t[s.cur := Some(Ticked(s.t[s.cur].value, s.jiffies + 1))]
    requires s' == Sys(s'.t, s.cur, s.blocked, s.asleep, s.jiffies + 1)
    ensures Reached(s')
  {
    FourSlots(s);
    Reach(s, Ticks, s');
  }

  /** The interrupt at the end of a time slice. */
  lemma LastBeat(s: Sys, next: nat, s': Sys)
    requires Reached(s) && s.asleep == [] && Present(s, s.cur) && TicksOf(s.t, s.cur) == 1 && s.jiffies + 1 < WORD
    requires Present(s, next) && next != s.cur
    requires var task := Ticked(s.t[s.cur].value, s.jiffies + 1);
      && Search(s.t[s.cur := Some(task)], s.cur, 0, None) == Some(next)
      && s'.t == s.t[s.cur := Some(Parked(task))][next := Some(WithState(s.t[next].value, Running))]
    requires s' == Sys(s'.t, next, s.blocked, s.asleep, s.jiffies + 1)
    ensures Reached(s')
  {
    FourSlots(s);
    hide Reached, Search;
    Switched(Count(s), next, s');
    hide Schedule;
    Reach(s, Ticks, s');
  }

  /** A run from boot that ends with three tasks ready on which the comparison goes round in a circle. */
  lemma UnfairRun(s: Sys)
    requires s == Sys(Four((Running, 1, 0), (Ready, 4, 1), (Ready, 5, 8), Some((Ready, 3, 3))), 0, [], [], 8)
    ensures Reached(s)
  {
    var x0 := Sys(Four((Ready, 1, 0), (Running, 5, 0), (Ready, 5, 0), None), 1, [], [], 0);
    var x1 := Sys(Four((Ready, 1, 0), (Running, 5, 0), (Ready, 5, 0), Some((Ready, 5, 0))), 1, [], [], 0);
    var x2 := Sys(Four((Ready, 1, 0), (Running, 4, 1), (Ready, 5, 0), Some((Ready, 5, 0))), 1, [], [], 1);
    var x3 := Sys(Four((Ready, 1, 0), (Blocked, 4, 1), (Running, 5, 0), Some((Ready, 5, 0))), 2, [1], [], 1);
    var x4 := Sys(Four((Ready, 1, 0), (Blocked, 4, 1), (Blocked, 5, 0), Some((Running, 5, 0))), 3, [2, 1], [], 1);
    BootReached();
    hide Reached, Search;
    Forked(x0, x1, 3);
    Beat(x1, x2);
    SearchFour(x2.t[1 := Some(Task(Blocked, 4, 1, 5))], 1);
    Blocking(x2, 2, x3);
    SearchFour(x3.t[2 := Some(Task(Blocked, 5, 0, 5))], 2);
    Blocking(x3, 3, x4);
    UnfairRest(x4, s);
  }

  lemma UnfairRest(x4: Sys, s: Sys)
    requires x4 == Sys(Four((Ready, 1, 0), (Blocked, 4, 1), (Blocked, 5, 0), Some((Running, 5, 0))), 3, [2, 1], [], 1)
    requires s == Sys(Four((Running, 1, 0), (Ready, 4, 1), (Ready, 5, 8), Some((Ready, 3, 3))), 0, [], [], 8)
    requires Reached(x4)
    ensures Reached(s)
  {
    var x5 := Sys(Four((Ready, 1, 0), (Blocked, 4, 1), (Blocked, 5, 0), Some((Running, 4, 2))), 3, [2, 1], [], 2);
    var x6 := Sys(Four((Ready, 1, 0), (Blocked, 4, 1), (Blocked, 5, 0), Some((Running, 3, 3))), 3, [2, 1], [], 3);
    var x7 := Sys(Four((Ready, 1, 0), (Blocked, 4, 1), (Ready, 5, 0), Some((Running, 3, 3))), 3, [1], [], 3);
    var x8 := Sys(Four((Ready, 1, 0), (Blocked, 4, 1), (Running, 5, 0), Some((Blocked, 3, 3))), 2, [3, 1], [], 3);
    hide Reached, Search;
    Beat(x4, x5);
    Beat(x5, x6);
    TwoWithout(2, 1);
    Woken(x6, x7, 2);
    SearchFour(x7.t[3 := Some(Task(Blocked, 3, 3, 5))], 3);
    Blocking(x7, 2, x8);
    UnfairEnd(x8, s);
  }

  lemma TwoWithout(x: nat, y: nat)
    ensures Without([x], x) == []
    ensures x != y ==> Without([x, y], x) == [y] && Without([y, x], x) == [y]
  {}

  lemma UnfairEnd(x8: Sys, s: Sys)
    requires x8 == Sys(Four((Ready, 1, 0), (Blocked, 4, 1), (Running, 5, 0), Some((Blocked, 3, 3))), 2, [3, 1], [], 3)
    requires s == Sys(Four((Running, 1, 0), (Ready, 4, 1), (Ready, 5, 8), Some((Ready, 3, 3))), 0, [], [], 8)
    requires Reached(x8)
    ensures Reached(s)
  {
    var x9 := Sys(Four((Ready, 1, 0), (Blocked, 4, 1), (Running, 4, 4), Some((Blocked, 3, 3))), 2, [3, 1], [], 4);
    var x10 := Sys(Four((Ready, 1, 0), (Blocked, 4, 1), (Running, 3, 5), Some((Blocked, 3, 3))), 2, [3, 1], [], 5);
    var x11 := Sys(Four((Ready, 1, 0), (Blocked, 4, 1), (Running, 2, 6), Some((Blocked, 3, 3))), 2, [3, 1], [], 6);
    var x12 := Sys(Four((Ready, 1, 0), (Blocked, 4, 1), (Running, 1, 7), Some((Blocked, 3, 3))), 2, [3, 1], [], 7);
    var x13 := Sys(Four((Running, 1, 0), (Blocked, 4, 1), (Ready, 5, 8), Some((Blocked, 3, 3))), 0, [3, 1], [], 8);
    var x14 := Sys(Four((Running, 1, 0), (Ready, 4, 1), (Ready, 5, 8), Some((Blocked, 3, 3))), 0, [3], [], 8);
    hide Reached, Search;
    Beat(x8, x9);
    Beat(x9, x10);
    Beat(x10, x11);
    Beat(x11, x12);
    SearchFour(x12.t[2 := Some(Task(Running, 0, 8, 5))], 2);
    LastBeat(x12, 0, x13);
    TwoWithout(1, 3);
    TwoWithout(3, 3);
    Woken(x13, x14, 1);
    Woken(x14, s, 3);
  }

  /** The circle is reached: there is a run from boot at whose end schedule passes over a task that has more ticks
      left, and has waited longer, than the one it chooses. */
  lemma SearchIsNotFair() returns (steps: seq<Step>, s: Sys)
    ensures Run(Booted(), steps, s) && Schedule(s).Some? && Schedule(s).value.cur == 3
    ensures Candidate(s.t, s.cur, 1) && Dominates(s.t, 1, 3) && Cycle(s.t, s.cur, 1, 2, 3)
  {
    var x := Sys(Four((Running, 1, 0), (Ready, 4, 1), (Ready, 5, 8), Some((Ready, 3, 3))), 0, [], [], 8);
    UnfairRun(x);
    steps :| Run(Booted(), steps, Wide(x));
    s := Wide(x);
    hide Run;
    assert Cycle(s.t, s.cur, 1, 2, 3);
    assert forall j: nat :: Candidate(s.t, s.cur, j) ==> j == 1 || j == 2 || j == 3;
    CycleMisleads(s.t, s.cur, 1, 2, 3);
  }

  // ---------------------------------------------------------------- after a sleep

  /** A sleeper comes back without ticks, and schedule refills only those of the task that gives up the processor.
      There is a run from boot at whose end init is running with none left and another task is ready; from then on
      init keeps the processor through 2^32 - 1 interrupts unless it gives it up itself. */
  lemma SleeperOverstays() returns (steps: seq<Step>, s: Sys)
    ensures Run(Booted(), steps, s) && Inv(s) && s.cur == 1 && TicksOf(s.t, 1) == 0 && StateIs(s.t, 2, Ready)
    ensures forall more, s' ::
      Run(s, more, s') && (forall i :: 0 <= i < |more| ==> Goes(more[i])) && Beats(more) < WORD ==> s'.cur == 1
  {
    var x := Sys(Four((Ready, 1, 3), (Running, 0, 0), (Ready, 3, 2), None), 1, [], [], 3);
    OverstayingRun(x);
    steps :| Run(Booted(), steps, Wide(x));
    s := Wide(x);
    hide Run, Inv;
    BootInv();
    RunKeeps(Booted(), steps, s);
    forall more, s' | Run(s, more, s') && (forall i :: 0 <= i < |more| ==> Goes(more[i])) && Beats(more) < WORD
      ensures s'.cur == 1
    {
      KeepsProcessor(s, more, s');
    }
  }

  lemma OverstayingRun(s: Sys)
    requires s == Sys(Four((Ready, 1, 3), (Running, 0, 0), (Ready, 3, 2), None), 1, [], [], 3)
    ensures Reached(s)
  {
    var x0 := Sys(Four((Ready, 1, 0), (Running, 5, 0), (Ready, 5, 0), None), 1, [], [], 0);
    var x1 := Sys(Four((Ready, 1, 0), (Sleeping, 1, 0), (Running, 5, 0), None), 2, [], [1], 0);
    var x2 := Sys(Four((Ready, 1, 0), (Sleeping, 1, 0), (Running, 4, 1), None), 2, [], [1], 1);
    var x3 := Sys(Four((Ready, 1, 0), (Ready, 0, 0), (Running, 3, 2), None), 2, [], [], 2);
    var x4 := Sys(Four((Running, 1, 0), (Ready, 0, 0), (Blocked, 3, 2), None), 0, [2], [], 2);
    var x5 := Sys(Four((Ready, 1, 3), (Running, 0, 0), (Blocked, 3, 2), None), 1, [2], [], 3);
    BootReached();
    hide Reached, Search;
    InitSleeps(x0, x1);
    OneSleeper(x1, x2, x3);
    SearchFour(x3.t[2 := Some(Task(Blocked, 3, 2, 5))], 2);
    Blocking(x3, 0, x4);
    SearchFour(x4.t[0 := Some(Task(Running, 0, 3, 1))], 0);
    LastBeat(x4, 1, x5);
    TwoWithout(2, 2);
    Woken(x5, s, 2);
  }

  /** init asks for one tick. */
  lemma InitSleeps(x0: Sys, x1: Sys)
    requires x0 == Sys(Four((Ready, 1, 0), (Running, 5, 0), (Ready, 5, 0), None), 1, [], [], 0)
    requires x1 == Sys(Four((Ready, 1, 0), (Sleeping, 1, 0), (Running, 5, 0), None), 2, [], [1], 0)
    requires Reached(x0)
    ensures Reached(x1)
  {
    hide Reached;
    var mid := Sys(Four((Ready, 1, 0), (Sleeping, 1, 0), (Ready, 5, 0), None), 1, [], [1], 0);
    LiesDown(x0, mid);
    hide LieDown;
    SearchFour(mid.t, 1);
    Switched(mid, 2, x1);
    Reach(x0, Sleeps(10), x1);
  }

  lemma LiesDown(x0: Sys, mid: Sys)
    requires x0 == Sys(Four((Ready, 1, 0), (Running, 5, 0), (Ready, 5, 0), None), 1, [], [], 0)
    requires mid == Sys(Four((Ready, 1, 0), (Sleeping, 1, 0), (Ready, 5, 0), None), 1, [], [1], 0)
    ensures LieDown(x0, 10) == mid
  {
    assert LieDown(x0, 10).t == mid.t && LieDown(x0, 10).asleep == mid.asleep;
  }

  /** Two interrupts, of which the second finds the sleeper due. */
  lemma OneSleeper(x1: Sys, x2: Sys, x3: Sys)
    requires x1 == Sys(Four((Ready, 1, 0), (Sleeping, 1, 0), (Running, 5, 0), None), 2, [], [1], 0)
    requires x2 == Sys(Four((Ready, 1, 0), (Sleeping, 1, 0), (Running, 4, 1), None), 2, [], [1], 1)
    requires x3 == Sys(Four((Ready, 1, 0), (Ready, 0, 0), (Running, 3, 2), None), 2, [], [], 2)
    requires Reached(x1)
    ensures Reached(x3)
  {
    hide Reached;
    assert Wakeup(x1) == x1;
    assert Count(x1).t == x2.t;
    Reach(x1, Ticks, x2);
    var woken := Released(x2);
    assert woken.asleep == [];
    assert Wakeup(x2) == woken;
    assert Count(woken).t == x3.t;
    Reach(x2, Ticks, x3);
  }
}
