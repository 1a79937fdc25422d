/** Whole runs of the scheduler: the sleep list inside it is the sleep list of `Sleepers`, how long a task keeps
    the processor, and what that leaves to be desired. */
module SchedulerRuns {
  import opened Basics
  import opened Sequences
  import opened IntrusiveLists
  import opened Schedulers
  import Sleepers

  // ---------------------------------------------------------------- the sleep list in the system

  /** The tasks of a list with their deadlines. */
  function SleepersOf(t: seq<Option<Task>>, list: seq<nat>): (r: seq<Sleepers.Sleeper>)
    ensures |r| == |list|
    ensures forall i :: 0 <= i < |r| ==> r[i] == Sleepers.Sleeper(list[i], AsWord(TicksOf(t, list[i])))
  {
    seq(|list|, i requires 0 <= i < |list| => Sleepers.Sleeper(list[i], AsWord(TicksOf(t, list[i]))))
  }

  /** The clock and the sleep list alone. */
  function ClockOf(s: Sys): (c: Sleepers.Clock)
    ensures c.jiffies == s.jiffies
  {
    Sleepers.Clock(s.jiffies, SleepersOf(s.t, s.asleep))
  }

  lemma SleepersInsert(t: seq<Option<Task>>, t': seq<Option<Task>>, list: seq<nat>, i: nat, x: nat)
    requires i <= |list| && x !in list && forall y: nat :: y in list ==> TicksOf(t', y) == TicksOf(t, y)
    ensures SleepersOf(t', InsertAt(list, i, x))
         == InsertAt(SleepersOf(t, list), i, Sleepers.Sleeper(x, AsWord(TicksOf(t', x))))
  {
    hide AsWord, TicksOf;
  }

  lemma DeadlinesAreKeys(s: Sys)
    requires Inv(s)
    ensures Deadlines(s) == Sleepers.TickKeys(ClockOf(s).list)
  {
    forall i | 0 <= i < |s.asleep|
      ensures Deadlines(s)[i] == AsInt32(AsWord(TicksOf(s.t, s.asleep[i])))
    {
      assert OnList(s.asleep, s.asleep[i]);
      assert StateIs(s.t, s.asleep[i], Sleeping);
    }
  }

  /** Neither the clock nor the list nor any task on it has changed. */
  lemma SameClock(s: Sys, s': Sys)
    requires s'.asleep == s.asleep && s'.jiffies == s.jiffies
    requires forall i: nat :: i in s.asleep ==> TicksOf(s'.t, i) == TicksOf(s.t, i)
    ensures ClockOf(s') == ClockOf(s)
  {}

  /** schedule touches no sleeper but one that is just giving up the processor. */
  lemma ScheduleClock(s: Sys)
    requires Leaving(s)
    ensures Schedule(s).Some?
    ensures forall i: nat :: i in s.asleep && i != s.cur ==> TicksOf(Schedule(s).value.t, i) == TicksOf(s.t, i)
    ensures s.cur in s.asleep ==> TicksOf(Schedule(s).value.t, s.cur) == Parked(s.t[s.cur].value).ticks
    ensures s.cur !in s.asleep ==> ClockOf(Schedule(s).value) == ClockOf(s)
  {
    ScheduleKeeps(s);
    var s' := Schedule(s).value;
    forall i: nat | i in s.asleep
      ensures i != s'.cur
    {
      assert OnList(s.asleep, i) && StateIs(s.t, i, Sleeping);
    }
    hide Choice, Distinct;
    if s.cur !in s.asleep {
      SameClock(s, s');
    }
  }

  /** The running task goes on the list with its deadline. */
  lemma LieDownClock(s: Sys, ms: nat)
    requires Inv(s) && Present(s, s.cur)
    ensures var word := (s.jiffies + Sleepers.Ticks(ms)) % WORD;
      var i := InsertIndex(Sleepers.TickKeys(ClockOf(s).list), AsInt32(word));
      && i < |LieDown(s, ms).asleep| && LieDown(s, ms).asleep[i] == s.cur
      && ClockOf(LieDown(s, ms)).list == InsertAt(ClockOf(s).list, i, Sleepers.Sleeper(s.cur, word))
  {
    hide InsertIndex, Sleepers.Ticks, Sleepers.TickKeys, SleepersOf, Distinct;
    RunningIsUnlisted(s);
    DeadlinesAreKeys(s);
    hide Inv, Deadlines;
    var word := (s.jiffies + Sleepers.Ticks(ms)) % WORD;
    var i := InsertIndex(Sleepers.TickKeys(ClockOf(s).list), AsInt32(word));
    assert AsWord(AsInt32(word)) == word;
    hide AsInt32, AsWord;
    SleepersInsert(s.t, LieDown(s, ms).t, s.asleep, i, s.cur);
    hide InsertAt;
  }

  /** If the running task is on the list, schedule refills its ticks there; it touches no other sleeper. */
  lemma ParkClock(s: Sys, i: nat)
    requires Leaving(s) && i < |s.asleep| && s.asleep[i] == s.cur
    ensures Schedule(s).Some?
    ensures ClockOf(Schedule(s).value).list
         == ClockOf(s).list[i := Sleepers.Sleeper(s.cur, AsWord(Parked(s.t[s.cur].value).ticks))]
  {
    ScheduleKeeps(s);
    ScheduleClock(s);
    hide Schedule, AsWord;
  }

  /** The sleep of the system is the sleep of the list. */
  lemma SleepClock(s: Sys, ms: nat)
    requires Inv(s) && s.cur != IDLE
    ensures Sleep(s, ms).Some? && s.t[s.cur].Some? && s.t[s.cur].value.priority >= 0
    ensures ClockOf(Sleep(s, ms).value) == Sleepers.Sleep(ClockOf(s), s.cur, ms, s.t[s.cur].value.priority)
  {
    hide InsertIndex, Sleepers.Ticks, Schedule, InsertAt, Leaving, Sleepers.TickKeys, ClockOf, Choice, OnList, Distinct, Deadlines;
    RunningIsUnlisted(s);
    SleepKeeps(s, ms);
    LieDownClock(s, ms);
    var mid, task := LieDown(s, ms), s.t[s.cur].value;
    ScheduleKeeps(mid);
    var word := (s.jiffies + Sleepers.Ticks(ms)) % WORD;
    var i := InsertIndex(Sleepers.TickKeys(ClockOf(s).list), AsInt32(word));
    ParkClock(mid, i);
    var time := if word == 0 then task.priority else word;
    ParkedTime(task, word);
    assert Sane(task) && mid.t[mid.cur] == Some(Slept(task, AsInt32(word)));
    hide Inv, LieDown;
    InsertThenUpdate(ClockOf(s).list, i, Sleepers.Sleeper(s.cur, word), Sleepers.Sleeper(s.cur, time));
  }

  lemma ParkedTime(task: Task, word: nat)
    requires Sane(task) && word < WORD
    ensures AsWord(Parked(Slept(task, AsInt32(word))).ticks) == if word == 0 then task.priority else word
  {}

  /** The loop of the wakeup releases what the list says is due. */
  lemma {:induction false} WakeupClock(s: Sys)
    requires Inv(s)
    ensures ClockOf(Wakeup(s)).list == ClockOf(s).list[Sleepers.Due(ClockOf(s).list, s.jiffies)..]
    ensures Wakeup(s).jiffies == s.jiffies
    decreases |s.asleep|
  {
    if s.asleep != [] {
      var i := s.asleep[0];
      assert OnList(s.asleep, i) && StateIs(s.t, i, Sleeping);
      if AsWord(s.t[i].value.ticks) <= s.jiffies {
        var s1 := Released(s);
        ReleaseKeeps(s);
        assert ClockOf(s1).list == ClockOf(s).list[1..];
        WakeupClock(s1);
      }
    }
  }

  lemma RunningLeaves(s: Sys)
    requires Inv(s)
    ensures Leaving(s)
  {
    RunningIsUnlisted(s);
  }

  /** Counting touches no sleeper. */
  lemma CountClock(s: Sys)
    requires Inv(s) && Present(s, s.cur)
    ensures ClockOf(Count(s)) == Sleepers.Clock((s.jiffies + 1) % WORD, ClockOf(s).list)
  {
    RunningIsUnlisted(s);
    hide Decreased, AsWord, Inv;
  }

  /** The interrupt of the system is the interrupt of the list. */
  lemma InterruptClock(s: Sys)
    requires Inv(s)
    ensures Interrupt(s).Some? && ClockOf(Interrupt(s).value) == Sleepers.Tick(ClockOf(s))
  {
    hide Wakeup, Schedule, Decreased, ClockOf, Sleepers.Due, StateIs, Inv;
    WakeupClock(s);
    WakeupKeeps(s);
    InterruptKeeps(s);
    RunningIsUnlisted(Wakeup(s));
    CountClock(Wakeup(s));
    var mid := Count(Wakeup(s));
    RunningIsUnlisted(mid);
    RunningLeaves(mid);
    if TicksOf(mid.t, mid.cur) == 0 {
      ScheduleClock(mid);
    }
  }

  // ---------------------------------------------------------------- every run is a run of the sleep list

  /** What a step is to the sleep list. */
  function EventsOf(s: Sys, step: Step): seq<Sleepers.Event> {
    match step
    case Sleeps(ms) =>
      if Present(s, s.cur) && s.t[s.cur].value.priority >= 0
      then [Sleepers.Sleeps(s.cur, ms, s.t[s.cur].value.priority)] else []
    case Ticks => [Sleepers.Interrupt]
    case _ => []
  }

  function Events(s: Sys, steps: seq<Step>): seq<Sleepers.Event>
    decreases |steps|
  {
    if steps == [] || Do(s, steps[0]).None? then []
    else EventsOf(s, steps[0]) + Events(Do(s, steps[0]).value, steps[1..])
  }

  /** All times of the run stay below 2^31. */
  predicate InTime(s: Sys, steps: seq<Step>)
    decreases |steps|
  {
    steps == [] || Do(s, steps[0]).None? ||
    (&& (steps[0].Sleeps? ==> s.jiffies + Sleepers.Ticks(steps[0].ms) < HALF)
     && (steps[0].Ticks? ==> s.jiffies + 1 < HALF)
     && InTime(Do(s, steps[0]).value, steps[1..]))
  }

  /** No other step touches a sleeper or the clock. */
  lemma OtherClock(s: Sys, step: Step)
    requires Inv(s) && Can(s, step) && Do(s, step).Some? && !step.Sleeps? && !step.Ticks?
    ensures ClockOf(Do(s, step).value) == ClockOf(s)
  {
    RunningIsUnlisted(s);
    forall i: nat | i in s.asleep
      ensures StateIs(s.t, i, Sleeping)
    {
      assert OnList(s.asleep, i);
    }
    var s' := Do(s, step).value;
    match step {
      case Yields => ScheduleClock(s);
      case Blocks =>
        BlockKeeps(s);
        SameClock(s, s');
      case Exits =>
        ExitKeeps(s);
        SameClock(s, s');
      case Wakes(i) => SameClock(s, s');
      case Forks => SameClock(s, s');
      case Reaps(i) => SameClock(s, s');
    }
  }

  /** Every run of the system is, on the clock and the sleep list, a run of `Sleepers`. */
  lemma {:induction false} RunsAreSleeperRuns(s: Sys, steps: seq<Step>, s': Sys)
    requires Inv(s) && Run(s, steps, s') && InTime(s, steps)
    ensures Inv(s') && Sleepers.Run(ClockOf(s), Events(s, steps), ClockOf(s'))
    decreases |steps|
  {
    hide Inv, ClockOf, Sleepers.Ticks;
    if steps != [] {
      StepKeeps(s, steps[0]);
      var s1 := Do(s, steps[0]).value;
      RunsAreSleeperRuns(s1, steps[1..], s');
      var rest := Events(s1, steps[1..]);
      match steps[0] {
        case Sleeps(ms) =>
          SleepClock(s, ms);
          var e := Sleepers.Sleeps(s.cur, ms, s.t[s.cur].value.priority);
          assert ([e] + rest)[1..] == rest;
        case Ticks =>
          InterruptClock(s);
          assert ([Sleepers.Interrupt] + rest)[1..] == rest;
        case _ =>
          OtherClock(s, steps[0]);
          assert [] + rest == rest;
      }
    }
  }

  /** The sleep list of the booted system may start a run of `Sleepers`. */
  lemma BootClock()
    ensures ClockOf(Booted()) == Sleepers.Clock(0, []) && Sleepers.Inv(ClockOf(Booted()))
  {}

  /** A task is asleep until `deadline`. */
  predicate SleepsUntil(s: Sys, i: nat, deadline: int) {
    StateIs(s.t, i, Sleeping) && s.t[i].value.ticks == deadline
  }

  lemma SleeperOnList(s: Sys, i: nat, deadline: nat)
    requires Inv(s) && deadline < HALF
    ensures Sleepers.Sleeper(i, deadline) in ClockOf(s).list <==> SleepsUntil(s, i, deadline)
  {
    assert OnList(s.asleep, i) <==> StateIs(s.t, i, Sleeping);
    if i in s.asleep {
      var k :| 0 <= k < |s.asleep| && s.asleep[k] == i;
      assert ClockOf(s).list[k] == Sleepers.Sleeper(i, AsWord(TicksOf(s.t, i)));
    }
  }

  lemma SleepsTicks(before: seq<Step>, s: Sys, ms: nat, after: seq<Step>, s': Sys)
    requires Run(Booted(), before, s) && InTime(Booted(), before)
    requires s.cur != IDLE && s.jiffies + Sleepers.Ticks(ms) < HALF
    requires Sleep(s, ms).Some? && Run(Sleep(s, ms).value, after, s') && InTime(Sleep(s, ms).value, after)
    ensures SleepsUntil(s', s.cur, s.jiffies + Sleepers.Ticks(ms)) <==> s'.jiffies <= s.jiffies + Sleepers.Ticks(ms)
  {
    hide Inv, Run, InTime, Events, ClockOf, Sleepers.Inv, Sleepers.Run, Sleepers.Ticks, Sleep, Sleepers.Sleep, SleepsUntil;
    BootInv();
    BootClock();
    RunsAreSleeperRuns(Booted(), before, s);
    Sleepers.RunKeeps(ClockOf(Booted()), Events(Booted(), before), ClockOf(s));
    SleepClock(s, ms);
    SleepKeeps(s, ms);
    var s1 := Sleep(s, ms).value;
    RunsAreSleeperRuns(s1, after, s');
    Sleepers.SleepsExactly(ClockOf(s), s.cur, ms, s.t[s.cur].value.priority, Events(s1, after), ClockOf(s'));
    SleeperOnList(s', s.cur, s.jiffies + Sleepers.Ticks(ms));
  }

  /** Over every run from boot, whatever the other tasks do: a task that asks for `ms` milliseconds at time j is off the
      processor for n ticks of ten milliseconds, as many as fit and at least one: until the interrupt that finds
      jiffies equal to j + n, and is released in that one. */
  lemma SleepsAsLongAsAsked(before: seq<Step>, s: Sys, ms: nat, after: seq<Step>, s': Sys)
    requires Run(Booted(), before, s) && InTime(Booted(), before)
    requires s.cur != IDLE && s.jiffies + (if ms < 10 then 1 else ms / 10) < 0x8000_0000
    requires Sleep(s, ms).Some? && Run(Sleep(s, ms).value, after, s') && InTime(Sleep(s, ms).value, after)
    ensures var n := if ms < 10 then 1 else ms / 10;
      SleepsUntil(s', s.cur, s.jiffies + n) <==> s'.jiffies <= s.jiffies + n
  {
    Sleepers.TicksOfTime(ms);
    hide Inv, Run, InTime, Sleepers.Ticks, Sleep, SleepsUntil;
    SleepsTicks(before, s, ms, after, s');
  }
}
