/** The scheduler with its table, lists and clock updated in place, as kernel/task.c and kernel/clock.c do. */
module Processors {
  import opened Basics
  import opened Sequences
  import opened IntrusiveLists
  import opened Schedulers
  import Sleepers

  class Processor {
    var table: seq<Option<Task>>
    var current: nat
    var blocked: seq<nat>
    var asleep: seq<nat>
    var jiffies: nat

    constructor (table: seq<Option<Task>>, current: nat)
      ensures View() == Sys(table, current, [], [], 0)
    {
      this.table, this.current, blocked, asleep, jiffies := table, current, [], [], 0;
    }

    function View(): Sys
      reads this
    {
      Sys(table, current, blocked, asleep, jiffies)
    }

    /** task_search for a ready task. */
    method TaskSearch() returns (next: nat)
      ensures next == Choice(View())
    {
      var best: Option<nat> := None;
      var i := 0;
      while i < |table|
        invariant 0 <= i <= |table|
        invariant best.Some? ==> best.value < |table| && table[best.value].Some?
        invariant Search(table, current, 0, None) == Search(table, current, i, best)
      {
        if table[i].Some? && table[i].value.state.Ready? && i != current {
          var ptr := table[i].value;
          if best.None? || table[best.value].value.ticks < ptr.ticks || ptr.jiffies < table[best.value].value.jiffies {
            best := Some(i);
          }
        }
        i := i + 1;
      }
      next := if best.Some? then best.value else IDLE;
    }

    /** schedule */
    method Switch()
      requires Schedule(View()).Some?
      modifies this`table, this`current
      ensures Some(View()) == Schedule(old(View()))
    {
      var next := TaskSearch();
      var task := table[current].value;
      if task.state.Running? {
        task := WithState(task, Ready);
      }
      if task.ticks == 0 {
        task := Task(task.state, task.priority, task.jiffies, task.priority);
      }
      table := table[current := Some(task)];
      table := table[next := Some(WithState(table[next].value, Running))];
      current := next;
    }

    /** task_block of the running task; its assertions are proved. */
    method TaskBlock()
      requires Inv(View()) && current != IDLE
      modifies this
      ensures Some(View()) == Block(old(View())) && Inv(View())
    {
      BlockKeeps(View());
      RunningIsUnlisted(View());
      hide Inv;
      assert current !in blocked;
      blocked := [current] + blocked;
      table := table[current := Some(WithState(table[current].value, Blocked))];
      Switch();
    }

    /** task_unblock of a blocked task. */
    method TaskUnblock(i: nat)
      requires Inv(View()) && StateIs(table, i, Blocked)
      modifies this`table, this`blocked
      ensures Some(View()) == Unblock(old(View()), i) && Inv(View())
    {
      UnblockKeeps(View(), i);
      hide Inv;
      blocked := Without(blocked, i);
      table := table[i := Some(WithState(table[i].value, Ready))];
    }

    /** task_sleep of the running task; the assertions of the insertion are proved. */
    method TaskSleep(ms: nat)
      requires Inv(View()) && current != IDLE
      modifies this
      ensures Some(View()) == Sleep(old(View()), ms) && Inv(View())
    {
      hide Inv, InsertIndex, Schedule, Leaving, StateIs, Deadlines, InsertAt, AsInt32, OnList, Distinct;
      SleepKeeps(View(), ms);
      var ticks := ms / Sleepers.JIFFY;
      if ticks == 0 {
        ticks := 1;
      }
      assert ticks == Sleepers.Ticks(ms);
      hide Sleepers.Ticks;
      var deadline := AsInt32((jiffies + ticks) % WORD);
      assert current !in blocked && current !in asleep;
      ghost var mid := LieDown(View(), ms);
      var i := Place(deadline);
      asleep := InsertAt(asleep, i, current);
      table := table[current := Some(Slept(table[current].value, deadline))];
      assert View() == mid;
      Switch();
    }

    /** The search of list_insert_sort along the sleep list. */
    method Place(deadline: int) returns (i: nat)
      ensures i == InsertIndex(Deadlines(View()), deadline)
    {
      ghost var keys := Deadlines(View());
      i := 0;
      while i < |asleep| && TicksOf(table, asleep[i]) <= deadline
        invariant i <= |asleep|
        invariant InsertIndex(keys, deadline) == i + InsertIndex(keys[i..], deadline)
      {
        assert keys[i..][1..] == keys[i + 1..];
        i := i + 1;
      }
    }

    /** task_wakeup */
    method TaskWakeup()
      requires Inv(View())
      modifies this`table, this`asleep
      ensures View() == Wakeup(old(View())) && Inv(View())
    {
      hide Inv;
      while asleep != []
        invariant Inv(View()) && Wakeup(View()) == Wakeup(old(View()))
        decreases |asleep|
      {
        ReleaseKeeps(View());
        if AsWord(table[asleep[0]].value.ticks) > jiffies {
          break;
        }
        assert Wakeup(View()) == Wakeup(Released(View()));
        table := table[asleep[0] := Some(Awake(table[asleep[0]].value))];
        asleep := asleep[1..];
      }
    }

    /** clock_handler */
    method ClockHandler()
      requires Inv(View())
      modifies this
      ensures Some(View()) == Interrupt(old(View())) && Inv(View())
    {
      InterruptKeeps(View());
      TaskWakeup();
      hide Inv, Wakeup;
      jiffies := (jiffies + 1) % WORD;
      var task := table[current].value;
      table := table[current := Some(Task(task.state, Decreased(task.ticks), jiffies, task.priority))];
      if table[current].value.ticks == 0 {
        Switch();
      }
    }
  }
}
