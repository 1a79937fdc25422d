/** fork, exit and waitpid of kernel/task.c on the task table, with the loops of the source. */
module TaskCalls {
  import opened Basics
  import opened Sequences
  import opened TaskTables

  class TaskManager {
    var table: seq<Option<Task>>

    constructor ()
      ensures table == Boot().t
    {
      table := Boot().t;
    }

    /** The search of get_free_task; None where the kernel panics. */
    method FreeSlot() returns (r: Option<nat>)
      ensures r == FirstFree(table, 0)
    {
      var i := 0;
      while i < |table|
        invariant 0 <= i <= |table| && FirstFree(table, 0) == FirstFree(table, i)
      {
        if table[i].None? {
          return Some(i);
        }
        i := i + 1;
      }
      return None;
    }

    /** task_fork by task p: the child's pid, or None where the kernel panics. */
    method Fork(p: nat) returns (pid: Option<nat>)
      requires p < |table| && table[p].Some?
      modifies this
      ensures pid == FirstFree(old(table), 0)
      ensures table == if pid.None? then old(table) else TaskTables.Fork(old(table), p, pid.value)
      ensures pid.Some? ==> table[pid.value].Some? && table[pid.value].value.ppid == p && table[pid.value].value.state.Ready?
    {
      pid := FreeSlot();
      if pid.Some? {
        var child := table[p].value;
        child := Task(p, Ready, child.waitpid, child.status, None);
        table := table[pid.value := Some(child)];
      }
    }

    /** The loop of task_exit that hands the children of p to q. */
    method Orphan(p: nat, q: nat)
      modifies this
      ensures table == Reparent(old(table), p, q)
    {
      ghost var t := table;
      var i := 2;
      while i < |table|
        invariant 2 <= i && |table| == |t|
        invariant forall j :: 0 <= j < |t| && j < i ==> table[j] == Adopted(t, j, p, q)
        invariant forall j :: i <= j < |t| ==> table[j] == t[j]
      {
        if table[i].Some? && table[i].value.ppid == p {
          var child := table[i].value;
          table := table[i := Some(Task(q, child.state, child.waitpid, child.status, child.resume))];
        }
        i := i + 1;
      }
    }

    /** task_exit of task p, whose parent is present in every reachable table. */
    method Exit(p: nat, status: int)
      requires p < |table| && table[p].Some? && TaskTables.Exit(table, p, status).Some?
      modifies this
      ensures TaskTables.Exit(old(table), p, status) == Some(table)
    {
      var task := table[p].value;
      table := table[p := Some(Task(task.ppid, Died, task.waitpid, status, task.resume))];
      Orphan(p, task.ppid);
      var parent := table[task.ppid].value;
      if parent.state.Waiting? && (parent.waitpid == ANY || parent.waitpid == p) {
        table := table[task.ppid := Some(Task(parent.ppid, Ready, parent.waitpid, parent.status, Some(parent.waitpid)))];
      }
    }

    /** One turn of the loop of task_waitpid for task p. */
    method WaitPid(p: nat, pid: int) returns (r: WaitResult)
      requires p < |table| && table[p].Some?
      modifies this
      ensures (table, r) == Scan(old(table), p, pid)
    {
      ghost var t := table;
      var task := table[p].value;
      var hasChild := false;
      var i := 2;
      while i < |table|
        invariant 2 <= i && table == t
        invariant FirstDead(t, p, pid, 2) == FirstDead(t, p, pid, i)
        invariant hasChild <==> exists j: nat :: j < i && Match(t, p, pid, j)
      {
        if table[i].Some? && table[i].value.ppid == p && (pid == i || pid == ANY) {
          assert Match(t, p, pid, i);
          if table[i].value.state.Died? {
            var status := table[i].value.status;
            table := table[p := Some(Task(task.ppid, task.state, task.waitpid, task.status, None))];
            table := table[i := None];
            return Reaped(i, status);
          }
          hasChild := true;
        }
        i := i + 1;
      }
      if hasChild {
        table := table[p := Some(Task(task.ppid, Waiting, pid, task.status, None))];
        return Blocks;
      }
      table := table[p := Some(Task(task.ppid, task.state, task.waitpid, task.status, None))];
      return NoChild;
    }
  }
}
