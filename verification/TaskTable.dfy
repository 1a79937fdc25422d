/** Parents and children in kernel/task.c: fork, exit with reparenting, and waitpid over the table of 64
    tasks, in any interleaving.  A pid is a slot of the table.  The scheduler is any choice among the
    tasks that are not blocked, waiting or dead; other blocking and waking is a pair of steps. */
module TaskTables {
  import opened Basics
  import opened Sequences

  const NR_TASKS := 64
  const ANY: int := -1

  /** TASK_READY and TASK_RUNNING are one state here, TASK_BLOCKED and TASK_SLEEPING another. */
  datatype State = Ready | Blocked | Waiting | Died

  /** `resume` is the argument of the waitpid call the task was woken in and has to go on with. */
  datatype Task = Task(ppid: nat, state: State, waitpid: int, status: int, resume: Option<int>)

  type Table = seq<Option<Task>>

  predicate Live(t: Table, i: nat) {
    i < |t| && t[i].Some? && !t[i].value.state.Died?
  }

  predicate Dead(t: Table, i: nat) {
    i < |t| && t[i].Some? && t[i].value.state.Died?
  }

  /** Slot i holds a child of p that waitpid(pid) looks for; the scan starts at slot 2. */
  predicate Match(t: Table, p: nat, pid: int, i: nat) {
    2 <= i < |t| && t[i].Some? && t[i].value.ppid == p && (pid == i || pid == ANY)
  }

  predicate DeadMatch(t: Table, p: nat, pid: int, i: nat) {
    Match(t, p, pid, i) && t[i].value.state.Died?
  }

  // ---------------------------------------------------------------- fork

  /** task_fork of parent p into slot i: a copy but for pid, parent and state. */
  function Fork(t: Table, p: nat, i: nat): Table
    requires p < |t| && t[p].Some? && i < |t|
  {
    var parent := t[p].value;
    t[i := Some(Task(p, Ready, parent.waitpid, parent.status, None))]
  }

  // ---------------------------------------------------------------- exit

  function Adopted(t: Table, i: nat, p: nat, q: nat): Option<Task>
    requires i < |t|
  {
    if 2 <= i && t[i].Some? && t[i].value.ppid == p
    then Some(Task(q, t[i].value.state, t[i].value.waitpid, t[i].value.status, t[i].value.resume))
    else t[i]
  }

  /** The children of p become children of q. */
  function Reparent(t: Table, p: nat, q: nat): (r: Table)
    ensures |r| == |t|
    ensures forall i :: 0 <= i < |r| ==> r[i] == Adopted(t, i, p, q)
  {
    seq(|t|, i requires 0 <= i < |t| => Adopted(t, i, p, q))
  }

  function Buried(task: Task, status: int): Task {
    Task(task.ppid, Died, task.waitpid, status, task.resume)
  }

  /** task_unblock of a task waiting in waitpid. */
  function Roused(task: Task): Task {
    Task(task.ppid, Ready, task.waitpid, task.status, Some(task.waitpid))
  }

  function WakeParent(t: Table, q: nat, p: nat): Table
    requires q < |t| && t[q].Some?
  {
    var parent := t[q].value;
    if parent.state.Waiting? && (parent.waitpid == ANY || parent.waitpid == p) then t[q := Some(Roused(parent))] else t
  }

  /** task_exit; None where the parent's slot is empty. */
  function Exit(t: Table, p: nat, status: int): Option<Table>
    requires p < |t| && t[p].Some?
  {
    var q := t[p].value.ppid;
    var t1 := Reparent(t[p := Some(Buried(t[p].value, status))], p, q);
    if q < |t1| && t1[q].Some? then Some(WakeParent(t1, q, p)) else None
  }

  // ---------------------------------------------------------------- waitpid

  /** The first dead matching child from `from` on. */
  function FirstDead(t: Table, p: nat, pid: int, from: nat): (r: Option<nat>)
    requires from >= 2
    ensures r.Some? ==> from <= r.value && DeadMatch(t, p, pid, r.value)
    ensures forall i: nat :: from <= i && (r.Some? ==> i < r.value) ==> !DeadMatch(t, p, pid, i)
    decreases |t| - from
  {
    if from >= |t| then None else if DeadMatch(t, p, pid, from) then Some(from) else FirstDead(t, p, pid, from + 1)
  }

  ghost predicate HasMatch(t: Table, p: nat, pid: int) {
    exists i: nat :: Match(t, p, pid, i)
  }

  datatype WaitResult = Reaped(child: nat, status: int) | Blocks | NoChild

  /** One turn of the loop of task_waitpid. */
  ghost function Scan(t: Table, p: nat, pid: int): (r: (Table, WaitResult))
    requires p < |t| && t[p].Some?
  {
    var task := t[p].value;
    match FirstDead(t, p, pid, 2)
    case Some(i) =>
      (t[p := Some(Task(task.ppid, task.state, task.waitpid, task.status, None))][i := None], Reaped(i, t[i].value.status))
    case None =>
      if HasMatch(t, p, pid) then (t[p := Some(Task(task.ppid, Waiting, pid, task.status, None))], Blocks)
      else (t[p := Some(Task(task.ppid, task.state, task.waitpid, task.status, None))], NoChild)
  }

  // ---------------------------------------------------------------- the system

  /** The table, the number of each task's birth, the births so far, and the births already reaped. */
  datatype Sys = Sys(t: Table, born: seq<nat>, clock: nat, reaped: set<nat>)

  datatype Step = DoFork(p: nat) | DoExit(p: nat, status: int) | DoWait(p: nat, pid: int) | DoBlock(p: nat) | DoWake(p: nat)

  /** A task acts only while it runs; one woken inside waitpid goes on there; pids 0 and 1 never exit. */
  predicate Can(s: Sys, step: Step) {
    && step.p < |s.t| && |s.born| == |s.t| && s.t[step.p].Some?
    && var task := s.t[step.p].value;
       match step
       case DoFork(p) => task.state.Ready? && task.resume.None?
       case DoExit(p, status) => task.state.Ready? && task.resume.None? && p >= 2
       case DoWait(p, pid) => task.state.Ready? && (task.resume.Some? ==> task.resume.value == pid)
       case DoBlock(p) => task.state.Ready? && task.resume.None?
       case DoWake(p) => task.state.Blocked?
  }

  function WithState(task: Task, state: State): Task {
    Task(task.ppid, state, task.waitpid, task.status, task.resume)
  }

  /** None where the kernel halts. */
  ghost function Do(s: Sys, step: Step): Option<Sys>
    requires Can(s, step)
  {
    match step
    case DoFork(p) =>
      (match FirstFree(s.t, 0)
       case None => None
       case Some(i) => Some(Sys(Fork(s.t, p, i), s.born[i := s.clock], s.clock + 1, s.reaped)))
    case DoExit(p, status) =>
      (match Exit(s.t, p, status)
       case None => None
       case Some(t) => Some(Sys(t, s.born, s.clock, s.reaped)))
    case DoWait(p, pid) =>
      var (t, r) := Scan(s.t, p, pid);
      Some(Sys(t, s.born, s.clock,
               if r.Reaped? && r.child < |s.born| then s.reaped + {s.born[r.child]} else s.reaped))
    case DoBlock(p) => Some(Sys(s.t[p := Some(WithState(s.t[p].value, Blocked))], s.born, s.clock, s.reaped))
    case DoWake(p) => Some(Sys(s.t[p := Some(WithState(s.t[p].value, Ready))], s.born, s.clock, s.reaped))
  }

  // ---------------------------------------------------------------- the invariant

  /** The parent of task i is present, not dead, and was born before it; 0 and 1 descend from 0. */
  predicate HasParent(t: Table, born: seq<nat>, i: nat) {
    i < |t| && i < |born| && t[i].Some? ==>
      var q := t[i].value.ppid;
      && Live(t, q) && q < |born|
      && (if i < 2 then q == 0 else born[q] < born[i])
  }

  ghost predicate Rooted(t: Table, born: seq<nat>) {
    |t| == |born| == NR_TASKS && Live(t, 0) && Live(t, 1) && forall i: nat :: HasParent(t, born, i)
  }

  /** A waiting task has a live child it waits for and no dead one. */
  ghost predicate WaitsWell(t: Table, p: nat) {
    p < |t| && t[p].Some? && t[p].value.state.Waiting? ==>
      && t[p].value.resume.None?
      && (exists i: nat :: Match(t, p, t[p].value.waitpid, i))
      && (forall i: nat :: !DeadMatch(t, p, t[p].value.waitpid, i))
  }

  /** A task woken in waitpid is alive and has a dead child to find. */
  ghost predicate WokenWell(t: Table, p: nat) {
    p < |t| && t[p].Some? && t[p].value.resume.Some? ==>
      t[p].value.state.Ready? && exists i: nat :: DeadMatch(t, p, t[p].value.resume.value, i)
  }

  predicate Unreaped(s: Sys, i: nat) {
    i < |s.t| && i < |s.born| && s.t[i].Some? ==> s.born[i] < s.clock && s.born[i] !in s.reaped
  }

  predicate OneBirth(t: Table, born: seq<nat>, i: nat, j: nat) {
    i < |t| && j < |t| && i < |born| && j < |born| && t[i].Some? && t[j].Some? && i != j ==> born[i] != born[j]
  }

  /** No birth number is used twice or reaped twice. */
  ghost predicate Births(s: Sys) {
    && (forall i: nat :: Unreaped(s, i))
    && (forall i: nat, j: nat :: OneBirth(s.t, s.born, i, j))
    && (forall b :: b in s.reaped ==> b < s.clock)
  }

  ghost predicate Waits(t: Table) {
    forall p: nat :: WaitsWell(t, p) && WokenWell(t, p)
  }

  ghost predicate Inv(s: Sys) {
    Rooted(s.t, s.born) && Births(s) && Waits(s.t)
  }

  // ---------------------------------------------------------------- fork keeps it

  lemma ForkRooted(t: Table, born: seq<nat>, p: nat, i: nat, now: nat)
    requires Rooted(t, born) && Live(t, p) && i < |t| && t[i].None? && born[p] < now
    requires forall j: nat :: j < |t| && t[j].Some? ==> born[j] < now
    ensures Rooted(Fork(t, p, i), born[i := now])
  {
    var t', born' := Fork(t, p, i), born[i := now];
    forall j: nat
      ensures HasParent(t', born', j)
    {
      assert HasParent(t, born, j);
    }
  }

  lemma ForkWaits(t: Table, p: nat, i: nat)
    requires Waits(t) && p < |t| && t[p].Some? && i < |t| && t[i].None?
    ensures Waits(Fork(t, p, i))
  {
    var t' := Fork(t, p, i);
    forall q: nat, pid: int, j: nat
      ensures DeadMatch(t', q, pid, j) <==> DeadMatch(t, q, pid, j)
      ensures Match(t, q, pid, j) ==> Match(t', q, pid, j)
    {}
    hide Match, DeadMatch;
    forall q: nat
      ensures WaitsWell(t', q) && WokenWell(t', q)
    {
      assert WaitsWell(t, q) && WokenWell(t, q);
    }
  }

  lemma ForkKeeps(s: Sys, p: nat)
    requires Inv(s) && Can(s, DoFork(p)) && FirstFree(s.t, 0).Some?
    ensures Do(s, DoFork(p)).Some? && Inv(Do(s, DoFork(p)).value)
  {
    var i := FirstFree(s.t, 0).value;
    forall j: nat | j < |s.t| && s.t[j].Some?
      ensures s.born[j] < s.clock
    {
      assert Unreaped(s, j);
    }
    ForkRooted(s.t, s.born, p, i, s.clock);
    ForkWaits(s.t, p, i);
    var s' := Do(s, DoFork(p)).value;
    hide Rooted, Waits;
    forall j: nat
      ensures Unreaped(s', j)
    {
      assert Unreaped(s, j);
    }
    forall j: nat, k: nat
      ensures OneBirth(s'.t, s'.born, j, k)
    {
      assert OneBirth(s.t, s.born, j, k) && Unreaped(s, j) && Unreaped(s, k);
    }
  }

  // ---------------------------------------------------------------- exit keeps it

  /** The table after task p died and its children moved to q, before the parent is woken. */
  function Orphaned(t: Table, p: nat, status: int): (r: Table)
    requires p < |t| && t[p].Some?
    ensures |r| == |t|
  {
    Reparent(t[p := Some(Buried(t[p].value, status))], p, t[p].value.ppid)
  }

  /** Who matches after the exit: what matched before, the children of p now for q. */
  lemma OrphanMatches(t: Table, p: nat, status: int, w: nat, pid: int, i: nat)
    requires p < |t| && t[p].Some? && !t[p].value.state.Died? && p >= 2 && t[p].value.ppid != p
    ensures var t', q := Orphaned(t, p, status), t[p].value.ppid;
      && (Match(t', w, pid, i) <==> (Match(t, w, pid, i) && w != p) || (w == q && Match(t, p, pid, i)))
      && (DeadMatch(t', w, pid, i) <==> (w != p && DeadMatch(t, w, pid, i)) || (w == q && DeadMatch(t, p, pid, i))
                                        || (w == q && i == p && (pid == p || pid == ANY)))
  {}

  lemma OrphanRooted(t: Table, born: seq<nat>, p: nat, status: int)
    requires Rooted(t, born) && Live(t, p) && p >= 2
    ensures t[p].value.ppid != p && Live(Orphaned(t, p, status), t[p].value.ppid)
    ensures Rooted(Orphaned(t, p, status), born)
  {
    var q := t[p].value.ppid;
    assert HasParent(t, born, p);
    var t' := Orphaned(t, p, status);
    forall i: nat
      ensures HasParent(t', born, i)
    {
      assert HasParent(t, born, i);
    }
  }

  lemma OrphanBirths(s: Sys, p: nat, status: int)
    requires Births(s) && p < |s.t| && s.t[p].Some?
    ensures Births(Sys(Orphaned(s.t, p, status), s.born, s.clock, s.reaped))
  {
    var s' := Sys(Orphaned(s.t, p, status), s.born, s.clock, s.reaped);
    forall i: nat
      ensures Unreaped(s', i)
    {
      assert Unreaped(s, i);
    }
    forall i: nat, j: nat
      ensures OneBirth(s'.t, s'.born, i, j)
    {
      assert OneBirth(s.t, s.born, i, j);
    }
  }

  /** After the exit of p every task but its parent q waits as well as before. */
  lemma OrphanWaits(t: Table, p: nat, status: int, w: nat)
    requires Waits(t) && Live(t, p) && p >= 2 && t[p].value.ppid != p
    requires t[p].value.state.Ready? && t[p].value.resume.None?
    ensures w != t[p].value.ppid ==> WaitsWell(Orphaned(t, p, status), w)
    ensures WokenWell(Orphaned(t, p, status), w)
  {
    var t' := Orphaned(t, p, status);
    assert WaitsWell(t, w) && WokenWell(t, w);
    forall pid: int, i: nat
      ensures var q := t[p].value.ppid;
      && (Match(t', w, pid, i) <==> (Match(t, w, pid, i) && w != p) || (w == q && Match(t, p, pid, i)))
      && (DeadMatch(t', w, pid, i) <==> (w != p && DeadMatch(t, w, pid, i)) || (w == q && DeadMatch(t, p, pid, i))
                                        || (w == q && i == p && (pid == p || pid == ANY)))
    {
      OrphanMatches(t, p, status, w, pid, i);
    }
    hide Match, DeadMatch, Orphaned;
    if w < |t| {
      OrphanSame(t, p, status, w);
    }
  }

  lemma OrphanSame(t: Table, p: nat, status: int, w: nat)
    requires Live(t, p) && w < |t|
    ensures var t' := Orphaned(t, p, status);
      && (t'[w].Some? <==> t[w].Some?)
      && (t[w].Some? ==> t'[w].value.waitpid == t[w].value.waitpid && t'[w].value.resume == t[w].value.resume
                         && t'[w].value.state == if w == p then Died else t[w].value.state)
  {}

  // ---------------------------------------------------------------- one task changes its own state

  /** Task p gets new flags; its parent and whether it is dead stay. */
  ghost predicate Touched(t: Table, t': Table, p: nat) {
    && p < |t| == |t'| && t[p].Some? && t'[p].Some?
    && t'[p].value.ppid == t[p].value.ppid && (t'[p].value.state.Died? <==> t[p].value.state.Died?)
    && (forall i: nat :: i < |t| && i != p ==> t'[i] == t[i])
  }

  lemma TouchedMatches(t: Table, t': Table, p: nat, w: nat, pid: int, i: nat)
    requires Touched(t, t', p)
    ensures Match(t', w, pid, i) <==> Match(t, w, pid, i)
    ensures DeadMatch(t', w, pid, i) <==> DeadMatch(t, w, pid, i)
    ensures Live(t', i) <==> Live(t, i)
  {}

  lemma TouchedRooted(t: Table, t': Table, born: seq<nat>, p: nat)
    requires Touched(t, t', p) && Rooted(t, born)
    ensures Rooted(t', born)
  {
    forall i: nat
      ensures HasParent(t', born, i)
    {
      assert HasParent(t, born, i);
    }
  }

  lemma TouchedBirths(s: Sys, t': Table, p: nat)
    requires Touched(s.t, t', p) && Births(s)
    ensures Births(Sys(t', s.born, s.clock, s.reaped))
  {
    var s' := Sys(t', s.born, s.clock, s.reaped);
    forall i: nat
      ensures Unreaped(s', i)
    {
      assert Unreaped(s, i);
    }
    forall i: nat, j: nat
      ensures OneBirth(s'.t, s'.born, i, j)
    {
      assert OneBirth(s.t, s.born, i, j);
    }
  }

  /** The other tasks wait as they did. */
  lemma TouchedWaits(t: Table, t': Table, p: nat, w: nat)
    requires Touched(t, t', p) && WaitsWell(t, w) && WokenWell(t, w) && w != p
    ensures WaitsWell(t', w) && WokenWell(t', w)
  {
    forall pid: int, i: nat
      ensures Match(t', w, pid, i) <==> Match(t, w, pid, i)
      ensures DeadMatch(t', w, pid, i) <==> DeadMatch(t, w, pid, i)
    {
      TouchedMatches(t, t', p, w, pid, i);
    }
    hide Match, DeadMatch;
  }

  // ---------------------------------------------------------------- exit wakes the parent

  /** A parent that waits for another child than p keeps waiting well. */
  lemma OtherChildAwaited(t: Table, p: nat, status: int)
    requires Waits(t) && Live(t, p) && p >= 2 && t[p].value.ppid != p && t[p].value.ppid < |t|
    requires t[t[p].value.ppid].Some?
    requires t[t[p].value.ppid].value.waitpid != ANY && t[t[p].value.ppid].value.waitpid != p
    ensures WaitsWell(Orphaned(t, p, status), t[p].value.ppid)
  {
    var t', q := Orphaned(t, p, status), t[p].value.ppid;
    var pid := t[q].value.waitpid;
    OrphanSame(t, p, status, q);
    assert WaitsWell(t, q);
    if t[q].value.state.Waiting? {
      var i: nat :| Match(t, q, pid, i);
      OrphanMatches(t, p, status, q, pid, i);
      forall j: nat
        ensures !DeadMatch(t', q, pid, j)
      {
        OrphanMatches(t, p, status, q, pid, j);
        assert !DeadMatch(t, q, pid, j);
      }
    }
  }

  lemma ExitKeeps(s: Sys, p: nat, status: int)
    requires Inv(s) && Can(s, DoExit(p, status))
    ensures Do(s, DoExit(p, status)).Some? && Inv(Do(s, DoExit(p, status)).value)
  {
    var q := s.t[p].value.ppid;
    OrphanRooted(s.t, s.born, p, status);
    OrphanBirths(s, p, status);
    var t1 := Orphaned(s.t, p, status);
    var t' := WakeParent(t1, q, p);
    assert Exit(s.t, p, status) == Some(t');
    WakeTouches(t1, q, p);
    TouchedRooted(t1, t', s.born, q);
    TouchedBirths(Sys(t1, s.born, s.clock, s.reaped), t', q);
    ExitWaits(s.t, p, status);
    hide Rooted, Births, Waits, Orphaned, WakeParent, Exit;
  }

  lemma WakeTouches(t: Table, q: nat, p: nat)
    requires Live(t, q)
    ensures Touched(t, WakeParent(t, q, p), q)
  {}

  lemma ExitWaits(t: Table, p: nat, status: int)
    requires Waits(t) && Live(t, p) && p >= 2 && t[p].value.ppid != p && t[p].value.state.Ready? && t[p].value.resume.None?
    requires Live(Orphaned(t, p, status), t[p].value.ppid)
    ensures Waits(WakeParent(Orphaned(t, p, status), t[p].value.ppid, p))
  {
    var q := t[p].value.ppid;
    var t1 := Orphaned(t, p, status);
    var t' := WakeParent(t1, q, p);
    WakeTouches(t1, q, p);
    forall w: nat
      ensures WaitsWell(t', w) && WokenWell(t', w)
    {
      OrphanWaits(t, p, status, w);
      if w != q {
        TouchedWaits(t1, t', q, w);
      } else {
        ExitParent(t, p, status);
      }
    }
  }

  lemma ExitParent(t: Table, p: nat, status: int)
    requires Waits(t) && Live(t, p) && p >= 2 && t[p].value.ppid != p && t[p].value.state.Ready? && t[p].value.resume.None?
    requires Live(Orphaned(t, p, status), t[p].value.ppid)
    ensures var q := t[p].value.ppid; var t' := WakeParent(Orphaned(t, p, status), q, p);
      WaitsWell(t', q) && WokenWell(t', q)
  {
    var q := t[p].value.ppid;
    var t1 := Orphaned(t, p, status);
    OrphanSame(t, p, status, q);
    OrphanWaits(t, p, status, q);
    var parent := t1[q].value;
    if parent.state.Waiting? && (parent.waitpid == ANY || parent.waitpid == p) {
      OrphanMatches(t, p, status, q, parent.waitpid, p);
      WakeTouches(t1, q, p);
      TouchedMatches(t1, WakeParent(t1, q, p), q, q, parent.waitpid, p);
    } else if parent.state.Waiting? {
      OtherChildAwaited(t, p, status);
    }
  }

  // ---------------------------------------------------------------- waitpid

  /** What waitpid's answers mean: -1 exactly when there is no matching child, blocking exactly when
      there are only live ones, and otherwise the first dead one with its status. */
  lemma ScanMeans(t: Table, p: nat, pid: int)
    requires p < |t| && t[p].Some?
    ensures var (t', r) := Scan(t, p, pid);
      && (r.NoChild? <==> !HasMatch(t, p, pid))
      && (r.Blocks? <==> HasMatch(t, p, pid) && forall i: nat :: !DeadMatch(t, p, pid, i))
      && (r.Reaped? ==>
            && DeadMatch(t, p, pid, r.child) && r.status == t[r.child].value.status && t'[r.child].None?
            && forall i: nat :: i < r.child ==> !DeadMatch(t, p, pid, i))
  {
    var first := FirstDead(t, p, pid, 2);
    assert first.Some? ==> Match(t, p, pid, first.value);
    assert forall i: nat :: DeadMatch(t, p, pid, i) ==> i >= 2;
  }

  /** A task woken inside waitpid always finds a dead child when it goes on: no wakeup is in vain. */
  lemma WokenReaps(s: Sys, p: nat, pid: int)
    requires Inv(s) && p < |s.t| && s.t[p].Some? && s.t[p].value.resume == Some(pid)
    ensures Scan(s.t, p, pid).1.Reaped?
  {
    assert WokenWell(s.t, p);
    var i: nat :| DeadMatch(s.t, p, pid, i);
    assert Match(s.t, p, pid, i);
    ScanMeans(s.t, p, pid);
  }

  ghost predicate Reaping(t: Table, t': Table, p: nat, i: nat) {
    && p < |t| == |t'| && i < |t| && i != p && t[p].Some? && t[i].Some? && t[i].value.state.Died? && t[i].value.ppid == p
    && t'[i].None? && t'[p].Some? && t'[p].value.ppid == t[p].value.ppid
    && t'[p].value.state.Ready? && t[p].value.state.Ready? && t'[p].value.resume.None?
    && (forall j: nat :: j < |t| && j != p && j != i ==> t'[j] == t[j])
  }

  lemma ReapRooted(t: Table, t': Table, born: seq<nat>, p: nat, i: nat)
    requires Rooted(t, born) && Reaping(t, t', p, i)
    ensures Rooted(t', born)
  {
    forall j: nat
      ensures HasParent(t', born, j)
    {
      assert HasParent(t, born, j);
    }
  }

  lemma ReapWaits(t: Table, t': Table, p: nat, i: nat, w: nat)
    requires Reaping(t, t', p, i) && WaitsWell(t, w) && WokenWell(t, w)
    ensures WaitsWell(t', w) && WokenWell(t', w)
  {
    if w != p {
      forall pid: int, j: nat
        ensures Match(t', w, pid, j) <==> Match(t, w, pid, j)
        ensures DeadMatch(t', w, pid, j) <==> DeadMatch(t, w, pid, j)
      {}
      hide Match, DeadMatch;
    }
  }

  lemma ReapBirths(s: Sys, t': Table, p: nat, i: nat)
    requires Births(s) && Reaping(s.t, t', p, i) && |s.born| == |s.t|
    ensures s.born[i] !in s.reaped
    ensures Births(Sys(t', s.born, s.clock, s.reaped + {s.born[i]}))
  {
    var s' := Sys(t', s.born, s.clock, s.reaped + {s.born[i]});
    assert Unreaped(s, i);
    forall j: nat
      ensures Unreaped(s', j)
    {
      assert Unreaped(s, j) && OneBirth(s.t, s.born, i, j);
    }
    forall j: nat, k: nat
      ensures OneBirth(s'.t, s'.born, j, k)
    {
      assert OneBirth(s.t, s.born, j, k);
    }
  }

  lemma WaitKeeps(s: Sys, p: nat, pid: int)
    requires Inv(s) && Can(s, DoWait(p, pid))
    ensures Inv(Do(s, DoWait(p, pid)).value)
  {
    var (t', r) := Scan(s.t, p, pid);
    ScanMeans(s.t, p, pid);
    if r.Reaped? {
      assert Reaping(s.t, t', p, r.child);
      ReapRooted(s.t, t', s.born, p, r.child);
      ReapBirths(s, t', p, r.child);
      forall w: nat
        ensures WaitsWell(t', w) && WokenWell(t', w)
      {
        assert WaitsWell(s.t, w) && WokenWell(s.t, w);
        ReapWaits(s.t, t', p, r.child, w);
      }
      hide Rooted, Births;
    } else {
      assert Touched(s.t, t', p);
      ScanSelf(s.t, p, pid);
      OwnChange(s, t', p);
    }
  }

  lemma ScanSelf(t: Table, p: nat, pid: int)
    requires p < |t| && t[p].Some? && t[p].value.state.Ready? && !Scan(t, p, pid).1.Reaped?
    ensures WaitsWell(Scan(t, p, pid).0, p) && WokenWell(Scan(t, p, pid).0, p)
  {
    var (t', r) := Scan(t, p, pid);
    ScanMeans(t, p, pid);
    if r.Blocks? {
      forall i: nat
        ensures Match(t', p, pid, i) <==> Match(t, p, pid, i)
        ensures DeadMatch(t', p, pid, i) <==> DeadMatch(t, p, pid, i)
      {
        TouchedMatches(t, t', p, p, pid, i);
      }
      hide Match, DeadMatch;
      var i: nat :| Match(t, p, pid, i);
      assert Match(t', p, pid, i);
    }
  }

  lemma OwnChange(s: Sys, t': Table, p: nat)
    requires Inv(s) && Touched(s.t, t', p) && WaitsWell(t', p) && WokenWell(t', p)
    ensures Inv(Sys(t', s.born, s.clock, s.reaped))
  {
    TouchedRooted(s.t, t', s.born, p);
    TouchedBirths(s, t', p);
    forall w: nat | w != p
      ensures WaitsWell(t', w) && WokenWell(t', w)
    {
      assert WaitsWell(s.t, w) && WokenWell(s.t, w);
      TouchedWaits(s.t, t', p, w);
    }
    hide Rooted, Births, WaitsWell, WokenWell;
  }

  // ---------------------------------------------------------------- runs

  /** The kernel halts on no step a task can take, except on fork with a full table. */
  lemma StepKeeps(s: Sys, step: Step)
    requires Inv(s) && Can(s, step)
    ensures Do(s, step).None? <==> step.DoFork? && forall i :: 0 <= i < |s.t| ==> s.t[i].Some?
    ensures Do(s, step).Some? ==> Inv(Do(s, step).value)
  {
    match step {
      case DoFork(p) =>
        if FirstFree(s.t, 0).Some? {
          ForkKeeps(s, p);
        }
      case DoExit(p, status) => ExitKeeps(s, p, status);
      case DoWait(p, pid) => WaitKeeps(s, p, pid);
      case DoBlock(p) => StateKeeps(s, p, Blocked);
      case DoWake(p) =>
        assert WokenWell(s.t, p);
        StateKeeps(s, p, Ready);
    }
  }

  lemma StateKeeps(s: Sys, p: nat, state: State)
    requires Inv(s) && p < |s.t| && s.t[p].Some? && !s.t[p].value.state.Died? && s.t[p].value.resume.None?
    requires state.Ready? || state.Blocked?
    ensures Inv(Sys(s.t[p := Some(WithState(s.t[p].value, state))], s.born, s.clock, s.reaped))
  {
    OwnChange(s, s.t[p := Some(WithState(s.t[p].value, state))], p);
  }

  ghost predicate Run(s: Sys, steps: seq<Step>, s': Sys)
    decreases |steps|
  {
    if steps == [] then s' == s
    else Can(s, steps[0]) && Do(s, steps[0]).Some? && Run(Do(s, steps[0]).value, steps[1..], s')
  }

  lemma {:induction false} RunKeeps(s: Sys, steps: seq<Step>, s': Sys)
    requires Inv(s) && Run(s, steps, s')
    ensures Inv(s')
    decreases |steps|
  {
    hide Inv, Do, Can;
    if steps != [] {
      StepKeeps(s, steps[0]);
      RunKeeps(Do(s, steps[0]).value, steps[1..], s');
    }
  }

  // ---------------------------------------------------------------- whose child it is

  /** Slot i holds a child of p. */
  predicate ChildOf(t: Table, i: nat, p: nat) {
    2 <= i < |t| && t[i].Some? && t[i].value.ppid == p
  }

  /** A fork gives the caller, and nobody else, a child: a waitpid(pid) or waitpid(-1) of the caller finds it, one for
      it alone blocks, and no other task can wait for it. */
  lemma ForkGivesChild(s: Sys, p: nat)
    requires Inv(s) && Can(s, DoFork(p)) && Do(s, DoFork(p)).Some?
    ensures var t', i := Do(s, DoFork(p)).value.t, FirstFree(s.t, 0).value;
      && 2 <= i < |s.t| && s.t[i].None? && ChildOf(t', i, p) && t'[i].value.state.Ready?
      && Match(t', p, i, i) && Match(t', p, -1, i) && Scan(t', p, i).1.Blocks?
      && (forall w: nat, pid: int :: w != p ==> !Match(t', w, pid, i))
      && (forall j: nat, w: nat :: j != i ==> (ChildOf(t', j, w) <==> ChildOf(s.t, j, w)))
  {
    var t', i := Do(s, DoFork(p)).value.t, FirstFree(s.t, 0).value;
    assert Live(s.t, 0) && Live(s.t, 1);
    assert Match(t', p, i, i);
    ScanMeans(t', p, i);
  }

  /** An exit hands the children of p to the parent of p; p itself stays its child, dead, until that reaps it, and a
      parent that waits for p, or for any child, is woken. */
  lemma ExitHandsOver(s: Sys, p: nat, status: int)
    requires Inv(s) && Can(s, DoExit(p, status)) && Do(s, DoExit(p, status)).Some?
    ensures var t', q := Do(s, DoExit(p, status)).value.t, s.t[p].value.ppid;
      && q != p && ChildOf(t', p, q) && t'[p].value.state.Died? && t'[p].value.status == status
      && (forall i: nat, w: nat :: i != p ==> (ChildOf(t', i, w) <==>
            (w != p && ChildOf(s.t, i, w)) || (w == q && ChildOf(s.t, i, p))))
      && (s.t[q].Some? && s.t[q].value.state.Waiting? && (s.t[q].value.waitpid == -1 || s.t[q].value.waitpid == p) ==>
            t'[q].Some? && t'[q].value.state.Ready? && t'[q].value.resume == Some(s.t[q].value.waitpid))
  {
    OrphanRooted(s.t, s.born, p, status);
    assert HasParent(s.t, s.born, p);
  }

  /** A child stays its parent's, and the same one, until the parent exits or its own waitpid takes it. */
  lemma ChildStays(s: Sys, step: Step, i: nat, p: nat)
    requires Inv(s) && Can(s, step) && Do(s, step).Some? && ChildOf(s.t, i, p)
    requires !(step.DoExit? && step.p == p)
    ensures var s' := Do(s, step).value;
      || (ChildOf(s'.t, i, p) && i < |s.born| == |s'.born| && s'.born[i] == s.born[i])
      || (&& step.DoWait? && step.p == p && s'.t[i].None?
          && Scan(s.t, p, step.pid).1 == Reaped(i, s.t[i].value.status))
  {
    match step {
      case DoFork(q) => ForkGivesChild(s, q);
      case DoExit(q, status) => ExitHandsOver(s, q, status);
      case DoWait(q, pid) => ScanMeans(s.t, q, pid);
      case DoBlock(q) => {}
      case DoWake(q) => {}
    }
  }

  /** Some step of the run is a waitpid of p that returns i. */
  ghost predicate ReapedBy(s: Sys, steps: seq<Step>, p: nat, i: nat)
    decreases |steps|
  {
    steps != [] && Can(s, steps[0]) && Do(s, steps[0]).Some? &&
    ((&& steps[0].DoWait? && steps[0].p == p && Scan(s.t, p, steps[0].pid).1.Reaped?
      && Scan(s.t, p, steps[0].pid).1.child == i)
     || ReapedBy(Do(s, steps[0]).value, steps[1..], p, i))
  }

  /** Over every run in which p does not exit, only a waitpid of p takes a child of p off the table. */
  lemma {:induction false} OnlyParentReaps(s: Sys, steps: seq<Step>, s': Sys, p: nat, i: nat)
    requires Inv(s) && Run(s, steps, s') && ChildOf(s.t, i, p)
    requires forall k :: 0 <= k < |steps| ==> !(steps[k].DoExit? && steps[k].p == p)
    ensures ReapedBy(s, steps, p, i) || (ChildOf(s'.t, i, p) && |s'.born| == |s.born| && i < |s.born| && s'.born[i] == s.born[i])
    decreases |steps|
  {
    hide Do, Can, ChildOf, Scan;
    assert |s.born| == NR_TASKS && i < |s.born| by { ChildInTable(s, i, p); }
    hide Inv;
    if steps != [] {
      StepKeeps(s, steps[0]);
      ChildStays(s, steps[0], i, p);
      var s1 := Do(s, steps[0]).value;
      if ChildOf(s1.t, i, p) {
        OnlyParentReaps(s1, steps[1..], s', p, i);
      }
    }
  }

  lemma ChildInTable(s: Sys, i: nat, p: nat)
    requires Inv(s) && ChildOf(s.t, i, p)
    ensures |s.born| == NR_TASKS && i < |s.born|
  {}

  // ---------------------------------------------------------------- the status arrives

  /** Task p has exited with this status and has not been reaped. */
  predicate Zombie(t: Table, p: nat, status: int) {
    Dead(t, p) && t[p].value.status == status
  }

  lemma ExitMakesZombie(s: Sys, p: nat, status: int)
    requires Inv(s) && Can(s, DoExit(p, status))
    ensures Do(s, DoExit(p, status)).Some? && Zombie(Do(s, DoExit(p, status)).value.t, p, status)
  {
    ExitKeeps(s, p, status);
    OrphanRooted(s.t, s.born, p, status);
  }

  /** A dead task keeps its status until its parent's waitpid takes it off the table and returns just that. */
  lemma ZombieWaits(s: Sys, step: Step, p: nat, status: int)
    requires Inv(s) && Can(s, step) && Do(s, step).Some? && Zombie(s.t, p, status)
    ensures var t' := Do(s, step).value.t;
      || Zombie(t', p, status)
      || (&& t'[p].None? && step.DoWait? && ChildOf(s.t, p, step.p)
          && Scan(s.t, step.p, step.pid).1 == Reaped(p, status))
  {
    match step {
      case DoFork(q) => {}
      case DoExit(q, status') => OrphanRooted(s.t, s.born, q, status');
      case DoWait(q, pid) => ScanMeans(s.t, q, pid);
      case DoBlock(q) => {}
      case DoWake(q) => {}
    }
  }

  lemma {:induction false} ZombieUntilDelivered(s: Sys, steps: seq<Step>, s': Sys, p: nat, status: int)
    requires Inv(s) && Run(s, steps, s') && Zombie(s.t, p, status)
    ensures Zombie(s'.t, p, status) || Delivered(s, steps, p, status)
    decreases |steps|
  {
    hide Inv, Do, Can, Zombie, Scan;
    if steps != [] {
      StepKeeps(s, steps[0]);
      ZombieWaits(s, steps[0], p, status);
      var s1 := Do(s, steps[0]).value;
      if Zombie(s1.t, p, status) {
        ZombieUntilDelivered(s1, steps[1..], s', p, status);
      }
    }
  }

  /** Over every run that begins with an exit: the task is still there, dead and with its status, or some
      waitpid on the way has returned its pid with exactly the status it exited with. */
  lemma StatusIsDelivered(s: Sys, steps: seq<Step>, s': Sys, p: nat, status: int)
    requires Inv(s) && Can(s, DoExit(p, status)) && Do(s, DoExit(p, status)).Some?
    requires Run(Do(s, DoExit(p, status)).value, steps, s')
    ensures Zombie(s'.t, p, status) || Delivered(Do(s, DoExit(p, status)).value, steps, p, status)
  {
    hide Run, Zombie, Delivered, Inv;
    ExitMakesZombie(s, p, status);
    StepKeeps(s, DoExit(p, status));
    ZombieUntilDelivered(Do(s, DoExit(p, status)).value, steps, s', p, status);
  }

  /** Some step of the run is a waitpid of the then parent of p that returns p with this status. */
  ghost predicate Delivered(s: Sys, steps: seq<Step>, p: nat, status: int)
    decreases |steps|
  {
    steps != [] && Can(s, steps[0]) && Do(s, steps[0]).Some? &&
    ((&& steps[0].DoWait? && ChildOf(s.t, p, steps[0].p)
      && Scan(s.t, steps[0].p, steps[0].pid).1 == Reaped(p, status))
     || Delivered(Do(s, steps[0]).value, steps[1..], p, status))
  }

  function Fresh(): Task {
    Task(0, Ready, 0, 0, None)
  }

  /** task_init: idle, init and test, all created with parent 0. */
  function Boot(): Sys {
    Sys(seq(NR_TASKS, i => if i < 3 then Some(Fresh()) else None), seq(NR_TASKS, i => i), 3, {})
  }

  lemma BootInv()
    ensures Inv(Boot())
  {
    var s := Boot();
    assert forall i: nat :: i < NR_TASKS ==> s.born[i] == i && (s.t[i].Some? <==> i < 3);
    assert forall i: nat :: i < 3 ==> s.t[i] == Some(Fresh());
    assert Fresh().ppid == 0 && Fresh().state.Ready? && Fresh().resume.None?;
    forall i: nat
      ensures HasParent(s.t, s.born, i) && Unreaped(s, i)
    {
      if i < 3 {
        assert s.t[i] == Some(Fresh());
      }
    }
    forall i: nat, j: nat
      ensures OneBirth(s.t, s.born, i, j)
    {}
    forall p: nat
      ensures WaitsWell(s.t, p) && WokenWell(s.t, p)
    {
      assert p < 3 && s.t[p].Some? ==> s.t[p].value == Fresh();
    }
  }

  /** Over every run from boot: parents are present and not dead; a waiting task has a live child it waits
      for and no dead one; a reaped child had not been reaped before. */
  lemma FamiliesStayConsistent(steps: seq<Step>, s: Sys, p: nat)
    requires Run(Boot(), steps, s) && p < |s.t| && s.t[p].Some?
    ensures Live(s.t, s.t[p].value.ppid)
    ensures s.t[p].value.state.Waiting? ==>
      HasMatch(s.t, p, s.t[p].value.waitpid) && forall i: nat :: !DeadMatch(s.t, p, s.t[p].value.waitpid, i)
    ensures forall pid: int :: s.t[p].value.state.Ready? ==>
      var r := Scan(s.t, p, pid).1; r.Reaped? ==> r.child < |s.born| && s.born[r.child] !in s.reaped
  {
    BootInv();
    RunKeeps(Boot(), steps, s);
    assert HasParent(s.t, s.born, p) && WaitsWell(s.t, p);
    forall pid: int | s.t[p].value.state.Ready? && Scan(s.t, p, pid).1.Reaped?
      ensures Scan(s.t, p, pid).1.child < |s.born| && s.born[Scan(s.t, p, pid).1.child] !in s.reaped
    {
      ScanMeans(s.t, p, pid);
      assert Unreaped(s, Scan(s.t, p, pid).1.child);
    }
  }
}
