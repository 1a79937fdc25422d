/** The recursive lock of kernel/mutex.c under preemption between any two statements.  Each task runs
    lock_acquire and lock_release statement by statement; the bodies of mutex_lock and mutex_unlock run
    with interrupts off and are single steps, split where they give up the processor. */
module Locks {
  import opened Basics

  /** Where a task is in lock_acquire or lock_release. */
  datatype Pc =
    | Outside        // in neither function
    | CheckHolder    // acquire: about to look who holds the lock
    | TryMutex       // acquire: about to enter mutex_lock
    | Asleep         // acquire: blocked on the mutex
    | Retry          // acquire: woken, about to test the mutex again
    | SetHolder      // acquire: has the mutex, about to enter itself as the holder
    | SetRepeat      // acquire: about to start the count at one
    | Again          // acquire: already the holder, about to count up
    | CheckRepeat    // release: about to test the holder and the count
    | CountDown      // release: an inner release
    | ClearHolder    // release: about to strike itself out as the holder
    | ClearRepeat    // release: about to clear the count
    | Unlock         // release: about to enter mutex_unlock

  /** `depth[t]` counts the acquires of task t that it has not released yet. */
  datatype Sys = Sys(value: bool, holder: Option<nat>, repeat: nat, waiters: seq<nat>, pc: seq<Pc>, depth: seq<nat>)

  predicate Shaped(s: Sys) {
    |s.pc| == |s.depth|
  }

  function At(s: Sys, t: nat, pc: Pc): Sys
    requires t < |s.pc|
  {
    Sys(s.value, s.holder, s.repeat, s.waiters, s.pc[t := pc], s.depth)
  }

  /** mutex_unlock: free the mutex and wake the task at the back of the queue. */
  function Freed(s: Sys, t: nat): Sys
    requires Shaped(s) && t < |s.pc| && s.depth[t] > 0
  {
    var depth := s.depth[t := s.depth[t] - 1];
    if s.waiters == [] then Sys(false, s.holder, s.repeat, [], s.pc[t := Outside], depth)
    else
      var w := s.waiters[|s.waiters| - 1];
      var pc := s.pc[t := Outside];
      Sys(false, s.holder, s.repeat, s.waiters[..|s.waiters| - 1], if w < |pc| then pc[w := Retry] else pc, depth)
  }

  /** The next statement of task t; None where an assertion fails or t cannot run. */
  function Next(s: Sys, t: nat): Option<Sys>
    requires Shaped(s) && t < |s.pc|
  {
    match s.pc[t]
    case Outside => None
    case CheckHolder => Some(At(s, t, if s.holder != Some(t) then TryMutex else Again))
    case TryMutex => Some(Enter(s, t))
    case Asleep => None
    case Retry => Some(Enter(s, t))
    case SetHolder => Some(Sys(s.value, Some(t), s.repeat, s.waiters, s.pc[t := SetRepeat], s.depth))
    case SetRepeat =>
      if s.repeat != 0 then None
      else Some(Sys(s.value, s.holder, 1, s.waiters, s.pc[t := Outside], s.depth[t := s.depth[t] + 1]))
    case Again => Some(Sys(s.value, s.holder, s.repeat + 1, s.waiters, s.pc[t := Outside], s.depth[t := s.depth[t] + 1]))
    case CheckRepeat =>
      if s.holder != Some(t) then None else Some(At(s, t, if s.repeat > 1 then CountDown else ClearHolder))
    case CountDown =>
      if s.repeat == 0 || s.depth[t] == 0 then None
      else Some(Sys(s.value, s.holder, s.repeat - 1, s.waiters, s.pc[t := Outside], s.depth[t := s.depth[t] - 1]))
    case ClearHolder =>
      if s.repeat != 1 then None
      else Some(Sys(s.value, None, s.repeat, s.waiters, s.pc[t := ClearRepeat], s.depth))
    case ClearRepeat => Some(Sys(s.value, s.holder, 0, s.waiters, s.pc[t := Unlock], s.depth))
    case Unlock => if !s.value || s.depth[t] == 0 then None else Some(Freed(s, t))
  }

  /** mutex_lock: take the free mutex, or queue at the front and sleep. */
  function Enter(s: Sys, t: nat): Sys
    requires t < |s.pc|
  {
    if s.value then Sys(s.value, s.holder, s.repeat, [t] + s.waiters, s.pc[t := Asleep], s.depth)
    else Sys(true, s.holder, s.repeat, s.waiters, s.pc[t := SetHolder], s.depth)
  }

  // ---------------------------------------------------------------- the invariant

  /** Between having taken the mutex and having freed it. */
  predicate Owns(pc: Pc, depth: nat) {
    match pc
    case Outside => depth > 0
    case CheckHolder => depth > 0
    case TryMutex => false
    case Asleep => false
    case Retry => false
    case _ => true
  }

  /** What the position in the code says about the task's own acquires. */
  predicate DepthFits(pc: Pc, depth: nat) {
    match pc
    case Outside => true
    case CheckHolder => true
    case TryMutex => depth == 0
    case Asleep => depth == 0
    case Retry => depth == 0
    case SetHolder => depth == 0
    case SetRepeat => depth == 0
    case Again => depth > 0
    case CheckRepeat => depth > 0
    case CountDown => depth > 1
    case _ => depth == 1
  }

  /** The lock's fields as the owner's position determines them. */
  predicate FieldsFit(s: Sys, t: nat, pc: Pc, depth: nat) {
    match pc
    case SetHolder => s.holder == None && s.repeat == 0
    case SetRepeat => s.holder == Some(t) && s.repeat == 0
    case ClearRepeat => s.holder == None && s.repeat == 1
    case Unlock => s.holder == None && s.repeat == 0
    case _ => s.holder == Some(t) && s.repeat == depth
  }

  predicate Queued(s: Sys, t: nat) {
    t in s.waiters
  }

  predicate AsleepAt(s: Sys, t: nat) {
    t < |s.pc| && s.pc[t].Asleep?
  }

  predicate RetryAt(s: Sys, t: nat) {
    t < |s.pc| && s.pc[t].Retry?
  }

  ghost predicate Inv(s: Sys, owner: Option<nat>) {
    && Shaped(s)
    && (forall t :: 0 <= t < |s.pc| ==> DepthFits(s.pc[t], s.depth[t]))
    && (forall t :: 0 <= t < |s.pc| ==> (Owns(s.pc[t], s.depth[t]) <==> owner == Some(t)))
    && (s.value <==> owner.Some?)
    && (owner.None? ==> s.holder == None && s.repeat == 0)
    && (owner.Some? ==> owner.value < |s.pc| && FieldsFit(s, owner.value, s.pc[owner.value], s.depth[owner.value]))
    && (forall t: nat :: Queued(s, t) <==> AsleepAt(s, t))
    && (forall i, j :: 0 <= i < j < |s.waiters| ==> s.waiters[i] != s.waiters[j])
    && (!s.value && s.waiters != [] ==> exists t: nat :: RetryAt(s, t))
  }

  /** The owner after task t's next statement. */
  function OwnerAfter(s: Sys, owner: Option<nat>, t: nat): Option<nat>
    requires t < |s.pc|
  {
    match s.pc[t]
    case TryMutex => if s.value then owner else Some(t)
    case Retry => if s.value then owner else Some(t)
    case Unlock => None
    case _ => owner
  }

  lemma EnterKeeps(s: Sys, owner: Option<nat>, t: nat)
    requires Inv(s, owner) && t < |s.pc| && (s.pc[t].TryMutex? || s.pc[t].Retry?)
    ensures Inv(Enter(s, t), OwnerAfter(s, owner, t))
  {
    var s' := Enter(s, t);
    forall u: nat
      ensures Queued(s', u) <==> Queued(s, u) || (u == t && s.value)
      ensures AsleepAt(s', u) <==> AsleepAt(s, u) || (u == t && s.value)
    {}
    assert !Queued(s, t);
    hide DepthFits;
  }

  lemma FreedKeeps(s: Sys, owner: Option<nat>, t: nat)
    requires Inv(s, owner) && t < |s.pc| && s.pc[t].Unlock?
    ensures s.depth[t] == 1 && owner == Some(t)
    ensures Inv(Freed(s, t), None)
  {
    assert DepthFits(s.pc[t], s.depth[t]) && Owns(s.pc[t], s.depth[t]);
    var s' := Freed(s, t);
    if s.waiters != [] {
      var w := s.waiters[|s.waiters| - 1];
      assert Queued(s, w) && AsleepAt(s, w);
      assert RetryAt(s', w);
      forall u: nat
        ensures Queued(s', u) <==> Queued(s, u) && u != w
        ensures AsleepAt(s', u) <==> AsleepAt(s, u) && u != w
      {
        assert s.waiters == s'.waiters + [w];
      }
    } else {
      forall u: nat
        ensures !AsleepAt(s', u) && !Queued(s', u)
      {
        assert !Queued(s, u);
      }
    }
  }

  /** No statement of a well-behaved task trips an assertion, and each keeps the invariant. */
  lemma NextKeeps(s: Sys, owner: Option<nat>, t: nat)
    requires Inv(s, owner) && t < |s.pc| && !s.pc[t].Outside? && !s.pc[t].Asleep?
    ensures Next(s, t).Some? && Inv(Next(s, t).value, OwnerAfter(s, owner, t))
  {
    assert DepthFits(s.pc[t], s.depth[t]) && (Owns(s.pc[t], s.depth[t]) <==> owner == Some(t));
    match s.pc[t] {
      case TryMutex => EnterKeeps(s, owner, t);
      case Retry => EnterKeeps(s, owner, t);
      case Unlock => FreedKeeps(s, owner, t);
      case _ => OwnStep(s, owner, t);
    }
  }

  /** The statements that leave the mutex and its queue alone. */
  lemma OwnStep(s: Sys, owner: Option<nat>, t: nat)
    requires Inv(s, owner) && t < |s.pc| && !s.pc[t].Outside? && !s.pc[t].Asleep?
    requires !s.pc[t].TryMutex? && !s.pc[t].Retry? && !s.pc[t].Unlock?
    ensures Next(s, t).Some? && Inv(Next(s, t).value, owner)
  {
    var s' := Next(s, t).value;
    OwnQueue(s, t);
    assert DepthFits(s.pc[t], s.depth[t]) && (Owns(s.pc[t], s.depth[t]) <==> owner == Some(t));
    assert forall u :: 0 <= u < |s.pc| && u != t ==> s'.pc[u] == s.pc[u] && s'.depth[u] == s.depth[u];
  }

  lemma OwnQueue(s: Sys, t: nat)
    requires Shaped(s) && t < |s.pc| && Next(s, t).Some?
    requires !s.pc[t].Outside? && !s.pc[t].Asleep?
    requires !s.pc[t].TryMutex? && !s.pc[t].Retry? && !s.pc[t].Unlock?
    ensures var s' := Next(s, t).value;
      && s'.value == s.value && s'.waiters == s.waiters
      && forall u: nat :: (Queued(s', u) <==> Queued(s, u)) && (AsleepAt(s', u) <==> AsleepAt(s, u))
                          && (RetryAt(s', u) <==> RetryAt(s, u))
  {}

  // ---------------------------------------------------------------- runs

  /** A task calls lock_acquire, calls lock_release for an acquire of its own, or runs on. */
  datatype Move = Acquire(t: nat) | Release(t: nat) | Run(t: nat)

  predicate CanMove(s: Sys, m: Move) {
    && Shaped(s) && m.t < |s.pc|
    && match m
       case Acquire(t) => s.pc[t].Outside?
       case Release(t) => s.pc[t].Outside? && s.depth[t] > 0
       case Run(t) => !s.pc[t].Outside? && !s.pc[t].Asleep?
  }

  /** None where an assertion fails. */
  function Do(s: Sys, m: Move): Option<Sys>
    requires CanMove(s, m)
  {
    match m
    case Acquire(t) => Some(At(s, t, CheckHolder))
    case Release(t) => Some(At(s, t, CheckRepeat))
    case Run(t) => Next(s, t)
  }

  ghost predicate Runs(s: Sys, moves: seq<Move>, s': Sys)
    decreases |moves|
  {
    if moves == [] then s' == s
    else CanMove(s, moves[0]) && Do(s, moves[0]).Some? && Runs(Do(s, moves[0]).value, moves[1..], s')
  }

  lemma DoKeeps(s: Sys, owner: Option<nat>, m: Move) returns (owner': Option<nat>)
    requires Inv(s, owner) && CanMove(s, m)
    ensures Do(s, m).Some? && Inv(Do(s, m).value, owner')
  {
    match m {
      case Acquire(t) => CallKeeps(s, owner, t, CheckHolder); owner' := owner;
      case Release(t) => CallKeeps(s, owner, t, CheckRepeat); owner' := owner;
      case Run(t) => NextKeeps(s, owner, t); owner' := OwnerAfter(s, owner, t);
    }
  }

  lemma CallKeeps(s: Sys, owner: Option<nat>, t: nat, pc: Pc)
    requires Inv(s, owner) && t < |s.pc| && s.pc[t].Outside?
    requires pc.CheckHolder? || (pc.CheckRepeat? && s.depth[t] > 0)
    ensures Inv(At(s, t, pc), owner)
  {
    var s' := At(s, t, pc);
    forall u: nat
      ensures Queued(s', u) <==> Queued(s, u)
      ensures AsleepAt(s', u) <==> AsleepAt(s, u)
      ensures RetryAt(s', u) <==> RetryAt(s, u)
    {}
    assert Owns(s.pc[t], s.depth[t]) <==> owner == Some(t);
  }

  function Start(n: nat): Sys {
    Sys(false, None, 0, [], seq(n, i => Outside), seq(n, i => 0))
  }

  lemma {:induction false} RunsKeep(s: Sys, owner: Option<nat>, moves: seq<Move>, s': Sys) returns (owner': Option<nat>)
    requires Inv(s, owner) && Runs(s, moves, s')
    ensures Inv(s', owner')
    decreases |moves|
  {
    hide Inv, Do, CanMove;
    if moves == [] {
      owner' := owner;
    } else {
      var mid := DoKeeps(s, owner, moves[0]);
      owner' := RunsKeep(Do(s, moves[0]).value, mid, moves[1..], s');
    }
  }

  /** Over every interleaving of any number of tasks: at most one task is inside, the count is the
      owner's unmatched acquires whenever it is inside neither function, no move a task can make trips
      an assertion, and while the mutex is free and tasks are queued a woken task is about to retry. */
  lemma LockIsSafe(n: nat, moves: seq<Move>, s: Sys)
    requires Runs(Start(n), moves, s)
    ensures Shaped(s)
    ensures forall t, u :: 0 <= t < |s.pc| && 0 <= u < |s.pc| && Owns(s.pc[t], s.depth[t]) && Owns(s.pc[u], s.depth[u]) ==> t == u
    ensures forall t, u :: 0 <= t < |s.pc| && 0 <= u < |s.pc| && s.depth[t] > 0 && s.depth[u] > 0 ==> t == u
    ensures forall t :: 0 <= t < |s.pc| && s.pc[t].Outside? && s.depth[t] > 0 ==>
      s.value && s.holder == Some(t) && s.repeat == s.depth[t]
    ensures forall m :: CanMove(s, m) ==> Do(s, m).Some?
    ensures !s.value && s.waiters != [] ==> exists t: nat :: RetryAt(s, t)
  {
    assert Inv(Start(n), None);
    var owner := RunsKeep(Start(n), None, moves, s);
    forall t | 0 <= t < |s.pc| && s.depth[t] > 0
      ensures owner == Some(t)
    {
      assert DepthFits(s.pc[t], s.depth[t]);
      assert Owns(s.pc[t], s.depth[t]) <==> owner == Some(t);
    }
    forall m | CanMove(s, m)
      ensures Do(s, m).Some?
    {
      var after := DoKeeps(s, owner, m);
    }
  }

  /** A release frees the mutex exactly if it is the outermost: the test of lock->repeat sends task t on
      to mutex_unlock exactly when one acquire is left. */
  lemma FreedAtOutermost(s: Sys, owner: Option<nat>, t: nat)
    requires Inv(s, owner) && t < |s.pc| && s.pc[t].CheckRepeat?
    ensures Next(s, t).Some?
    ensures Next(s, t).value.pc[t] == if s.depth[t] == 1 then ClearHolder else CountDown
  {
    assert DepthFits(s.pc[t], s.depth[t]);
    assert Owns(s.pc[t], s.depth[t]) <==> owner == Some(t);
  }

  /** The mutex bit falls at no other statement than mutex_unlock, with the last acquire released. */
  lemma ValueFallsOnlyAtUnlock(s: Sys, owner: Option<nat>, m: Move)
    requires Inv(s, owner) && CanMove(s, m)
    ensures Do(s, m).Some?
    ensures s.value && !Do(s, m).value.value <==> m.Run? && s.pc[m.t].Unlock?
    ensures m.Run? && s.pc[m.t].Unlock? ==> s.depth[m.t] == 1 && Do(s, m).value.depth[m.t] == 0
  {
    assert DepthFits(s.pc[m.t], s.depth[m.t]);
    assert Owns(s.pc[m.t], s.depth[m.t]) <==> owner == Some(m.t);
    if m.Run? {
      NextKeeps(s, owner, m.t);
    }
  }

  /** The waiting queue is first in, first out: a move leaves it alone, adds the moving task at the front,
      or wakes the task at the back, and a task is woken in no other way. */
  lemma QueueIsFifo(s: Sys, owner: Option<nat>, m: Move)
    requires Inv(s, owner) && CanMove(s, m)
    ensures Do(s, m).Some?
    ensures var s' := Do(s, m).value;
      || (s'.waiters == s.waiters && forall t: nat :: RetryAt(s', t) ==> RetryAt(s, t))
      || (s'.waiters == [m.t] + s.waiters && forall t: nat :: RetryAt(s', t) ==> RetryAt(s, t))
      || (s.waiters != [] && s'.waiters == s.waiters[..|s.waiters| - 1]
          && forall t: nat :: RetryAt(s', t) <==> RetryAt(s, t) || t == s.waiters[|s.waiters| - 1])
  {
    var after := DoKeeps(s, owner, m);
    if m.Run? && s.pc[m.t].Unlock? && s.waiters != [] {
      assert Queued(s, s.waiters[|s.waiters| - 1]);
    }
  }

  /** The task at the back of the queue sleeps, and is queued once. */
  lemma LastIsAsleep(s: Sys, owner: Option<nat>)
    requires Inv(s, owner)
    ensures s.waiters != [] ==>
      var w := s.waiters[|s.waiters| - 1]; AsleepAt(s, w) && w !in s.waiters[..|s.waiters| - 1]
  {
    if s.waiters != [] {
      assert Queued(s, s.waiters[|s.waiters| - 1]);
    }
  }

  // ---------------------------------------------------------------- the lock object

  class Lock {
    var holder: Option<nat>
    var repeat: nat
    var value: bool
    var waiters: seq<nat>
    var pc: seq<Pc>
    ghost var depth: seq<nat>

    ghost function View(): Sys
      reads this
    {
      Sys(value, holder, repeat, waiters, pc, depth)
    }

    /** lock_init, with n tasks that have not called it yet. */
    constructor (n: nat)
      ensures View() == Start(n)
    {
      holder, repeat, value, waiters := None, 0, false, [];
      pc := seq(n, i => Outside);
      depth := seq(n, i => 0);
    }

    /** The loop test of mutex_lock with what follows it: if nobody owns the mutex the task does, and otherwise
        it sleeps on the queue, its owner unchanged. */
    method MutexLock(t: nat, ghost owner: Option<nat>)
      requires Inv(View(), owner) && t < |pc| && (pc[t].TryMutex? || pc[t].Retry?)
      modifies this`value, this`waiters, this`pc
      ensures Inv(View(), if owner.None? then Some(t) else owner) && value
      ensures AsleepAt(View(), t) <==> owner.Some?
      ensures Queued(View(), t) <==> owner.Some?
      ensures View() == Enter(old(View()), t)
    {
      EnterKeeps(View(), owner, t);
      assert value <==> owner.Some?;
      hide Inv;
      if value {
        waiters := [t] + waiters;
        pc := pc[t := Asleep];
        assert waiters[0] == t;
      } else {
        assert !Queued(View(), t);
        value := true;
        pc := pc[t := SetHolder];
      }
    }

    /** mutex_unlock by the owner: nobody owns the mutex then, and of the queued tasks the one that has waited
        longest is about to retry. */
    method MutexUnlock(t: nat)
      requires Inv(View(), Some(t)) && t < |pc| && pc[t].Unlock?
      modifies this`value, this`waiters, this`pc, this`depth
      ensures Inv(View(), None) && !value && t < |pc| && depth[t] == 0 && pc[t].Outside?
      ensures old(waiters) != [] ==>
        RetryAt(View(), old(waiters)[|old(waiters)| - 1]) && !Queued(View(), old(waiters)[|old(waiters)| - 1])
      ensures old(depth[t]) > 0 && View() == Freed(old(View()), t)
    {
      FreedKeeps(View(), Some(t), t);
      LastIsAsleep(View(), Some(t));
      assert value && depth[t] > 0;
      hide Inv;
      value := false;
      pc := pc[t := Outside];
      depth := depth[t := depth[t] - 1];
      if waiters != [] {
        var w := waiters[|waiters| - 1];
        waiters := waiters[..|waiters| - 1];
        pc := pc[w := Retry];
      }
    }

    /** One statement of task t; the assertions of the two functions are asserted here. */
    method Step(t: nat, ghost owner: Option<nat>)
      requires Inv(View(), owner) && t < |pc| && !pc[t].Outside? && !pc[t].Asleep?
      modifies this
      ensures Inv(View(), OwnerAfter(old(View()), owner, t))
      ensures Next(old(View()), t) == Some(View())
    {
      NextKeeps(View(), owner, t);
      hide Inv;
      match pc[t] {
        case CheckHolder =>
          pc := pc[t := if holder != Some(t) then TryMutex else Again];
        case TryMutex =>
          MutexLock(t, owner);
        case Retry =>
          MutexLock(t, owner);
        case SetHolder =>
          holder := Some(t);
          pc := pc[t := SetRepeat];
        case SetRepeat =>
          assert repeat == 0;
          repeat := 1;
          pc, depth := pc[t := Outside], depth[t := depth[t] + 1];
        case Again =>
          repeat := repeat + 1;
          pc, depth := pc[t := Outside], depth[t := depth[t] + 1];
        case CheckRepeat =>
          assert holder == Some(t);
          pc := pc[t := if repeat > 1 then CountDown else ClearHolder];
        case CountDown =>
          repeat := repeat - 1;
          pc, depth := pc[t := Outside], depth[t := depth[t] - 1];
        case ClearHolder =>
          assert repeat == 1;
          holder := None;
          pc := pc[t := ClearRepeat];
        case ClearRepeat =>
          repeat := 0;
          pc := pc[t := Unlock];
        case Unlock =>
          assert value;
          MutexUnlock(t);
      }
    }
  }
}
