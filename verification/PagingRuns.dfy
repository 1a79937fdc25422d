/** User programs on copy-on-write memory, over whole runs: every process reads exactly what it would
    read if fork copied all pages at once. */
module PagingRuns {
  import opened Basics
  import opened PagingSpec
  import opened PagingInvariant
  import opened PagingSteps
  import opened PagingFork

  /** What happens to the memory: processes come from task_to_user_mode or fork, user code reads and
      writes bytes, pages are released, and the break grows. */
  datatype Op =
    | SpawnOp(p: nat)
    | ForkOp(p: nat, c: nat)
    | ReadOp(p: nat, va: nat)
    | WriteOp(p: nat, va: nat, b: Byte)
    | UnlinkOp(p: nat, v: Page)
    | BrkOp(p: nat, brk: nat)

  datatype Reply = Done | Got(b: Byte) | Refused

  /** User addresses lie above the kernel's memory and below the directory's own mapping. */
  predicate UserAddress(va: nat) {
    UserPage(PageOf(va))
  }

  predicate Enabled(s: Memory, op: Op) {
    match op
    case SpawnOp(p) => p !in s.procs
    case ForkOp(p, c) => p in s.procs && c !in s.procs
    case ReadOp(p, va) => p in s.procs && UserAddress(va)
    case WriteOp(p, va, _) => p in s.procs && UserAddress(va)
    case UnlinkOp(p, v) => p in s.procs && UserPage(v)
    case BrkOp(p, _) => p in s.procs
  }

  // ---------------------------------------------------------------- the kernel's run

  /** One user access as the processor makes it: fault while the entry is absent, fault again while
      it is read-only and the access writes. */
  function Access(s: Memory, p: nat, va: nat, write: bool): Option<Memory>
    requires p in s.procs
  {
    var linked := if Pte(s, p, PageOf(va)).present then Some(s) else PageFault(s, p, va, false, write);
    match linked
    case None => None
    case Some(s1) =>
      if p in s1.procs && write && !Pte(s1, p, PageOf(va)).write then PageFault(s1, p, va, true, write) else linked
  }

  function Load(s: Memory, p: nat, va: nat): Byte {
    var f := Pte(s, p, PageOf(va)).index;
    if IsPage(s, f) then s.frames[f].bytes[va % PAGE_SIZE] else 0
  }

  /** sys_brk.  Shrinking never returns: its loop does not advance. */
  function Brk(s: Memory, p: nat, brk: nat): Option<(Memory, Reply)>
    requires p in s.procs
  {
    var was := s.procs[p].brk;
    if brk % PAGE_SIZE != 0 || !(KERNEL_MEMORY_SIZE <= brk < USER_STACK_BOTTOM) || was > brk then None
    else if (brk - was) / PAGE_SIZE > s.free then Some((s, Refused))
    else Some((s.(procs := s.procs[p := s.procs[p].(brk := brk)]), Done))
  }

  function Exec(s: Memory, op: Op): Option<(Memory, Reply)>
    requires Enabled(s, op)
  {
    match op
    case SpawnOp(p) => Some((Spawn(s, p), Done))
    case ForkOp(p, c) => (match Fork(s, p, c) case None => None case Some(s1) => Some((s1, Done)))
    case ReadOp(p, va) => (match Access(s, p, va, false) case None => None case Some(s1) => Some((s1, Got(Load(s1, p, va)))))
    case WriteOp(p, va, b) =>
      (match Access(s, p, va, true) case None => None case Some(s1) => Some((Store(s1, p, PageOf(va), va % PAGE_SIZE, b), Done)))
    case UnlinkOp(p, v) => (match Unlink(s, p, v) case None => None case Some(s1) => Some((s1, Done)))
    case BrkOp(p, brk) => Brk(s, p, brk)
  }

  /** A run and the replies along it; None once an operation halts or does not apply. */
  function Run(s: Memory, ops: seq<Op>): Option<(Memory, seq<Reply>)>
    decreases |ops|
  {
    if ops == [] then Some((s, []))
    else if !Enabled(s, ops[0]) then None
    else match Exec(s, ops[0])
      case None => None
      case Some((s1, r)) =>
        match Run(s1, ops[1..])
        case None => None
        case Some((s2, rs)) => Some((s2, [r] + rs))
  }

  // ---------------------------------------------------------------- the eager kernel's run

  /** What the eager kernel leaves open: the bytes of a page nobody has written yet, and whether the
      memory is short when the break grows. */
  datatype Choice = Choice(bytes: seq<Byte>, refuse: bool)

  /** An address that user code may touch: in a page it has, below its break, or in its stack. */
  ghost predicate Lawful(a: Eager, p: nat, va: nat)
    requires p in a
  {
    PageOf(va) in a[p].pages || (0x100_0000 <= va < a[p].brk && va < 0x800_0000) || 0x7E0_0000 <= va < 0x800_0000
  }

  /** The break only grows, by whole pages, and stays below the stack. */
  ghost predicate EagerEnabled(a: Eager, op: Op) {
    match op
    case SpawnOp(p) => p !in a
    case ForkOp(p, c) => p in a && c !in a
    case ReadOp(p, va) => p in a && Lawful(a, p, va)
    case WriteOp(p, va, _) => p in a && Lawful(a, p, va)
    case UnlinkOp(p, v) => p in a
    case BrkOp(p, brk) => p in a && a[p].brk <= brk < 0x7E0_0000 && 0x100_0000 <= brk && brk % 0x1000 == 0
  }

  ghost function Touch(a: Eager, p: nat, v: Page, bytes: seq<Byte>): Eager
    requires p in a
  {
    if v in a[p].pages then a else WithPage(a, p, v, bytes)
  }

  ghost function ByteAt(a: Eager, p: nat, va: nat): Byte {
    if p in a && PageOf(va) in a[p].pages && va % PAGE_SIZE < |a[p].pages[PageOf(va)]|
    then a[p].pages[PageOf(va)][va % PAGE_SIZE] else 0
  }

  ghost function PutByte(a: Eager, p: nat, va: nat, b: Byte): Eager {
    if p in a && PageOf(va) in a[p].pages && va % PAGE_SIZE < |a[p].pages[PageOf(va)]|
    then WithPage(a, p, PageOf(va), a[p].pages[PageOf(va)][va % PAGE_SIZE := b]) else a
  }

  /** Fork copies the whole address space; nothing is ever shared. */
  ghost function EagerExec(a: Eager, op: Op, ch: Choice): (Eager, Reply)
    requires EagerEnabled(a, op)
  {
    match op
    case SpawnOp(p) => (a[p := EagerProc(map[], 0x100_0000)], Done)
    case ForkOp(p, c) => (a[c := a[p]], Done)
    case ReadOp(p, va) => var a1 := Touch(a, p, PageOf(va), ch.bytes); (a1, Got(ByteAt(a1, p, va)))
    case WriteOp(p, va, b) => (PutByte(Touch(a, p, PageOf(va), ch.bytes), p, va, b), Done)
    case UnlinkOp(p, v) => (WithoutPage(a, p, v), Done)
    case BrkOp(p, brk) => if ch.refuse then (a, Refused) else (a[p := a[p].(brk := brk)], Done)
  }

  ghost predicate EagerRun(a: Eager, ops: seq<Op>, chs: seq<Choice>, a': Eager, rs: seq<Reply>)
    decreases |ops|
  {
    if ops == [] then chs == [] && rs == [] && a' == a
    else
      && chs != [] && rs != [] && |chs[0].bytes| == PAGE_SIZE && EagerEnabled(a, ops[0])
      && EagerExec(a, ops[0], chs[0]).1 == rs[0]
      && EagerRun(EagerExec(a, ops[0], chs[0]).0, ops[1..], chs[1..], a', rs[1..])
  }

  // ---------------------------------------------------------------- refinement, step by step

  /** The linking fault of an access, if any. */
  ghost function Linked(s: Memory, p: nat, va: nat): Option<Memory>
    requires p in s.procs
  {
    if Pte(s, p, PageOf(va)).present then Some(s) else PageFault(s, p, va, false, false)
  }

  lemma LinkedRefines(s: Memory, s1: Memory, p: nat, va: nat)
    requires Inv(s) && p in s.procs && UserAddress(va) && Linked(s, p, va) == Some(s1)
    ensures Inv(s1) && p in s1.procs && Mapped(s1, p, PageOf(va)) && |PageBytes(s1, p, PageOf(va))| == PAGE_SIZE
    ensures Abs(s1) == Touch(Abs(s), p, PageOf(va), PageBytes(s1, p, PageOf(va)))
  {
    var v := PageOf(va);
    if Mapped(s, p, v) {
      assert IsPage(s, Pte(s, p, v).index);
    } else {
      LinkKeepsInv(s, p, v);
      PresentHasProcess(s1, p, v);
    }
  }

  /** An access is the linking fault, if needed, then the write fault, if needed. */
  lemma AccessSplits(s: Memory, s': Memory, p: nat, va: nat, write: bool) returns (s1: Memory)
    requires p in s.procs && Access(s, p, va, write) == Some(s')
    ensures Linked(s, p, va) == Some(s1)
    ensures p in s1.procs ==>
      if write && !Pte(s1, p, PageOf(va)).write then WriteFault(s1, p, PageOf(va)) == Some(s') else s' == s1
  {
    s1 := Linked(s, p, va).value;
  }

  lemma AccessRefines(s: Memory, s': Memory, p: nat, va: nat, write: bool) returns (bytes: seq<Byte>)
    requires Inv(s) && p in s.procs && UserAddress(va) && Access(s, p, va, write) == Some(s')
    ensures Inv(s') && Mapped(s', p, PageOf(va)) && (write ==> Pte(s', p, PageOf(va)).write)
    ensures |bytes| == PAGE_SIZE && Abs(s') == Touch(Abs(s), p, PageOf(va), bytes)
  {
    var s1 := AccessSplits(s, s', p, va, write);
    LinkedRefines(s, s1, p, va);
    bytes := PageBytes(s1, p, PageOf(va));
    if write && !Pte(s1, p, PageOf(va)).write {
      WriteFaultKeepsInv(s1, p, PageOf(va));
    }
  }

  lemma LoadIsByteAt(s: Memory, p: nat, va: nat)
    requires Shapes(s) && p in s.procs && Mapped(s, p, PageOf(va))
    ensures Load(s, p, va) == ByteAt(Abs(s), p, va)
  {
    assert PageOf(va) in Pages(s, p);
  }

  lemma StoreIsPutByte(s: Memory, p: nat, va: nat, b: Byte)
    requires Shapes(s) && Counted(s) && SoleWriter(s) && Mapped(s, p, PageOf(va)) && Pte(s, p, PageOf(va)).write
    ensures Abs(Store(s, p, PageOf(va), va % PAGE_SIZE, b)) == PutByte(Abs(s), p, va, b)
  {
    StoreAbs(s, p, PageOf(va), va % PAGE_SIZE, b);
    assert PageOf(va) in Pages(s, p);
  }

  lemma SpawnRefines(s: Memory, p: nat)
    requires Inv(s) && p !in s.procs
    ensures Inv(Spawn(s, p)) && Abs(Spawn(s, p)) == Abs(s)[p := EagerProc(map[], KERNEL_MEMORY_SIZE)]
  {
    AddEmptyProc(s, Spawn(s, p), p, KERNEL_MEMORY_SIZE);
    EmptyProcAbs(s, Spawn(s, p), p, KERNEL_MEMORY_SIZE);
  }

  lemma BrkInv(s: Memory, s': Memory, p: nat, brk: nat)
    requires Inv(s) && p in s.procs && s' == s.(procs := s.procs[p := s.procs[p].(brk := brk)])
    ensures Inv(s')
  {
    SameTables(s, s');
    forall f
      ensures Refs(s', f) == Refs(s, f)
    {
      forall x
        ensures Names(s', x, f) <==> Names(s, x, f)
      {
        match x
        case TableRef(q, d) => assert Pde(s', q, d) == Pde(s, q, d);
        case PageRef(q, w) => assert Pte(s', q, w) == Pte(s, q, w);
      }
    }
  }

  lemma BrkAbs(s: Memory, s': Memory, p: nat, brk: nat)
    requires p in s.procs && s' == s.(procs := s.procs[p := s.procs[p].(brk := brk)])
    ensures Abs(s') == Abs(s)[p := Abs(s)[p].(brk := brk)]
  {
    SameTables(s, s');
    forall q
      ensures Pages(s', q) == Pages(s, q)
    {
      assert forall w :: Mapped(s', q, w) == Mapped(s, q, w);
    }
  }

  lemma WriteRefines(s: Memory, s': Memory, p: nat, va: nat, b: Byte) returns (bytes: seq<Byte>)
    requires Inv(s) && p in s.procs && UserAddress(va)
    requires Exec(s, WriteOp(p, va, b)) == Some((s', Done))
    ensures Inv(s') && |bytes| == PAGE_SIZE
    ensures Abs(s') == PutByte(Touch(Abs(s), p, PageOf(va), bytes), p, va, b)
  {
    var s1 := Access(s, p, va, true).value;
    bytes := AccessRefines(s, s1, p, va, true);
    StoreKeepsInv(s1, p, PageOf(va), va % PAGE_SIZE, b);
    StoreIsPutByte(s1, p, va, b);
  }

  lemma ReadRefines(s: Memory, s': Memory, p: nat, va: nat, r: Reply) returns (bytes: seq<Byte>)
    requires Inv(s) && p in s.procs && UserAddress(va)
    requires Exec(s, ReadOp(p, va)) == Some((s', r))
    ensures Inv(s') && |bytes| == PAGE_SIZE
    ensures Abs(s') == Touch(Abs(s), p, PageOf(va), bytes) && r == Got(ByteAt(Abs(s'), p, va))
  {
    bytes := AccessRefines(s, s', p, va, false);
    PresentHasProcess(s', p, PageOf(va));
    LoadIsByteAt(s', p, va);
  }

  /** One operation: the invariant holds again, and the eager kernel can do the same with the same
      reply. */
  lemma ExecRefines(s: Memory, s': Memory, op: Op, r: Reply) returns (ch: Choice)
    requires Inv(s) && Enabled(s, op) && Exec(s, op) == Some((s', r))
    ensures Inv(s') && |ch.bytes| == PAGE_SIZE
    ensures EagerEnabled(Abs(s), op) && EagerExec(Abs(s), op, ch) == (Abs(s'), r)
  {
    ch := Choice(seq(PAGE_SIZE, _ => 0), r == Refused);
    match op
    case SpawnOp(p) => SpawnRefines(s, p);
    case ForkOp(p, c) => ForkKeepsInv(s, s', p, c);
    case ReadOp(p, va) =>
      var bytes := ReadRefines(s, s', p, va, r);
      ch := ch.(bytes := bytes);
    case WriteOp(p, va, b) =>
      var bytes := WriteRefines(s, s', p, va, b);
      ch := ch.(bytes := bytes);
    case UnlinkOp(p, v) => UnlinkKeepsInv(s, p, v);
    case BrkOp(p, brk) =>
      if r == Done {
        BrkInv(s, s', p, brk);
        BrkAbs(s, s', p, brk);
      }
  }

  /** The main result.  Whatever processes do, in whatever order, the kernel with shared frames gives
      the replies, and ends with the address spaces, of a kernel whose fork copies every page. */
  lemma {:induction false} CopyOnWriteRefinesEagerCopy(s: Memory, ops: seq<Op>, s': Memory, rs: seq<Reply>)
    returns (chs: seq<Choice>)
    requires Inv(s) && Run(s, ops) == Some((s', rs))
    ensures Inv(s')
    ensures EagerRun(Abs(s), ops, chs, Abs(s'), rs)
    decreases |ops|
  {
    chs := [];
    if ops != [] {
      var (s1, r) := Exec(s, ops[0]).value;
      var ch := ExecRefines(s, s1, ops[0], r);
      var rest := CopyOnWriteRefinesEagerCopy(s1, ops[1..], s', rs[1..]);
      chs := [ch] + rest;
      assert chs[1..] == rest;
    }
  }

  // ---------------------------------------------------------------- the start of a run

  /** The memory that memory_map_init and mapping_init leave: the kernel's frames are counted once,
      the others are free, and there is no process. */
  function Boot(start: nat, frames: seq<Frame>): Memory {
    Memory(start, seq(|frames|, i => if i < KERNEL_FRAMES then 1 else 0), |frames| - start, frames, map[])
  }

  lemma BootInv(start: nat, frames: seq<Frame>)
    requires 0 < start < KERNEL_FRAMES < |frames|
    requires forall f :: KERNEL_FRAMES <= f < |frames| ==> frames[f].Data? && |frames[f].bytes| == PAGE_SIZE
    ensures Inv(Boot(start, frames))
  {
    var s := Boot(start, frames);
    forall f
      ensures Refs(s, f) == {}
    {}
    BootZeros(s.count);
  }

  lemma {:induction false} BootZeros(count: seq<nat>)
    requires |count| >= KERNEL_FRAMES
    requires forall f :: 0 <= f < |count| ==> count[f] == if f < KERNEL_FRAMES then 1 else 0
    ensures Zeros(count) == |count| - KERNEL_FRAMES
  {
    var rest := count[..|count| - 1];
    if |count| == KERNEL_FRAMES {
      NoZeros(count);
    } else {
      BootZeros(rest);
    }
  }

  // ---------------------------------------------------------------- what the eager kernel shows

  /** A process's pages change only by its own operations: once forked, parent and child are apart. */
  lemma EagerIsolation(a: Eager, op: Op, ch: Choice, q: nat)
    requires EagerEnabled(a, op) && q in a
    requires op.p != q || op.ForkOp?
    ensures q in EagerExec(a, op, ch).0 && EagerExec(a, op, ch).0[q] == a[q]
  {}

  /** Over a whole run, a process that does nothing but fork keeps every byte it had. */
  lemma {:induction false} QuietProcessKeepsItsPages(s: Memory, ops: seq<Op>, s': Memory, rs: seq<Reply>, q: nat)
    requires Inv(s) && Run(s, ops) == Some((s', rs)) && q in s.procs
    requires forall i :: 0 <= i < |ops| ==> ops[i].p != q || ops[i].ForkOp?
    ensures q in s'.procs && Pages(s', q) == Pages(s, q)
    decreases |ops|
  {
    if ops != [] {
      var (s1, r) := Exec(s, ops[0]).value;
      var ch := ExecRefines(s, s1, ops[0], r);
      EagerIsolation(Abs(s), ops[0], ch, q);
      assert q in Abs(s1) && Abs(s1)[q] == Abs(s)[q];
      QuietProcessKeepsItsPages(s1, ops[1..], s', rs[1..], q);
    }
  }
}
