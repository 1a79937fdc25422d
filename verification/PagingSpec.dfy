/** Copy-on-write paging (kernel/memory.c) as functions on a memory value.

    A frame holds either page data or a page table.  Each process has a page directory, a bitmap of
    its mapped pages and a break; `count` is the per-frame reference array `memory_map`.  Every
    operation returns None where the kernel halts. */
module PagingSpec {
  import opened Basics

  const PAGE_SIZE := 0x1000
  const KERNEL_MEMORY_SIZE := 0x100_0000
  const USER_STACK_TOP := 0x800_0000
  const USER_STACK_BOTTOM := 0x7E0_0000
  /** Frames below this one are the kernel's: mapping_init counts each of them once, for good. */
  const KERNEL_FRAMES := 0x1000
  const ENTRIES := 1024
  /** Directory slots 0..3 are the kernel's tables and slot 1023 maps the directory itself. */
  const FIRST_SLOT := 4
  const SELF_SLOT := 1023

  datatype Entry = Entry(present: bool, write: bool, index: nat)

  const ABSENT := Entry(false, false, 0)

  /** A virtual page: its directory slot and its index in that slot's table. */
  datatype Page = Page(slot: nat, index: nat)

  function PageOf(va: nat): Page {
    Page(va / (PAGE_SIZE * ENTRIES), va / PAGE_SIZE % ENTRIES)
  }

  datatype Frame = Data(bytes: seq<Byte>) | Table(entries: seq<Entry>)

  datatype Proc = Proc(pde: seq<Entry>, vmap: set<Page>, brk: nat)

  datatype Memory = Memory(start: nat, count: seq<nat>, free: int, frames: seq<Frame>, procs: map<nat, Proc>)

  predicate UserSlot(d: nat) {
    FIRST_SLOT <= d < SELF_SLOT
  }

  predicate UserPage(v: Page) {
    UserSlot(v.slot) && v.index < ENTRIES
  }

  function EmptyTable(): (t: seq<Entry>)
    ensures |t| == ENTRIES && forall i :: 0 <= i < ENTRIES ==> t[i] == ABSENT
  {
    seq(ENTRIES, _ => ABSENT)
  }

  // ---------------------------------------------------------------- reading the tables

  function Pde(s: Memory, p: nat, d: nat): Entry {
    if p in s.procs && d < |s.procs[p].pde| then s.procs[p].pde[d] else ABSENT
  }

  predicate IsTable(s: Memory, f: nat) {
    KERNEL_FRAMES <= f < |s.frames| && s.frames[f].Table? && |s.frames[f].entries| == ENTRIES
  }

  predicate IsPage(s: Memory, f: nat) {
    KERNEL_FRAMES <= f < |s.frames| && s.frames[f].Data? && |s.frames[f].bytes| == PAGE_SIZE
  }

  /** The table entry that process p's directory reaches for page v. */
  function Pte(s: Memory, p: nat, v: Page): Entry {
    var e := Pde(s, p, v.slot);
    if e.present && IsTable(s, e.index) && v.index < ENTRIES then s.frames[e.index].entries[v.index] else ABSENT
  }

  predicate Mapped(s: Memory, p: nat, v: Page) {
    UserPage(v) && Pte(s, p, v).present
  }

  // ---------------------------------------------------------------- frame allocation

  /** get_one_page's search: the lowest frame from i on whose counter is zero. */
  function LowestUnused(count: seq<nat>, i: nat): (r: Option<nat>)
    ensures r.Some? ==> i <= r.value < |count| && count[r.value] == 0
    ensures r.Some? ==> forall j :: i <= j < r.value ==> count[j] != 0
    ensures r.None? ==> forall j :: i <= j < |count| ==> count[j] != 0
    decreases |count| - i
  {
    if i >= |count| then None
    else if count[i] == 0 then Some(i)
    else LowestUnused(count, i + 1)
  }

  function Zeros(count: seq<nat>): nat {
    if count == [] then 0
    else Zeros(count[..|count| - 1]) + if count[|count| - 1] == 0 then 1 else 0
  }

  lemma {:induction false} ZerosUpdate(count: seq<nat>, i: nat, n: nat)
    requires i < |count|
    ensures Zeros(count[i := n]) + (if count[i] == 0 then 1 else 0) == Zeros(count) + (if n == 0 then 1 else 0)
  {
    var last := |count| - 1;
    if i < last {
      assert count[i := n][..last] == count[..last][i := n];
      ZerosUpdate(count[..last], i, n);
    } else {
      assert count[i := n][..last] == count[..last];
    }
  }

  // ---------------------------------------------------------------- the kernel's operations

  function SetPde(s: Memory, p: nat, d: nat, e: Entry): (r: Memory)
    requires p in s.procs
    ensures r.procs.Keys == s.procs.Keys
  {
    var proc := s.procs[p];
    s.(procs := s.procs[p := proc.(pde := if d < |proc.pde| then proc.pde[d := e] else proc.pde)])
  }

  /** Overwrites the entry of page v in the table that p's directory names. */
  function SetPte(s: Memory, p: nat, v: Page, e: Entry): Memory {
    var t := Pde(s, p, v.slot).index;
    if IsTable(s, t) && v.index < ENTRIES then s.(frames := s.frames[t := Table(s.frames[t].entries[v.index := e])]) else s
  }

  function SetVmap(s: Memory, p: nat, vmap: set<Page>): (r: Memory)
    requires p in s.procs
    ensures r.procs.Keys == s.procs.Keys
  {
    s.(procs := s.procs[p := s.procs[p].(vmap := vmap)])
  }

  /** get_one_page: marks the lowest free frame used; halts when there is none. */
  function TakeFrame(s: Memory): (r: Option<(Memory, nat)>)
    ensures r.Some? ==> r.value.1 < |s.count| && s.count[r.value.1] == 0
    ensures r.Some? ==> r.value.0 == s.(count := s.count[r.value.1 := 1], free := s.free - 1)
  {
    match LowestUnused(s.count, s.start)
    case None => None
    case Some(f) => Some((s.(count := s.count[f := 1], free := s.free - 1), f))
  }

  /** put_page, with its three assertions. */
  function PutFrame(s: Memory, f: nat): Option<Memory> {
    if !(s.start <= f < |s.count|) || s.count[f] == 0 then None
    else
      var s1 := s.(count := s.count[f := s.count[f] - 1], free := s.free + if s.count[f] == 1 then 1 else 0);
      if 0 < s1.free < |s1.count| then Some(s1) else None
  }

  /** get_pte with create: gives directory slot d an empty table if it has none. */
  function GetTable(s: Memory, p: nat, d: nat): (r: Option<Memory>)
    requires p in s.procs
    ensures r.Some? ==> r.value.procs.Keys == s.procs.Keys
  {
    if Pde(s, p, d).present then Some(s)
    else match TakeFrame(s)
      case None => None
      case Some((s1, f)) =>
        if f >= |s1.frames| then None
        else Some(SetPde(s1.(frames := s1.frames[f := Table(EmptyTable())]), p, d, Entry(true, true, f)))
  }

  /** link_page once the table exists; the two assertions on the page bitmap halt. */
  function LinkIn(s: Memory, p: nat, v: Page): Option<Memory>
    requires p in s.procs
  {
    var vmap := s.procs[p].vmap;
    if Pte(s, p, v).present then (if v in vmap then Some(s) else None)
    else if v in vmap then None
    else match TakeFrame(SetVmap(s, p, vmap + {v}))
      case None => None
      case Some((s1, f)) => Some(SetPte(s1, p, v, Entry(true, true, f)))
  }

  /** link_page */
  function Link(s: Memory, p: nat, v: Page): Option<Memory>
    requires p in s.procs
  {
    match GetTable(s, p, v.slot)
    case None => None
    case Some(s1) => LinkIn(s1, p, v)
  }

  /** unlink_page once the table exists, again with the assertions on the page bitmap. */
  function UnlinkIn(s: Memory, p: nat, v: Page): Option<Memory>
    requires p in s.procs
  {
    var e := Pte(s, p, v);
    var vmap := s.procs[p].vmap;
    if !e.present then (if v in vmap then None else Some(s))
    else if v !in vmap then None
    else PutFrame(SetVmap(SetPte(s, p, v, e.(present := false)), p, vmap - {v}), e.index)
  }

  /** unlink_page, which creates a missing table first. */
  function Unlink(s: Memory, p: nat, v: Page): Option<Memory>
    requires p in s.procs
  {
    match GetTable(s, p, v.slot)
    case None => None
    case Some(s1) => UnlinkIn(s1, p, v)
  }

  /** The write-protection branch of page_fault: the last owner regains write access, any other
      gets a copy of its own. */
  function WriteFault(s: Memory, p: nat, v: Page): Option<Memory> {
    var e := Pte(s, p, v);
    if !e.present || e.index >= |s.count| || e.index >= |s.frames| || s.count[e.index] == 0 then None
    else if s.count[e.index] == 1 then Some(SetPte(s, p, v, e.(write := true)))
    else match TakeFrame(s)
      case None => None
      case Some((s1, f)) =>
        if f >= |s1.frames| then None
        else
          var s2 := s1.(frames := s1.frames[f := s1.frames[e.index]],
                        count := s1.count[e.index := s1.count[e.index] - 1]);
          Some(SetPte(s2, p, v, Entry(true, true, f)))
  }

  /** page_fault for an address in page v, with the two error-code bits it looks at. */
  function PageFault(s: Memory, p: nat, va: nat, present: bool, write: bool): Option<Memory>
    requires p in s.procs
  {
    if !(KERNEL_MEMORY_SIZE <= va < USER_STACK_TOP) then None
    else if present then (if write then WriteFault(s, p, PageOf(va)) else None)
    else if va < s.procs[p].brk || va >= USER_STACK_BOTTOM then Link(s, p, PageOf(va))
    else None
  }

  // ---------------------------------------------------------------- fork

  function ReadOnly(t: seq<Entry>): (r: seq<Entry>)
    ensures |r| == |t|
    ensures forall i :: 0 <= i < |t| ==> r[i] == if t[i].present then t[i].(write := false) else t[i]
  {
    seq(|t|, i requires 0 <= i < |t| => if t[i].present then t[i].(write := false) else t[i])
  }

  /** The counters after the first n entries of table t were shared once more; None if a counter
      was zero before or reaches 255. */
  function Share(count: seq<nat>, t: seq<Entry>, n: nat): (r: Option<seq<nat>>)
    requires n <= |t|
    ensures r.Some? ==> |r.value| == |count|
  {
    if n == 0 then Some(count)
    else match Share(count, t, n - 1)
      case None => None
      case Some(c) =>
        var e := t[n - 1];
        if !e.present then Some(c)
        else if e.index >= |c| || c[e.index] == 0 || c[e.index] + 1 >= 255 then None
        else Some(c[e.index := c[e.index] + 1])
  }

  /** The memory after a round of copy_pde's outer loop: parent table d has turned read-only, the
      counters of its pages are `count`, and the child has a copy of the table in frame g. */
  function Round(s: Memory, p: nat, c: nat, d: nat, count: seq<nat>, g: nat): (r: Memory)
    requires p in s.procs && c in s.procs && g < |count| == |s.frames|
    requires IsTable(s, Pde(s, p, d).index) && d < |s.procs[c].pde|
    ensures r.procs.Keys == s.procs.Keys
  {
    var e := Pde(s, p, d);
    var t := Table(ReadOnly(s.frames[e.index].entries));
    var child := Proc(s.procs[c].pde[d := Entry(e.present, e.write, g)],
                      s.procs[c].vmap + SlotPages(s.procs[p].vmap, d),
                      s.procs[c].brk);
    Memory(s.start, count[g := 1], s.free - 1, s.frames[e.index := t][g := t], s.procs[c := child])
  }

  /** One round of copy_pde's outer loop: every page under slot d gains a reference, then the
      child's copy of the table takes the lowest free frame. */
  function ForkSlot(s: Memory, p: nat, c: nat, d: nat): (r: Option<Memory>)
    requires p in s.procs && c in s.procs
    ensures r.Some? ==> r.value.procs.Keys == s.procs.Keys
  {
    var e := Pde(s, p, d);
    if !e.present then Some(s)
    else if !IsTable(s, e.index) || d >= |s.procs[c].pde| || |s.count| != |s.frames| then None
    else match Share(s.count, s.frames[e.index].entries, ENTRIES)
      case None => None
      case Some(count) =>
        match LowestUnused(count, s.start)
        case None => None
        case Some(g) => Some(Round(s, p, c, d, count, g))
  }

  /** The pages of a bitmap that lie under directory slot d. */
  function SlotPages(vmap: set<Page>, d: nat): set<Page> {
    set v | v in vmap && v.slot == d
  }

  /** The rounds of copy_pde from slot d on. */
  function ForkSlots(s: Memory, p: nat, c: nat, d: nat): (r: Option<Memory>)
    requires p in s.procs && c in s.procs && d <= SELF_SLOT
    ensures r.Some? ==> r.value.procs.Keys == s.procs.Keys
    decreases SELF_SLOT - d
  {
    if d == SELF_SLOT then Some(s)
    else match ForkSlot(s, p, c, d)
      case None => None
      case Some(s1) => ForkSlots(s1, p, c, d + 1)
  }

  function NoTables(): (pde: seq<Entry>)
    ensures |pde| == ENTRIES && forall i :: 0 <= i < ENTRIES ==> pde[i] == ABSENT
  {
    EmptyTable()
  }

  /** A process without user pages, as task_to_user_mode leaves it. */
  function Spawn(s: Memory, p: nat): (r: Memory)
    ensures r.procs.Keys == s.procs.Keys + {p}
  {
    s.(procs := s.procs[p := Proc(NoTables(), {}, KERNEL_MEMORY_SIZE)])
  }

  /** task_fork's memory part: the child starts empty with its parent's break and receives the
      directory slots one by one. */
  function Fork(s: Memory, p: nat, c: nat): Option<Memory>
    requires p in s.procs && c !in s.procs
  {
    ForkSlots(s.(procs := s.procs[c := Proc(NoTables(), {}, s.procs[p].brk)]), p, c, FIRST_SLOT)
  }
}
