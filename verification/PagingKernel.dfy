/** The page allocator, the fault handler and fork of kernel/memory.c, in place on the counter array,
    the frames and the processes' directories.  Each method is proved against its function in
    PagingSpec; a method that returns false has stopped in an assertion or a panic. */
module PagingKernel {
  import opened Basics
  import opened PagingSpec
  import opened PagingInvariant
  import opened PagingSteps
  import opened PagingFork

  class Kernel {
    const start: nat
    const memoryMap: array<nat>
    const frames: array<Frame>
    var freePages: int
    var procs: map<nat, Proc>

    ghost function View(): Memory
      reads this, memoryMap, frames
    {
      Memory(start, memoryMap[..], freePages, frames[..], procs)
    }

    ghost predicate Valid()
      reads this, memoryMap, frames
    {
      memoryMap.Length == frames.Length
    }

    constructor (start: nat, memoryMap: array<nat>, frames: array<Frame>, freePages: int, procs: map<nat, Proc>)
      requires memoryMap.Length == frames.Length
      ensures Valid() && View() == Memory(start, memoryMap[..], freePages, frames[..], procs)
      ensures this.memoryMap == memoryMap && this.frames == frames
    {
      this.start, this.memoryMap, this.frames := start, memoryMap, frames;
      this.freePages, this.procs := freePages, procs;
    }

    /** get_one_page */
    method GetOnePage() returns (page: Option<nat>)
      requires Valid()
      modifies this`freePages, memoryMap
      ensures Valid()
      ensures page.None? <==> TakeFrame(old(View())).None?
      ensures page.None? ==> View() == old(View())
      ensures page.Some? ==> TakeFrame(old(View())) == Some((View(), page.value)) && page.value < frames.Length
    {
      var i := start;
      while i < memoryMap.Length
        invariant start <= i
        invariant LowestUnused(memoryMap[..], start) == LowestUnused(memoryMap[..], i)
        invariant View() == old(View())
      {
        if memoryMap[i] == 0 {
          memoryMap[i] := 1;
          freePages := freePages - 1;
          return Some(i);
        }
        i := i + 1;
      }
      return None;
    }

    /** put_page; false when one of its assertions fails. */
    method PutPage(idx: nat) returns (ok: bool)
      requires Valid()
      modifies this`freePages, memoryMap
      ensures Valid()
      ensures ok <==> PutFrame(old(View()), idx).Some?
      ensures ok ==> Some(View()) == PutFrame(old(View()), idx)
    {
      if !(start <= idx < memoryMap.Length) || memoryMap[idx] < 1 {
        return false;
      }
      memoryMap[idx] := memoryMap[idx] - 1;
      if memoryMap[idx] == 0 {
        freePages := freePages + 1;
      }
      return 0 < freePages < memoryMap.Length;
    }

    /** get_pte with create */
    method GetPte(p: nat, d: nat) returns (ok: bool)
      requires Valid() && p in procs
      modifies this, memoryMap, frames
      ensures Valid()
      ensures ok <==> GetTable(old(View()), p, d).Some?
      ensures ok ==> Some(View()) == GetTable(old(View()), p, d)
    {
      if DirectoryEntry(p, d).present {
        return true;
      }
      var page := GetOnePage();
      if page.None? {
        return false;
      }
      var pde := procs[p].pde;
      procs := procs[p := procs[p].(pde := if d < |pde| then pde[d := Entry(true, true, page.value)] else pde)];
      frames[page.value] := Table(EmptyTable());
      return true;
    }

    /** The directory entry, and the table entry behind it, as the processor would read them. */
    function DirectoryEntry(p: nat, d: nat): (e: Entry)
      reads this
      ensures e == Pde(Memory(start, [], 0, [], procs), p, d)
    {
      if p in procs && d < |procs[p].pde| then procs[p].pde[d] else ABSENT
    }

    function TableEntry(p: nat, v: Page): (e: Entry)
      reads this, memoryMap, frames
      ensures e == Pte(View(), p, v)
    {
      var e := DirectoryEntry(p, v.slot);
      if e.present && KERNEL_FRAMES <= e.index < frames.Length && frames[e.index].Table?
         && |frames[e.index].entries| == ENTRIES && v.index < ENTRIES
      then frames[e.index].entries[v.index] else ABSENT
    }

    /** Writing a table entry through the directory. */
    method WritePte(p: nat, v: Page, e: Entry)
      requires Valid()
      modifies frames
      ensures Valid() && View() == SetPte(old(View()), p, v, e)
    {
      var t := DirectoryEntry(p, v.slot).index;
      if KERNEL_FRAMES <= t < frames.Length && frames[t].Table? && |frames[t].entries| == ENTRIES && v.index < ENTRIES {
        frames[t] := Table(frames[t].entries[v.index := e]);
      }
    }

    /** link_page */
    method LinkPage(p: nat, v: Page) returns (ok: bool)
      requires Valid() && p in procs
      modifies this, memoryMap, frames
      ensures Valid()
      ensures ok <==> Link(old(View()), p, v).Some?
      ensures ok ==> Some(View()) == Link(old(View()), p, v)
    {
      ok := GetPte(p, v.slot);
      if !ok {
        return false;
      }
      if TableEntry(p, v).present {
        return v in procs[p].vmap;
      }
      if v in procs[p].vmap {
        return false;
      }
      procs := procs[p := procs[p].(vmap := procs[p].vmap + {v})];
      var paddr := GetOnePage();
      if paddr.None? {
        return false;
      }
      WritePte(p, v, Entry(true, true, paddr.value));
    }

    /** unlink_page */
    method UnlinkPage(p: nat, v: Page) returns (ok: bool)
      requires Valid() && p in procs
      modifies this, memoryMap, frames
      ensures Valid()
      ensures ok <==> Unlink(old(View()), p, v).Some?
      ensures ok ==> Some(View()) == Unlink(old(View()), p, v)
    {
      ok := GetPte(p, v.slot);
      if !ok {
        return false;
      }
      var entry := TableEntry(p, v);
      if !entry.present {
        return v !in procs[p].vmap;
      }
      if v !in procs[p].vmap {
        return false;
      }
      WritePte(p, v, entry.(present := false));
      procs := procs[p := procs[p].(vmap := procs[p].vmap - {v})];
      ok := PutPage(entry.index);
    }

    /** copy_page: the contents of one frame in a new one. */
    method CopyPage(f: nat) returns (paddr: Option<nat>)
      requires Valid() && f < frames.Length
      modifies this`freePages, memoryMap, frames
      ensures Valid()
      ensures paddr.None? <==> TakeFrame(old(View())).None?
      ensures paddr.Some? ==> paddr.value < frames.Length
      ensures paddr.Some? ==> var (s, g) := TakeFrame(old(View())).value;
        paddr.value == g && View() == s.(frames := s.frames[g := s.frames[f]])
    {
      paddr := GetOnePage();
      if paddr.Some? {
        frames[paddr.value] := frames[f];
      }
    }

    /** page_fault, for the address in cr2 and the present and write bits of the error code. */
    method PageFault(p: nat, va: nat, present: bool, write: bool) returns (ok: bool)
      requires Valid() && p in procs
      modifies this, memoryMap, frames
      ensures Valid()
      ensures ok <==> PagingSpec.PageFault(old(View()), p, va, present, write).Some?
      ensures ok ==> Some(View()) == PagingSpec.PageFault(old(View()), p, va, present, write)
    {
      if !(KERNEL_MEMORY_SIZE <= va < USER_STACK_TOP) {
        return false;
      }
      var v := PageOf(va);
      if present {
        if !write {
          return false;
        }
        ok := ProtectionFault(p, v);
        return;
      }
      if va < procs[p].brk || va >= USER_STACK_BOTTOM {
        ok := LinkPage(p, v);
        return;
      }
      return false;
    }

    /** The write-protection branch of page_fault. */
    method ProtectionFault(p: nat, v: Page) returns (ok: bool)
      requires Valid() && p in procs
      modifies this, memoryMap, frames
      ensures Valid()
      ensures ok <==> WriteFault(old(View()), p, v).Some?
      ensures ok ==> Some(View()) == WriteFault(old(View()), p, v)
    {
      var entry := TableEntry(p, v);
      if !entry.present || entry.index >= memoryMap.Length || memoryMap[entry.index] == 0 {
        return false;
      }
      if memoryMap[entry.index] == 1 {
        WritePte(p, v, entry.(write := true));
        return true;
      }
      var paddr := CopyPage(entry.index);
      if paddr.None? {
        return false;
      }
      memoryMap[entry.index] := memoryMap[entry.index] - 1;
      WritePte(p, v, Entry(true, true, paddr.value));
      return true;
    }

    /** copy_pde's inner loop for the table in frame f: read-only entries, one more reference each. */
    method ShareTable(f: nat) returns (ok: bool)
      requires Valid() && f < frames.Length && frames[f].Table? && |frames[f].entries| == ENTRIES
      modifies memoryMap, frames
      ensures Valid()
      ensures ok <==> Share(old(memoryMap[..]), old(frames[f].entries), ENTRIES).Some?
      ensures ok ==> Some(memoryMap[..]) == Share(old(memoryMap[..]), old(frames[f].entries), ENTRIES)
      ensures ok ==> frames[..] == old(frames[..])[f := Table(ReadOnly(old(frames[f].entries)))]
    {
      ghost var t := frames[f].entries;
      ghost var count := memoryMap[..];
      var tidx := 0;
      while tidx < ENTRIES
        invariant 0 <= tidx <= ENTRIES
        invariant Share(count, t, tidx) == Some(memoryMap[..])
        invariant forall g :: 0 <= g < frames.Length && g != f ==> frames[g] == old(frames[g])
        invariant frames[f] == Table(ReadOnlyUpTo(t, tidx))
      {
        var entry := frames[f].entries[tidx];
        if entry.present {
          if entry.index >= memoryMap.Length || memoryMap[entry.index] == 0 || memoryMap[entry.index] + 1 >= 255 {
            ShareStops(count, t, tidx + 1, ENTRIES);
            return false;
          }
          frames[f] := Table(frames[f].entries[tidx := entry.(write := false)]);
          memoryMap[entry.index] := memoryMap[entry.index] + 1;
        }
        ReadOnlyNext(t, tidx);
        tidx := tidx + 1;
      }
      assert ReadOnlyUpTo(t, ENTRIES) == ReadOnly(t);
      return true;
    }

    /** A round of copy_pde's outer loop on the table in frame f. */
    method CopyTable(f: nat) returns (paddr: Option<nat>)
      requires Valid() && f < frames.Length && frames[f].Table? && |frames[f].entries| == ENTRIES
      modifies this`freePages, memoryMap, frames
      ensures Valid()
      ensures var t := old(frames[f].entries); var count := Share(old(memoryMap[..]), t, ENTRIES);
        && (paddr.Some? <==> count.Some? && LowestUnused(count.value, start).Some?)
        && (paddr.Some? ==>
              && paddr == LowestUnused(count.value, start) && paddr.value < frames.Length
              && memoryMap[..] == count.value[paddr.value := 1] && freePages == old(freePages) - 1
              && frames[..] == old(frames[..])[f := Table(ReadOnly(t))][paddr.value := Table(ReadOnly(t))])
    {
      var shared := ShareTable(f);
      if !shared {
        return None;
      }
      paddr := CopyPage(f);
    }

    /** A round of copy_pde's outer loop for directory slot d, the new directory so far in pde. */
    method CopySlot(p: nat, c: nat, d: nat, pde: seq<Entry>, ghost s0: Memory, ghost child: Proc)
      returns (ok: bool, next: seq<Entry>, ghost child': Proc)
      requires Valid() && p in procs && c !in procs && UserSlot(d)
      requires Copying(s0, With(View(), c, child), p, c, d)
      requires DirectoryBuilt(procs[p].pde, child.pde, pde, d)
      modifies this`freePages, memoryMap, frames
      ensures Valid()
      ensures ok <==> ForkSlot(old(With(View(), c, child)), p, c, d).Some?
      ensures ok ==> ForkSlot(old(With(View(), c, child)), p, c, d) == Some(With(View(), c, child'))
      ensures ok ==> DirectoryBuilt(procs[p].pde, child'.pde, next, d + 1)
    {
      ghost var s := With(View(), c, child);
      CopyingSlot(s0, s, p, c, d);
      ForkSlotStops(s, p, c, d);
      hide Copying, ForkSlot, Share, LowestUnused, ReadOnly;
      var dentry := pde[d];
      next, child' := pde, child;
      DirectoryStays(procs[p].pde, child.pde, pde, d);
      assert dentry == Pde(s, p, d);
      if !dentry.present {
        return true, next, child';
      }
      var paddr := CopyTable(dentry.index);
      if paddr.None? {
        return false, next, child';
      }
      child' := RoundChild(s, p, c, d, paddr.value);
      next := pde[d := dentry.(index := paddr.value)];
      DirectoryGrows(procs[p].pde, child.pde, pde, d, next[d]);
      hide DirectoryBuilt, IsTable, With, Pde;
      RoundIsForkSlot(s, With(View(), c, child'), p, c, d, paddr.value);
      return true, next, child';
    }

    /** task_fork's copy of the page bitmap and copy_pde; the child becomes process c. */
    method Fork(p: nat, c: nat) returns (ok: bool)
      requires Valid() && Inv(View()) && p in procs && c !in procs
      modifies this, memoryMap, frames
      ensures Valid()
      ensures ok <==> PagingSpec.Fork(old(View()), p, c).Some?
      ensures ok ==> Some(View()) == PagingSpec.Fork(old(View()), p, c)
    {
      ghost var s := View();
      ghost var s0 := ForkStart(s, p, c);
      ghost var child := s0.procs[c];
      ghost var si := With(s, c, child);
      var vmap := procs[p].vmap;
      var pde := procs[p].pde;
      ForkBegins(s, s0, p, c);
      var didx := FIRST_SLOT;
      while didx < SELF_SLOT
        invariant FIRST_SLOT <= didx <= SELF_SLOT && procs == s.procs && Valid()
        invariant si == With(View(), c, child)
        invariant DirectoryBuilt(s.procs[p].pde, child.pde, pde, didx)
        invariant Copying(s0, si, p, c, didx)
        invariant PagingSpec.Fork(s, p, c) == ForkSlots(si, p, c, didx)
      {
        ok, pde, child := CopySlot(p, c, didx, pde, s0, child);
        if !ok {
          return false;
        }
        ForkSlotStep(s0, si, With(View(), c, child), p, c, didx);
        si := With(View(), c, child);
        didx := didx + 1;
      }
      CopyIsDone(s, s0, si, p, c);
      assert pde == child.pde;
      procs := procs[c := Proc(pde, vmap, procs[p].brk)];
      return true;
    }
  }

  // ---------------------------------------------------------------- proof helpers

  function ReadOnlyUpTo(t: seq<Entry>, n: nat): (r: seq<Entry>)
    requires n <= |t|
    ensures |r| == |t|
    ensures forall i :: 0 <= i < |t| ==> r[i] == if i < n && t[i].present then t[i].(write := false) else t[i]
  {
    seq(|t|, i requires 0 <= i < |t| => if i < n && t[i].present then t[i].(write := false) else t[i])
  }

  lemma ReadOnlyNext(t: seq<Entry>, n: nat)
    requires n < |t|
    ensures ReadOnlyUpTo(t, n)[n] == t[n]
    ensures ReadOnlyUpTo(t, n + 1) == ReadOnlyUpTo(t, n)[n := if t[n].present then t[n].(write := false) else t[n]]
  {}

  /** The new directory: parent's entries, replaced by the child's in the slots done. */
  ghost predicate DirectoryBuilt(parent: seq<Entry>, child: seq<Entry>, pde: seq<Entry>, d: nat) {
    && |parent| == |child| == |pde| == ENTRIES
    && (forall x :: 0 <= x < ENTRIES ==> pde[x] == if FIRST_SLOT <= x < d then child[x] else parent[x])
    && (forall x :: 0 <= x < ENTRIES && !(FIRST_SLOT <= x < d) ==> child[x] == ABSENT)
    && (forall x :: 0 <= x < ENTRIES && !parent[x].present ==> parent[x] == ABSENT)
  }

  /** In the middle of the copy the parent's entry names a table or nothing. */
  lemma CopyingSlot(s0: Memory, s: Memory, p: nat, c: nat, d: nat)
    requires Copying(s0, s, p, c, d) && UserSlot(d)
    ensures p in s.procs && c in s.procs && p != c && |s.count| == |s.frames| && d < |s.procs[c].pde|
    ensures Pde(s, p, d).present ==> IsTable(s, Pde(s, p, d).index)
  {}

  /** A round with no table to copy changes nothing, and one that cannot copy it halts. */
  lemma ForkSlotStops(s: Memory, p: nat, c: nat, d: nat)
    requires p in s.procs && c in s.procs
    ensures !Pde(s, p, d).present ==> ForkSlot(s, p, c, d) == Some(s)
    ensures Pde(s, p, d).present && IsTable(s, Pde(s, p, d).index) ==>
      var count := Share(s.count, s.frames[Pde(s, p, d).index].entries, ENTRIES);
      count.None? || LowestUnused(count.value, s.start).None? ==> ForkSlot(s, p, c, d).None?
  {
    hide Share, LowestUnused;
  }

  /** A slot that is absent in both directories is built. */
  lemma DirectoryStays(parent: seq<Entry>, child: seq<Entry>, pde: seq<Entry>, d: nat)
    requires DirectoryBuilt(parent, child, pde, d) && FIRST_SLOT <= d < ENTRIES
    ensures |child| == |pde| == ENTRIES && pde[d] == parent[d]
    ensures !parent[d].present ==> DirectoryBuilt(parent, child, pde, d + 1)
  {}

  /** A slot is built once both have the new entry. */
  lemma DirectoryGrows(parent: seq<Entry>, child: seq<Entry>, pde: seq<Entry>, d: nat, e: Entry)
    requires DirectoryBuilt(parent, child, pde, d) && FIRST_SLOT <= d < ENTRIES && parent[d].present
    ensures DirectoryBuilt(parent, child[d := e], pde[d := e], d + 1)
  {}

  lemma RoundIsForkSlot(s: Memory, s': Memory, p: nat, c: nat, d: nat, g: nat)
    requires p in s.procs && c in s.procs && p != c && d < |s.procs[c].pde|
    requires Pde(s, p, d).present && IsTable(s, Pde(s, p, d).index) && |s.count| == |s.frames|
    requires var t := s.frames[Pde(s, p, d).index].entries; var count := Share(s.count, t, ENTRIES);
      && count.Some? && LowestUnused(count.value, s.start) == Some(g)
      && s' == Memory(s.start, count.value[g := 1], s.free - 1,
                      s.frames[Pde(s, p, d).index := Table(ReadOnly(t))][g := Table(ReadOnly(t))],
                      s.procs[c := RoundChild(s, p, c, d, g)])
    ensures ForkSlot(s, p, c, d) == Some(s')
  {}

  /** Share halts for good at the first entry it cannot count. */
  lemma {:induction false} ShareStops(count: seq<nat>, t: seq<Entry>, m: nat, n: nat)
    requires m <= n <= |t| && Share(count, t, m).None?
    ensures Share(count, t, n).None?
    decreases n - m
  {
    if m < n {
      ShareStops(count, t, m + 1, n);
    }
  }

  /** The memory as it would be with the half-built child in the process table. */
  ghost function With(s: Memory, c: nat, child: Proc): Memory {
    s.(procs := s.procs[c := child])
  }

  ghost function RoundChild(s: Memory, p: nat, c: nat, d: nat, g: nat): Proc
    requires p in s.procs && c in s.procs && d < |s.procs[c].pde|
  {
    Proc(s.procs[c].pde[d := Pde(s, p, d).(index := g)],
         s.procs[c].vmap + SlotPages(s.procs[p].vmap, d),
         s.procs[c].brk)
  }

  lemma ForkBegins(s: Memory, s0: Memory, p: nat, c: nat)
    requires Inv(s) && p in s.procs && c !in s.procs && s0 == ForkStart(s, p, c)
    ensures Copying(s0, s0, p, c, FIRST_SLOT)
    ensures DirectoryBuilt(s.procs[p].pde, s0.procs[c].pde, s.procs[p].pde, FIRST_SLOT)
    ensures PagingSpec.Fork(s, p, c) == ForkSlots(s0, p, c, FIRST_SLOT)
  {
    AddEmptyProc(s, s0, c, s.procs[p].brk);
    StartCopying(s0, p, c);
    forall x | 0 <= x < ENTRIES && !s.procs[p].pde[x].present
      ensures s.procs[p].pde[x] == ABSENT
    {
      assert Pde(s, p, x) == s.procs[p].pde[x];
    }
  }

  lemma CopyIsDone(s: Memory, s0: Memory, s': Memory, p: nat, c: nat)
    requires Inv(s) && p in s.procs && c !in s.procs && s0 == ForkStart(s, p, c)
    requires Copying(s0, s', p, c, SELF_SLOT)
    ensures s'.procs[c].vmap == s.procs[p].vmap && s'.procs[c].brk == s.procs[p].brk
    ensures forall x :: 0 <= x < ENTRIES && !UserSlot(x) ==> x < |s.procs[p].pde| && s.procs[p].pde[x] == ABSENT
  {
    EmptyProcAbs(s, s0, c, s.procs[p].brk);
    CopiedAbs(s, s0, s', p, c);
    CopiedVmap(s, s', p, c);
    forall x | 0 <= x < ENTRIES && !UserSlot(x)
      ensures s.procs[p].pde[x] == ABSENT
    {
      assert Pde(s, p, x) == s.procs[p].pde[x];
    }
  }
}
