/** Which accesses of user code the kernel serves and which end in a panic, in addresses and frames. */
module PagingFaults {
  import opened Basics
  import opened PagingSpec
  import opened PagingInvariant
  import opened PagingSteps
  import opened PagingRuns

  /** Not between 16 MB and 128 MB. */
  predicate OutOfBounds(va: nat) {
    va < 0x100_0000 || va >= 0x800_0000
  }

  /** Above the break and below the two megabytes of the stack. */
  predicate InTheGap(brk: nat, va: nat) {
    brk <= va < 0x7E0_0000
  }

  /** An address is in the page that begins at the multiple of 4096 below it, and there at that distance. */
  lemma PageOfAddress(va: nat)
    ensures PageOf(va) == Page(va / 0x40_0000, va / 0x1000 % 1024)
    ensures va == PageOf(va).slot * 0x40_0000 + PageOf(va).index * 0x1000 + va % 0x1000
    ensures !OutOfBounds(va) ==> UserPage(PageOf(va))
  {}

  /** The frames that are free. */
  function FreeFrames(s: Memory): nat {
    Zeros(s.count)
  }

  /** What makes an access impossible, from the entry e of its page: an address out of bounds; for a page that is not
      there also one in the gap, or no frame for the page and, if that is missing, its table; for a page to be copied
      no frame for the copy. */
  ghost predicate Impossible(s: Memory, p: nat, va: nat, write: bool)
    requires p in s.procs
  {
    var v := Page(va / 0x40_0000, va / 0x1000 % 1024);
    var e := Pte(s, p, v);
    if !e.present then
      || OutOfBounds(va) || InTheGap(s.procs[p].brk, va)
      || FreeFrames(s) < 1 + (if Pde(s, p, v.slot).present then 0 else 1)
    else
      write && !e.write && (OutOfBounds(va) || (e.index < |s.count| && s.count[e.index] > 1 && FreeFrames(s) == 0))
  }

  lemma AbsentHalts(s: Memory, p: nat, va: nat, write: bool)
    requires Inv(s) && p in s.procs && !Pte(s, p, PageOf(va)).present
    ensures Access(s, p, va, write).None? <==> Impossible(s, p, va, write)
  {
    PageOfAddress(va);
    hide Inv;
    if !OutOfBounds(va) && !InTheGap(s.procs[p].brk, va) {
      LinkHalts(s, p, PageOf(va));
      if Link(s, p, PageOf(va)).Some? {
        LinkKeepsInv(s, p, PageOf(va));
      }
      hide Link;
    }
  }

  lemma PresentHalts(s: Memory, p: nat, va: nat, write: bool)
    requires Inv(s) && p in s.procs && Pte(s, p, PageOf(va)).present
    ensures Access(s, p, va, write).None? <==> Impossible(s, p, va, write)
  {
    PageOfAddress(va);
    if write && !Pte(s, p, PageOf(va)).write && !OutOfBounds(va) {
      WriteFaultHalts(s, p, PageOf(va));
    }
    hide Inv, WriteFault;
  }

  /** For every reachable memory and every address: an access panics if and only if it is impossible in that
      sense. */
  lemma AccessHalts(s: Memory, p: nat, va: nat, write: bool)
    requires Inv(s) && p in s.procs
    ensures Access(s, p, va, write).None? <==> Impossible(s, p, va, write)
  {
    if Pte(s, p, PageOf(va)).present {
      PresentHalts(s, p, va, write);
    } else {
      AbsentHalts(s, p, va, write);
    }
  }

  /** An access that is served maps the page, writable if it writes; the process gains that page at most, with
      whatever bytes, and nobody else notices. */
  lemma AccessServes(s: Memory, p: nat, va: nat, write: bool) returns (bytes: seq<Byte>)
    requires Inv(s) && p in s.procs && UserAddress(va) && !Impossible(s, p, va, write)
    ensures Access(s, p, va, write).Some?
    ensures var s', v := Access(s, p, va, write).value, Page(va / 0x40_0000, va / 0x1000 % 1024);
      && Inv(s') && Mapped(s', p, v) && (write ==> Pte(s', p, v).write)
      && Abs(s') == if v in Pages(s, p) then Abs(s) else WithPage(Abs(s), p, v, bytes)
  {
    AccessHalts(s, p, va, write);
    PageOfAddress(va);
    bytes := AccessRefines(s, Access(s, p, va, write).value, p, va, write);
    hide Inv, Access, Impossible, Mapped;
  }

  /** A read of a page that is there never faults; if it did, the handler would panic. */
  lemma ReadNeedsNoRight(s: Memory, p: nat, va: nat)
    requires p in s.procs && Pte(s, p, PageOf(va)).present
    ensures Access(s, p, va, false) == Some(s) && PageFault(s, p, va, true, false).None?
  {}

  // ---------------------------------------------------------------- the break

  /** sys_brk panics exactly on a break off a page boundary, out of bounds, or below the old one. */
  lemma BrkHalts(s: Memory, p: nat, brk: nat)
    requires p in s.procs
    ensures Brk(s, p, brk).None? <==>
      brk % 0x1000 != 0 || brk < 0x100_0000 || brk >= 0x7E0_0000 || brk < s.procs[p].brk
  {}

  /** Otherwise it refuses exactly if the new pages are more than the free frames and those the kernel's own mapping
      took without telling free_pages; if it does not refuse, it moves this break and nothing else. */
  lemma BrkRefuses(s: Memory, p: nat, brk: nat)
    requires Inv(s) && p in s.procs && Brk(s, p, brk).Some?
    ensures var (s', r) := Brk(s, p, brk).value;
      && (r == Refused <==> (brk - s.procs[p].brk) / 0x1000 > FreeFrames(s) + (0x1000 - s.start))
      && (r == Refused ==> s' == s)
      && (r != Refused ==> r == Done && s' == s.(procs := s.procs[p := s.procs[p].(brk := brk)]))
  {}

  /** So a break can be granted that the memory cannot back: with no free frame at all it grows by a page, and the
      first access to that page panics. */
  lemma BrkPromisesTooMuch(s: Memory, p: nat)
    requires Inv(s) && p in s.procs && FreeFrames(s) == 0
    requires s.procs[p].brk % 0x1000 == 0 && 0x100_0000 <= s.procs[p].brk < 0x7DF_F000
    requires !Pte(s, p, PageOf(s.procs[p].brk)).present
    ensures var brk := s.procs[p].brk;
      var r := Brk(s, p, brk + 0x1000);
      && r.Some? && r.value.1 == Done && Inv(r.value.0) && p in r.value.0.procs && r.value.0.procs[p].brk > brk
      && Access(r.value.0, p, brk, false).None?
  {
    var brk := s.procs[p].brk;
    BrkHalts(s, p, brk + 0x1000);
    BrkRefuses(s, p, brk + 0x1000);
    var s' := Brk(s, p, brk + 0x1000).value.0;
    BrkInv(s, s', p, brk + 0x1000);
    PageOfAddress(brk);
    assert Pte(s', p, PageOf(brk)) == Pte(s, p, PageOf(brk));
    hide Inv, Brk, Access;
    AccessHalts(s', p, brk, false);
  }
}
