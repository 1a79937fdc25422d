/** Each operation of kernel/memory.c keeps the paging invariant and has the effect on page contents
    that a kernel without sharing would have. */
module PagingSteps {
  import opened Basics
  import opened PagingSpec
  import opened PagingInvariant

  // ---------------------------------------------------------------- what processes see

  /** A process of the eager kernel: its own copy of every page. */
  datatype EagerProc = EagerProc(pages: map<Page, seq<Byte>>, brk: nat)

  type Eager = map<nat, EagerProc>

  ghost function PageBytes(s: Memory, p: nat, v: Page): seq<Byte> {
    var f := Pte(s, p, v).index;
    if IsPage(s, f) then s.frames[f].bytes else []
  }

  ghost function Pages(s: Memory, p: nat): (m: map<Page, seq<Byte>>)
    ensures forall v :: v in m <==> Mapped(s, p, v)
    ensures forall v :: v in m ==> m[v] == PageBytes(s, p, v)
  {
    map v | v in AllPages() && Mapped(s, p, v) :: PageBytes(s, p, v)
  }

  ghost function Abs(s: Memory): Eager {
    map p | p in s.procs :: EagerProc(Pages(s, p), s.procs[p].brk)
  }

  // ---------------------------------------------------------------- one table entry changes

  /** s' differs from s, as far as the tables are concerned, only in p's entry for page v. */
  ghost predicate EntryChanged(s: Memory, s': Memory, p: nat, v: Page, e: Entry) {
    && s'.procs.Keys == s.procs.Keys
    && |s'.count| == |s.count| && |s'.frames| == |s.frames| && s'.start == s.start
    && (forall q :: q in s.procs ==> s'.procs[q].pde == s.procs[q].pde)
    && (forall q, w :: Pte(s', q, w) == if q == p && w == v then e else Pte(s, q, w))
    && (forall f :: IsTable(s, f) <==> IsTable(s', f))
    && (forall f :: IsPage(s, f) <==> IsPage(s', f))
  }

  lemma SetPteChangesOne(s: Memory, p: nat, v: Page, e: Entry)
    requires Shapes(s) && TablesPrivate(s) && UserPage(v) && Pde(s, p, v.slot).present
    ensures EntryChanged(s, SetPte(s, p, v, e), p, v, e)
  {
    var s' := SetPte(s, p, v, e);
    var t := Pde(s, p, v.slot).index;
    forall q: nat, w: Page
      ensures Pte(s', q, w) == if q == p && w == v then e else Pte(s, q, w)
    {
      assert Pde(s', q, w.slot) == Pde(s, q, w.slot);
      if Pde(s, q, w.slot).present && Pde(s, q, w.slot).index == t {
        assert q == p && w.slot == v.slot;
      }
    }
  }

  ghost function NamesFrame(e: Entry, f: nat): nat {
    if e.present && e.index == f then 1 else 0
  }

  /** The number of references to a frame moves with the one entry that changed. */
  lemma EntryChangeMovesRefs(s: Memory, s': Memory, p: nat, v: Page, e: Entry, f: nat)
    requires p in s.procs && UserPage(v) && EntryChanged(s, s', p, v, e)
    ensures |Refs(s', f)| == |Refs(s, f)| - NamesFrame(Pte(s, p, v), f) + NamesFrame(e, f)
  {
    var r := PageRef(p, v);
    assert forall x :: IsRef(s.procs.Keys, x) && x != r ==> (Names(s', x, f) <==> Names(s, x, f)) by {
      forall x | IsRef(s.procs.Keys, x) && x != r
        ensures Names(s', x, f) <==> Names(s, x, f)
      {
        match x
        case TableRef(q, d) => assert Pde(s', q, d) == Pde(s, q, d);
        case PageRef(q, w) =>
      }
    }
    var before, after := Refs(s, f), Refs(s', f);
    assert r in before <==> NamesFrame(Pte(s, p, v), f) == 1;
    assert r in after <==> NamesFrame(e, f) == 1;
    assert after - {r} == before - {r};
    assert |before - {r}| == |before| - NamesFrame(Pte(s, p, v), f);
    assert |after - {r}| == |after| - NamesFrame(e, f);
  }

  /** What a new entry for page v of process p must satisfy, given the counters after the change. */
  ghost predicate EntryFits(s: Memory, count: seq<nat>, p: nat, v: Page, e: Entry) {
    && |count| == |s.count|
    && (e.present ==> IsPage(s, e.index) && e.index < |count|)
    && (forall q, w :: e.present && Mapped(s, q, w) && Pte(s, q, w).index == e.index ==> w == v)
    && (e.present && e.write ==> count[e.index] == 1)
    && (forall q, w :: e.present && Mapped(s, q, w) && Pte(s, q, w).write && Pte(s, q, w).index == e.index
          ==> q == p && w == v)
  }

  /** The counters move with the entry that changes and stay within the assertion of copy_pde. */
  ghost predicate CountsFollow(s: Memory, count: seq<nat>, eo: Entry, en: Entry) {
    && |count| == |s.count|
    && (forall f :: 0 <= f < |count| ==> count[f] == s.count[f] - NamesFrame(eo, f) + NamesFrame(en, f) && count[f] < 255)
    && (forall f :: KERNEL_FRAMES <= f < |count| && count[f] == 0 ==> IsPage(s, f))
  }

  lemma AbsentFits(s: Memory, count: seq<nat>, p: nat, v: Page, e: Entry)
    requires |count| == |s.count| && !e.present
    ensures EntryFits(s, count, p, v, e)
  {}

  lemma CountsDrop(s: Memory, eo: Entry, en: Entry)
    requires forall f :: 0 <= f < |s.count| ==> s.count[f] < 255
    requires forall f :: KERNEL_FRAMES <= f < |s.count| && s.count[f] == 0 ==> IsPage(s, f)
    requires eo.present && !en.present && eo.index < |s.count| && s.count[eo.index] >= 1 && IsPage(s, eo.index)
    ensures CountsFollow(s, s.count[eo.index := s.count[eo.index] - 1], eo, en)
  {}

  lemma EntryChangeMapped(s: Memory, s': Memory, p: nat, v: Page, e: Entry)
    requires UserPage(v) && EntryChanged(s, s', p, v, e)
    ensures forall q, w :: Mapped(s', q, w) <==> if q == p && w == v then e.present else Mapped(s, q, w)
    ensures forall q, d :: Pde(s', q, d) == Pde(s, q, d)
  {}

  lemma EntryChangeShapes(s: Memory, s': Memory, p: nat, v: Page, e: Entry)
    requires Shapes(s) && TablesPrivate(s) && p in s.procs && UserPage(v) && EntryChanged(s, s', p, v, e)
    requires EntryFits(s, s'.count, p, v, e) && CountsFollow(s, s'.count, Pte(s, p, v), e)
    ensures Shapes(s') && TablesPrivate(s')
  {
    EntryChangeMapped(s, s', p, v, e);
    forall f | 0 <= f < KERNEL_FRAMES
      ensures s'.count[f] > 0
    {
      assert Mapped(s, p, v) ==> IsPage(s, Pte(s, p, v).index);
    }
    forall q: nat, w: Page | Mapped(s', q, w)
      ensures IsPage(s', Pte(s', q, w).index)
    {
      assert (q != p || w != v) ==> Mapped(s, q, w);
    }
  }

  lemma EntryChangeCounted(s: Memory, s': Memory, p: nat, v: Page, e: Entry)
    requires Counted(s) && p in s.procs && UserPage(v) && EntryChanged(s, s', p, v, e)
    requires CountsFollow(s, s'.count, Pte(s, p, v), e)
    ensures Counted(s')
  {
    forall f | KERNEL_FRAMES <= f < |s'.count|
      ensures s'.count[f] == |Refs(s', f)|
    {
      EntryChangeMovesRefs(s, s', p, v, e, f);
    }
  }

  lemma EntryChangeSharing(s: Memory, s': Memory, p: nat, v: Page, e: Entry)
    requires Inv(s) && p in s.procs && UserPage(v) && EntryChanged(s, s', p, v, e)
    requires EntryFits(s, s'.count, p, v, e) && CountsFollow(s, s'.count, Pte(s, p, v), e)
    ensures PagesAligned(s') && SoleWriter(s')
  {
    EntryChangeMapped(s, s', p, v, e);
    forall q: nat, w: Page | Mapped(s', q, w) && Pte(s', q, w).write
      ensures Pte(s', q, w).index < |s'.count| && s'.count[Pte(s', q, w).index] == 1
    {
      if q != p || w != v {
        var f := Pte(s, q, w).index;
        assert Mapped(s, q, w);
        ReferencedIsCounted(s, PageRef(q, w), f);
        assert PageRef(p, v) in Refs(s, f) <==> NamesFrame(Pte(s, p, v), f) == 1;
      }
    }
  }

  // ---------------------------------------------------------------- creating a page table

  /** Nothing a process can observe differs. */
  ghost predicate SameProcs(s: Memory, s': Memory) {
    && s'.procs.Keys == s.procs.Keys
    && (forall q :: q in s.procs ==> s'.procs[q].brk == s.procs[q].brk && s'.procs[q].vmap == s.procs[q].vmap)
    && (forall q, w :: Pte(s', q, w) == Pte(s, q, w))
    && (forall q, w :: Mapped(s, q, w) ==> PageBytes(s', q, w) == PageBytes(s, q, w))
  }

  lemma SameProcsSameAbs(s: Memory, s': Memory)
    requires SameProcs(s, s')
    ensures Abs(s') == Abs(s)
  {
    forall p | p in s.procs
      ensures Pages(s', p) == Pages(s, p)
    {
      assert forall v :: Mapped(s', p, v) <==> Mapped(s, p, v);
    }
  }

  /** s' differs from s by an empty table in frame f under p's directory slot d. */
  ghost predicate EmptyTableAdded(s: Memory, s': Memory, p: nat, d: nat, f: nat) {
    && SameProcs(s, s') && f < |s.count| == |s.frames|
    && s'.start == s.start && s'.count == s.count[f := 1] && s'.free == s.free - 1
    && s'.frames == s.frames[f := Table(EmptyTable())]
    && (forall q :: q in s.procs ==> |s'.procs[q].pde| == |s.procs[q].pde|)
    && (forall q, c :: Pde(s', q, c) == if q == p && c == d then Entry(true, true, f) else Pde(s, q, c))
  }

  lemma NewTableEffect(s: Memory, p: nat, d: nat)
    requires Inv(s) && p in s.procs && UserSlot(d) && !Pde(s, p, d).present && TakeFrame(s).Some?
    ensures GetTable(s, p, d).Some?
    ensures KERNEL_FRAMES <= TakeFrame(s).value.1 < |s.frames|
    ensures EmptyTableAdded(s, GetTable(s, p, d).value, p, d, TakeFrame(s).value.1)
  {
    TakenFrameIsFresh(s);
    var f := TakeFrame(s).value.1;
    var s' := GetTable(s, p, d).value;
    UnreferencedFrame(s, f);
    forall q: nat, w: Page
      ensures Pte(s', q, w) == Pte(s, q, w)
    {
      if q == p && w.slot == d {
        assert w.index < ENTRIES ==> Pte(s', q, w) == EmptyTable()[w.index];
      } else {
        assert Pde(s', q, w.slot) == Pde(s, q, w.slot);
      }
    }
  }

  lemma NewTableCounted(s: Memory, s': Memory, p: nat, d: nat, f: nat)
    requires Inv(s) && p in s.procs && UserSlot(d) && !Pde(s, p, d).present
    requires KERNEL_FRAMES <= f < |s.count| && s.count[f] == 0
    requires EmptyTableAdded(s, s', p, d, f)
    ensures Counted(s')
  {
    forall g | KERNEL_FRAMES <= g < |s'.count|
      ensures s'.count[g] == |Refs(s', g)|
    {
      var r := TableRef(p, d);
      assert s'.procs.Keys == s.procs.Keys;
      forall x | IsRef(s.procs.Keys, x)
        ensures Names(s', x, g) <==> if x == r then g == f else Names(s, x, g)
      {}
      assert Refs(s', g) == Refs(s, g) + if g == f then {r} else {};
      assert r !in Refs(s, g);
    }
  }

  lemma NewTableShapes(s: Memory, s': Memory, p: nat, d: nat, f: nat)
    requires Inv(s) && p in s.procs && UserSlot(d) && !Pde(s, p, d).present
    requires KERNEL_FRAMES <= f < |s.count| && s.count[f] == 0
    requires EmptyTableAdded(s, s', p, d, f)
    ensures Shapes(s') && TablesPrivate(s')
  {
    UnreferencedFrame(s, f);
    forall q: nat, w: Page | Mapped(s', q, w)
      ensures IsPage(s', Pte(s', q, w).index)
    {
      assert Mapped(s, q, w);
    }
  }

  lemma NewTableSharing(s: Memory, s': Memory, p: nat, d: nat, f: nat)
    requires Inv(s) && KERNEL_FRAMES <= f < |s.count| && s.count[f] == 0
    requires EmptyTableAdded(s, s', p, d, f)
    ensures PagesAligned(s') && SoleWriter(s') && VmapExact(s')
  {
    UnreferencedFrame(s, f);
    forall q: nat, w: Page
      ensures Mapped(s', q, w) == Mapped(s, q, w)
    {}
  }

  lemma NewTableKeepsInv(s: Memory, p: nat, d: nat)
    requires Inv(s) && p in s.procs && UserSlot(d) && !Pde(s, p, d).present && TakeFrame(s).Some?
    ensures GetTable(s, p, d).Some?
    ensures var s' := GetTable(s, p, d).value; Inv(s') && SameProcs(s, s') && Pde(s', p, d).present
  {
    TakenFrameIsFresh(s);
    NewTableEffect(s, p, d);
    var f := TakeFrame(s).value.1;
    var s' := GetTable(s, p, d).value;
    NewTableCounted(s, s', p, d, f);
    NewTableShapes(s, s', p, d, f);
    NewTableSharing(s, s', p, d, f);
    ZerosUpdate(s.count, f, 1);
  }

  lemma GetTableKeepsInv(s: Memory, p: nat, d: nat)
    requires Inv(s) && p in s.procs && UserSlot(d)
    ensures GetTable(s, p, d).None? <==> !Pde(s, p, d).present && TakeFrame(s).None?
    ensures GetTable(s, p, d).Some? ==>
      var s' := GetTable(s, p, d).value; Inv(s') && SameProcs(s, s') && Pde(s', p, d).present
  {
    if !Pde(s, p, d).present && TakeFrame(s).Some? {
      NewTableKeepsInv(s, p, d);
    }
  }

  // ---------------------------------------------------------------- effects on one page

  function WithPage(a: Eager, p: nat, v: Page, bytes: seq<Byte>): Eager
    requires p in a
  {
    a[p := a[p].(pages := a[p].pages[v := bytes])]
  }

  function WithoutPage(a: Eager, p: nat, v: Page): Eager
    requires p in a
  {
    a[p := a[p].(pages := a[p].pages - {v})]
  }

  lemma EntryChangePages(s: Memory, s': Memory, p: nat, v: Page, e: Entry, q: nat)
    requires UserPage(v) && EntryChanged(s, s', p, v, e)
    requires forall w :: Mapped(s, q, w) && (q != p || w != v) ==> PageBytes(s', q, w) == PageBytes(s, q, w)
    ensures Pages(s', q) ==
      if q != p then Pages(s, q)
      else if e.present then Pages(s, q)[v := PageBytes(s', p, v)]
      else Pages(s, q) - {v}
  {
    EntryChangeMapped(s, s', p, v, e);
    PagesFromMapped(s, s', p, v, e.present, q);
  }

  lemma PagesFromMapped(s: Memory, s': Memory, p: nat, v: Page, present: bool, q: nat)
    requires forall w :: Mapped(s', q, w) <==> if q == p && w == v then present else Mapped(s, q, w)
    requires forall w :: Mapped(s, q, w) && (q != p || w != v) ==> PageBytes(s', q, w) == PageBytes(s, q, w)
    ensures Pages(s', q) ==
      if q != p then Pages(s, q)
      else if present then Pages(s, q)[v := PageBytes(s', p, v)]
      else Pages(s, q) - {v}
  {}

  lemma AbsFromPages(s: Memory, s': Memory, p: nat, pages: map<Page, seq<Byte>>)
    requires p in s.procs && s'.procs.Keys == s.procs.Keys
    requires forall q :: q in s.procs ==> s'.procs[q].brk == s.procs[q].brk
    requires forall q :: q in s.procs ==> Pages(s', q) == if q == p then pages else Pages(s, q)
    ensures Abs(s') == Abs(s)[p := Abs(s)[p].(pages := pages)]
  {}

  lemma EntryChangeAbs(s: Memory, s': Memory, p: nat, v: Page, e: Entry)
    requires p in s.procs && UserPage(v) && EntryChanged(s, s', p, v, e)
    requires forall q :: q in s.procs ==> s'.procs[q].brk == s.procs[q].brk
    requires forall q, w :: Mapped(s, q, w) && (q != p || w != v) ==> PageBytes(s', q, w) == PageBytes(s, q, w)
    ensures e.present ==> Abs(s') == WithPage(Abs(s), p, v, PageBytes(s', p, v))
    ensures !e.present ==> Abs(s') == WithoutPage(Abs(s), p, v)
  {
    var pages := if e.present then Pages(s, p)[v := PageBytes(s', p, v)] else Pages(s, p) - {v};
    forall q | q in s.procs
      ensures Pages(s', q) == if q == p then pages else Pages(s, q)
    {
      EntryChangePages(s, s', p, v, e, q);
    }
    AbsFromPages(s, s', p, pages);
  }

  lemma AbsentPageUnmapped(s: Memory, p: nat, v: Page)
    requires Inv(s) && p in s.procs && UserPage(v) && !Mapped(s, p, v)
    ensures WithoutPage(Abs(s), p, v) == Abs(s)
  {
    assert Pages(s, p) - {v} == Pages(s, p);
  }

  /** Replacing the frames' owner data (counters, bitmaps, free count) does not change what the
      directories and tables say. */
  lemma SameTables(s: Memory, s': Memory)
    requires s'.frames == s.frames && s'.procs.Keys == s.procs.Keys
    requires forall q :: q in s.procs ==> s'.procs[q].pde == s.procs[q].pde
    ensures forall q, d :: Pde(s', q, d) == Pde(s, q, d)
    ensures forall q, w :: Pte(s', q, w) == Pte(s, q, w)
  {}

  /** p's entry for page v becomes e, p's bitmap follows, and no frame in use is written. */
  ghost predicate PageStep(s: Memory, s': Memory, p: nat, v: Page, e: Entry) {
    && p in s.procs && UserPage(v) && Pde(s, p, v.slot).present
    && EntryChanged(s, s', p, v, e)
    && (forall q :: q in s.procs ==> s'.procs[q].brk == s.procs[q].brk)
    && (forall q :: q in s.procs && q != p ==> s'.procs[q].vmap == s.procs[q].vmap)
    && (s'.procs[p].vmap == if e.present then s.procs[p].vmap + {v} else s.procs[p].vmap - {v})
    && (forall f: nat :: f < |s.count| == |s.frames| && IsPage(s, f) && s.count[f] > 0 ==> s'.frames[f] == s.frames[f])
  }

  lemma SetPteIsPageStep(s: Memory, s': Memory, p: nat, v: Page, e: Entry)
    requires Shapes(s) && TablesPrivate(s) && p in s.procs && UserPage(v) && Pde(s, p, v.slot).present
    requires s'.frames == SetPte(s, p, v, e).frames && s'.start == s.start && |s'.count| == |s.count|
    requires s'.procs == s.procs[p := s.procs[p].(vmap := if e.present then s.procs[p].vmap + {v} else s.procs[p].vmap - {v})]
    ensures PageStep(s, s', p, v, e)
  {
    SetPteChangesOne(s, p, v, e);
    SameTables(SetPte(s, p, v, e), s');
  }

  lemma PageStepKeepsInv(s: Memory, s': Memory, p: nat, v: Page, e: Entry)
    requires Inv(s) && PageStep(s, s', p, v, e)
    requires EntryFits(s, s'.count, p, v, e) && CountsFollow(s, s'.count, Pte(s, p, v), e)
    requires Balanced(s')
    ensures Inv(s')
  {
    EntryChangeShapes(s, s', p, v, e);
    EntryChangeCounted(s, s', p, v, e);
    EntryChangeSharing(s, s', p, v, e);
    EntryChangeVmap(s, s', p, v, e);
  }

  lemma EntryChangeVmap(s: Memory, s': Memory, p: nat, v: Page, e: Entry)
    requires VmapExact(s) && PageStep(s, s', p, v, e)
    ensures VmapExact(s')
  {
    EntryChangeMapped(s, s', p, v, e);
  }

  lemma PageStepAbs(s: Memory, s': Memory, p: nat, v: Page, e: Entry)
    requires Shapes(s) && Counted(s) && PageStep(s, s', p, v, e)
    ensures e.present ==> Abs(s') == WithPage(Abs(s), p, v, PageBytes(s', p, v))
    ensures !e.present ==> Abs(s') == WithoutPage(Abs(s), p, v)
  {
    forall q: nat, w: Page | Mapped(s, q, w) && (q != p || w != v)
      ensures PageBytes(s', q, w) == PageBytes(s, q, w)
    {
      PresentHasProcess(s, q, w);
      ReferencedIsCounted(s, PageRef(q, w), Pte(s, q, w).index);
    }
    EntryChangeAbs(s, s', p, v, e);
  }

  lemma SamePageAbs(s: Memory, p: nat, v: Page)
    requires p in s.procs && Mapped(s, p, v)
    ensures WithPage(Abs(s), p, v, PageBytes(s, p, v)) == Abs(s)
  {
    assert Pages(s, p)[v := PageBytes(s, p, v)] == Pages(s, p);
  }

  // ---------------------------------------------------------------- link_page

  /** Puts a free frame behind an absent entry. */
  lemma AddPageEffect(s: Memory, p: nat, v: Page)
    requires Inv(s) && p in s.procs && UserPage(v) && Pde(s, p, v.slot).present && !Mapped(s, p, v)
    requires TakeFrame(s).Some?
    ensures LinkIn(s, p, v).Some?
    ensures var s', f := LinkIn(s, p, v).value, TakeFrame(s).value.1;
      && IsPage(s, f) && s.count[f] == 0 && PageStep(s, s', p, v, Entry(true, true, f))
      && s'.count == s.count[f := 1] && s'.free == s.free - 1
  {
    TakenFrameIsFresh(s);
    SetPteIsPageStep(s, LinkIn(s, p, v).value, p, v, Entry(true, true, TakeFrame(s).value.1));
  }

  lemma AddPageKeepsInv(s: Memory, p: nat, v: Page)
    requires Inv(s) && p in s.procs && UserPage(v) && Pde(s, p, v.slot).present && !Mapped(s, p, v)
    requires TakeFrame(s).Some?
    ensures LinkIn(s, p, v).Some?
    ensures var s' := LinkIn(s, p, v).value;
      Inv(s') && Mapped(s', p, v) && Pte(s', p, v).write
      && |PageBytes(s', p, v)| == PAGE_SIZE && Abs(s') == WithPage(Abs(s), p, v, PageBytes(s', p, v))
  {
    AddPageEffect(s, p, v);
    var f := TakeFrame(s).value.1;
    var s' := LinkIn(s, p, v).value;
    UnreferencedFrame(s, f);
    ZerosUpdate(s.count, f, 1);
    PageStepKeepsInv(s, s', p, v, Entry(true, true, f));
    PageStepAbs(s, s', p, v, Entry(true, true, f));
    hide Inv, LinkIn, Abs, PageBytes, WithPage;
  }

  /** How many frames link_page takes: a missing table and a missing page cost one each. */
  ghost function LinkNeeds(s: Memory, p: nat, v: Page): nat {
    (if Pde(s, p, v.slot).present then 0 else 1) + (if Mapped(s, p, v) then 0 else 1)
  }

  lemma LinkInHalts(s: Memory, p: nat, v: Page)
    requires Inv(s) && p in s.procs && UserPage(v) && Pde(s, p, v.slot).present
    ensures LinkIn(s, p, v).None? <==> !Mapped(s, p, v) && Zeros(s.count) == 0
  {
    OutOfMemory(s);
  }

  /** link_page halts exactly for lack of memory: its assertions on the page bitmap never fire. */
  lemma LinkHalts(s: Memory, p: nat, v: Page)
    requires Inv(s) && p in s.procs && UserPage(v)
    ensures Link(s, p, v).None? <==> Zeros(s.count) < LinkNeeds(s, p, v)
  {
    GetTableKeepsInv(s, p, v.slot);
    OutOfMemory(s);
    if GetTable(s, p, v.slot).Some? {
      LinkInHalts(GetTable(s, p, v.slot).value, p, v);
      GetTableTakesOne(s, p, v.slot);
    }
  }

  lemma LinkInKeepsInv(s: Memory, p: nat, v: Page)
    requires Inv(s) && p in s.procs && UserPage(v) && Pde(s, p, v.slot).present
    requires LinkIn(s, p, v).Some?
    ensures var s' := LinkIn(s, p, v).value;
      && Inv(s') && Mapped(s', p, v) && |PageBytes(s', p, v)| == PAGE_SIZE
      && Abs(s') == WithPage(Abs(s), p, v, PageBytes(s', p, v))
      && (!Mapped(s, p, v) ==> Pte(s', p, v).write)
  {
    if Mapped(s, p, v) {
      assert Pages(s, p)[v := PageBytes(s, p, v)] == Pages(s, p);
    } else {
      AddPageKeepsInv(s, p, v);
    }
  }

  /** link_page maps the page, with whatever bytes the frame held, unless it was mapped before. */
  lemma LinkKeepsInv(s: Memory, p: nat, v: Page)
    requires Inv(s) && p in s.procs && UserPage(v) && Link(s, p, v).Some?
    ensures var s' := Link(s, p, v).value;
      && Inv(s') && Mapped(s', p, v) && |PageBytes(s', p, v)| == PAGE_SIZE
      && Abs(s') == WithPage(Abs(s), p, v, PageBytes(s', p, v))
      && (Mapped(s, p, v) ==> s' == s)
      && (!Mapped(s, p, v) ==> Pte(s', p, v).write)
  {
    GetTableKeepsInv(s, p, v.slot);
    var s1 := GetTable(s, p, v.slot).value;
    SameProcsSameAbs(s, s1);
    LinkInKeepsInv(s1, p, v);
  }

  lemma GetTableTakesOne(s: Memory, p: nat, d: nat)
    requires Inv(s) && p in s.procs && UserSlot(d) && GetTable(s, p, d).Some?
    ensures Zeros(GetTable(s, p, d).value.count) == Zeros(s.count) - if Pde(s, p, d).present then 0 else 1
  {
    if !Pde(s, p, d).present {
      ZerosUpdate(s.count, TakeFrame(s).value.1, 1);
    }
  }

  // ---------------------------------------------------------------- unlink_page

  lemma DropOnePutsFrame(s: Memory, f: nat)
    requires 0 < s.start < KERNEL_FRAMES <= f < |s.count| && s.count[f] >= 1 && Balanced(s)
    requires forall g :: 0 <= g < KERNEL_FRAMES ==> s.count[g] > 0
    ensures PutFrame(s, f).Some?
  {
    ZerosUpdate(s.count, f, s.count[f] - 1);
    ZerosAtMost(s.count[f := s.count[f] - 1]);
  }

  lemma RemovePageEffect(s: Memory, s': Memory, p: nat, v: Page)
    requires Shapes(s) && TablesPrivate(s) && Counted(s) && VmapExact(s) && Balanced(s)
    requires p in s.procs && Mapped(s, p, v)
    requires UnlinkIn(s, p, v) == Some(s')
    ensures PageStep(s, s', p, v, Pte(s, p, v).(present := false))
  {
    var e := Pte(s, p, v);
    var s1 := SetVmap(SetPte(s, p, v, e.(present := false)), p, s.procs[p].vmap - {v});
    assert PutFrame(s1, e.index) == Some(s');
    SetPteIsPageStep(s, s', p, v, e.(present := false));
  }

  /** s' has one reference less to the frame that e names. */
  ghost predicate OneLess(s: Memory, s': Memory, e: Entry) {
    && e.index < |s.count| && s.count[e.index] >= 1 && s'.start == s.start
    && s'.count == s.count[e.index := s.count[e.index] - 1]
    && s'.free == s.free + if s.count[e.index] == 1 then 1 else 0
  }

  lemma RemovePageHappens(s: Memory, p: nat, v: Page)
    requires Shapes(s) && Counted(s) && VmapExact(s) && Balanced(s)
    requires p in s.procs && Mapped(s, p, v)
    ensures UnlinkIn(s, p, v).Some? && OneLess(s, UnlinkIn(s, p, v).value, Pte(s, p, v))
  {
    var e := Pte(s, p, v);
    ReferencedIsCounted(s, PageRef(p, v), e.index);
    var s1 := SetVmap(SetPte(s, p, v, e.(present := false)), p, s.procs[p].vmap - {v});
    DropOnePutsFrame(s1, e.index);
  }

  lemma RemovePageCounts(s: Memory, s': Memory, e: Entry)
    requires forall f :: 0 <= f < |s.count| ==> s.count[f] < 255
    requires forall f :: KERNEL_FRAMES <= f < |s.count| && s.count[f] == 0 ==> IsPage(s, f)
    requires Balanced(s) && e.present && IsPage(s, e.index) && OneLess(s, s', e)
    ensures CountsFollow(s, s'.count, e, e.(present := false)) && Balanced(s')
  {
    ZerosUpdate(s.count, e.index, s.count[e.index] - 1);
    CountsDrop(s, e, e.(present := false));
  }

  lemma RemovePageInv(s: Memory, s': Memory, p: nat, v: Page)
    requires Inv(s) && p in s.procs && Mapped(s, p, v)
    requires UnlinkIn(s, p, v) == Some(s')
    ensures Inv(s')
  {
    var e := Pte(s, p, v).(present := false);
    RemovePageHappens(s, p, v);
    RemovePageCounts(s, s', Pte(s, p, v));
    RemovePageEffect(s, s', p, v);
    AbsentFits(s, s'.count, p, v, e);
    PageStepKeepsInv(s, s', p, v, e);
  }

  lemma RemovePageAbs(s: Memory, s': Memory, p: nat, v: Page)
    requires Inv(s) && p in s.procs && Mapped(s, p, v)
    requires UnlinkIn(s, p, v) == Some(s')
    ensures !Mapped(s', p, v) && Abs(s') == WithoutPage(Abs(s), p, v)
  {
    RemovePageEffect(s, s', p, v);
    PageStepAbs(s, s', p, v, Pte(s, p, v).(present := false));
  }

  /** unlink_page halts only when it must create a table and no frame is left. */
  lemma UnlinkHalts(s: Memory, p: nat, v: Page)
    requires Inv(s) && p in s.procs && UserPage(v)
    ensures Unlink(s, p, v).None? <==> !Pde(s, p, v.slot).present && Zeros(s.count) == 0
  {
    GetTableKeepsInv(s, p, v.slot);
    OutOfMemory(s);
    if GetTable(s, p, v.slot).Some? {
      var s1 := GetTable(s, p, v.slot).value;
      if Mapped(s1, p, v) {
        RemovePageHappens(s1, p, v);
      }
    }
  }

  lemma UnlinkKeepsInv(s: Memory, p: nat, v: Page)
    requires Inv(s) && p in s.procs && UserPage(v) && Unlink(s, p, v).Some?
    ensures var s' := Unlink(s, p, v).value;
      Inv(s') && !Mapped(s', p, v) && Abs(s') == WithoutPage(Abs(s), p, v)
  {
    GetTableKeepsInv(s, p, v.slot);
    var s1 := GetTable(s, p, v.slot).value;
    SameProcsSameAbs(s, s1);
    if Mapped(s1, p, v) {
      RemovePageInv(s1, Unlink(s, p, v).value, p, v);
      RemovePageAbs(s1, Unlink(s, p, v).value, p, v);
    } else {
      AbsentPageUnmapped(s1, p, v);
    }
  }

  // ---------------------------------------------------------------- write faults

  /** A frame that its owner may write, or that page_fault is about to give back, has one reference. */
  lemma SoleOwner(s: Memory, p: nat, v: Page)
    requires Shapes(s) && Counted(s) && Mapped(s, p, v)
    requires s.count[Pte(s, p, v).index] == 1
    ensures forall q, w :: Mapped(s, q, w) && Pte(s, q, w).index == Pte(s, p, v).index ==> q == p && w == v
  {
    PresentHasProcess(s, p, v);
    ReferencedIsCounted(s, PageRef(p, v), Pte(s, p, v).index);
    forall q, w: Page | Mapped(s, q, w) && Pte(s, q, w).index == Pte(s, p, v).index
      ensures q == p && w == v
    {
      PresentHasProcess(s, q, w);
      assert PageRef(q, w) in Refs(s, Pte(s, p, v).index);
    }
  }

  lemma GrantWriteStep(s: Memory, s': Memory, p: nat, v: Page)
    requires Shapes(s) && TablesPrivate(s) && VmapExact(s) && Mapped(s, p, v)
    requires s' == SetPte(s, p, v, Pte(s, p, v).(write := true))
    ensures PageStep(s, s', p, v, Pte(s, p, v).(write := true)) && s'.count == s.count
  {
    PresentHasProcess(s, p, v);
    assert s.procs[p].vmap + {v} == s.procs[p].vmap;
    SetPteIsPageStep(s, s', p, v, Pte(s, p, v).(write := true));
  }

  lemma GrantWriteFits(s: Memory, p: nat, v: Page)
    requires Shapes(s) && PagesAligned(s) && Counted(s)
    requires Mapped(s, p, v) && s.count[Pte(s, p, v).index] == 1
    ensures var e := Pte(s, p, v).(write := true);
      EntryFits(s, s.count, p, v, e) && CountsFollow(s, s.count, Pte(s, p, v), e)
  {
    SoleOwner(s, p, v);
  }

  lemma GrantWriteInv(s: Memory, s': Memory, p: nat, v: Page)
    requires Inv(s) && Mapped(s, p, v) && s.count[Pte(s, p, v).index] == 1
    requires s' == SetPte(s, p, v, Pte(s, p, v).(write := true))
    ensures Inv(s')
  {
    GrantWriteStep(s, s', p, v);
    GrantWriteFits(s, p, v);
    PageStepKeepsInv(s, s', p, v, Pte(s, p, v).(write := true));
  }

  lemma GrantWriteAbs(s: Memory, s': Memory, p: nat, v: Page)
    requires Shapes(s) && Counted(s) && Mapped(s, p, v)
    requires PageStep(s, s', p, v, Pte(s, p, v).(write := true)) && s'.frames == SetPte(s, p, v, Pte(s, p, v).(write := true)).frames
    ensures Abs(s') == Abs(s)
  {
    PageStepAbs(s, s', p, v, Pte(s, p, v).(write := true));
    assert PageBytes(s', p, v) == PageBytes(s, p, v);
    SamePageAbs(s, p, v);
  }

  /** The frames change, the tables and the kinds of the frames do not. */
  ghost predicate SameEntries(s: Memory, s': Memory) {
    && s' == s.(frames := s'.frames) && |s'.frames| == |s.frames|
    && (forall q, w :: Pte(s', q, w) == Pte(s, q, w))
    && (forall g :: IsPage(s, g) <==> IsPage(s', g))
    && (forall g :: IsTable(s, g) <==> IsTable(s', g))
  }

  lemma SameEntriesRefs(s: Memory, s': Memory, f: nat)
    requires SameEntries(s, s')
    ensures Refs(s', f) == Refs(s, f)
  {
    forall x
      ensures Names(s', x, f) <==> Names(s, x, f)
    {
      match x
      case TableRef(q, d) => assert Pde(s', q, d) == Pde(s, q, d);
      case PageRef(q, w) =>
    }
  }

  lemma SameEntriesKeepInv(s: Memory, s': Memory)
    requires Inv(s) && SameEntries(s, s')
    ensures Inv(s')
  {
    forall q, d
      ensures Pde(s', q, d) == Pde(s, q, d)
    {}
    forall q, w
      ensures Mapped(s', q, w) == Mapped(s, q, w)
    {}
    forall f | KERNEL_FRAMES <= f < |s'.count|
      ensures s'.count[f] == |Refs(s', f)|
    {
      SameEntriesRefs(s, s', f);
    }
  }

  /** Filling a frame that nobody references changes nothing a process can see. */
  lemma WriteFreeFrame(s: Memory, s': Memory, f: nat)
    requires Shapes(s) && Counted(s) && KERNEL_FRAMES <= f < |s.count| && s.count[f] == 0
    requires s' == s.(frames := s'.frames) && |s'.frames| == |s.frames| && IsPage(s', f)
    requires forall g :: 0 <= g < |s.frames| && g != f ==> s'.frames[g] == s.frames[g]
    ensures SameEntries(s, s') && SameProcs(s, s')
  {
    UnreferencedFrame(s, f);
    forall q, w: Page
      ensures Pte(s', q, w) == Pte(s, q, w)
    {
      assert Pde(s', q, w.slot) == Pde(s, q, w.slot);
    }
  }

  /** Two counters change: frame f is taken, the frame that eo names loses a reference. */
  lemma CountsMove(s: Memory, count: seq<nat>, eo: Entry, f: nat)
    requires forall g :: 0 <= g < |s.count| ==> s.count[g] < 255
    requires forall g :: KERNEL_FRAMES <= g < |s.count| && s.count[g] == 0 ==> IsPage(s, g)
    requires f < |s.count| && s.count[f] == 0 && eo.present && eo.index < |s.count| && s.count[eo.index] > 1
    requires count == s.count[f := 1][eo.index := s.count[eo.index] - 1]
    ensures CountsFollow(s, count, eo, Entry(true, true, f))
    ensures Zeros(count) == Zeros(s.count) - 1
  {
    ZerosUpdate(s.count, f, 1);
    ZerosUpdate(s.count[f := 1], eo.index, s.count[eo.index] - 1);
  }

  /** page_fault's copy of page v, from a memory where the fresh frame f already holds the bytes. */
  function Switch(s: Memory, p: nat, v: Page, f: nat): Memory
    requires f < |s.count| && Pte(s, p, v).index < |s.count| && s.count[Pte(s, p, v).index] > 1
  {
    var i := Pte(s, p, v).index;
    SetPte(s.(count := s.count[f := 1][i := s.count[i] - 1], free := s.free - 1), p, v, Entry(true, true, f))
  }

  lemma SwitchStep(s: Memory, p: nat, v: Page, f: nat)
    requires Shapes(s) && TablesPrivate(s) && VmapExact(s)
    requires Mapped(s, p, v) && s.count[Pte(s, p, v).index] > 1 && f < |s.count|
    ensures PageStep(s, Switch(s, p, v, f), p, v, Entry(true, true, f))
  {
    PresentHasProcess(s, p, v);
    assert s.procs[p].vmap + {v} == s.procs[p].vmap;
    SetPteIsPageStep(s, Switch(s, p, v, f), p, v, Entry(true, true, f));
  }

  lemma SwitchFits(s: Memory, p: nat, v: Page, f: nat)
    requires Shapes(s) && Counted(s) && Balanced(s)
    requires Mapped(s, p, v) && s.count[Pte(s, p, v).index] > 1
    requires IsPage(s, f) && f < |s.count| && s.count[f] == 0
    ensures var s', e := Switch(s, p, v, f), Entry(true, true, f);
      EntryFits(s, s'.count, p, v, e) && CountsFollow(s, s'.count, Pte(s, p, v), e) && Balanced(s')
  {
    UnreferencedFrame(s, f);
    CountsMove(s, Switch(s, p, v, f).count, Pte(s, p, v), f);
  }

  lemma SwitchKeepsInv(s: Memory, p: nat, v: Page, f: nat)
    requires Inv(s) && Mapped(s, p, v) && s.count[Pte(s, p, v).index] > 1
    requires IsPage(s, f) && f < |s.count| && s.count[f] == 0
    ensures Inv(Switch(s, p, v, f))
  {
    SwitchStep(s, p, v, f);
    SwitchFits(s, p, v, f);
    PageStepKeepsInv(s, Switch(s, p, v, f), p, v, Entry(true, true, f));
  }

  lemma SwitchAbs(s: Memory, p: nat, v: Page, f: nat)
    requires Shapes(s) && TablesPrivate(s) && Counted(s) && VmapExact(s)
    requires Mapped(s, p, v) && s.count[Pte(s, p, v).index] > 1
    requires IsPage(s, f) && f < |s.count| && s.frames[f] == s.frames[Pte(s, p, v).index]
    ensures Abs(Switch(s, p, v, f)) == Abs(s)
  {
    var s' := Switch(s, p, v, f);
    SwitchStep(s, p, v, f);
    PageStepAbs(s, s', p, v, Entry(true, true, f));
    assert s'.frames[f] == s.frames[f];
    assert PageBytes(s', p, v) == PageBytes(s, p, v);
    SamePageAbs(s, p, v);
  }

  /** The copy of page_fault: the frame taken first gets the bytes, then the entry moves to it. */
  lemma CopyOnWrite(s: Memory, s0: Memory, p: nat, v: Page, f: nat)
    requires Inv(s) && Mapped(s, p, v) && s.count[Pte(s, p, v).index] > 1
    requires IsPage(s, f) && f < |s.count| && s.count[f] == 0
    requires s0 == s.(frames := s.frames[f := s.frames[Pte(s, p, v).index]])
    ensures Inv(s0) && Mapped(s0, p, v) && Pte(s0, p, v) == Pte(s, p, v) && Abs(s0) == Abs(s)
  {
    WriteFreeFrame(s, s0, f);
    SameEntriesKeepInv(s, s0);
    SameProcsSameAbs(s, s0);
  }

  /** A write fault halts only when a copy is needed and no frame is left: its own assertions hold. */
  lemma WriteFaultHalts(s: Memory, p: nat, v: Page)
    requires Inv(s) && Mapped(s, p, v)
    ensures WriteFault(s, p, v).None? <==> s.count[Pte(s, p, v).index] > 1 && Zeros(s.count) == 0
  {
    PresentHasProcess(s, p, v);
    ReferencedIsCounted(s, PageRef(p, v), Pte(s, p, v).index);
    OutOfMemory(s);
    TakenFrameIsFresh(s);
  }

  lemma GrantWrite(s: Memory, s': Memory, p: nat, v: Page)
    requires Inv(s) && Mapped(s, p, v) && s.count[Pte(s, p, v).index] == 1
    requires s' == SetPte(s, p, v, Pte(s, p, v).(write := true))
    ensures Inv(s') && Pte(s', p, v) == Pte(s, p, v).(write := true) && Abs(s') == Abs(s)
  {
    GrantWriteStep(s, s', p, v);
    GrantWriteInv(s, s', p, v);
    GrantWriteAbs(s, s', p, v);
  }

  lemma SwitchPage(s: Memory, p: nat, v: Page, f: nat)
    requires Inv(s) && Mapped(s, p, v) && s.count[Pte(s, p, v).index] > 1
    requires IsPage(s, f) && f < |s.count| && s.count[f] == 0 && s.frames[f] == s.frames[Pte(s, p, v).index]
    ensures var s' := Switch(s, p, v, f);
      Inv(s') && Pte(s', p, v) == Entry(true, true, f) && Abs(s') == Abs(s)
  {
    SwitchStep(s, p, v, f);
    SwitchKeepsInv(s, p, v, f);
    SwitchAbs(s, p, v, f);
  }

  /** The copying branch is: fill the lowest free frame with the page, then switch to it. */
  lemma CopyBranch(s: Memory, s0: Memory, p: nat, v: Page, f: nat)
    requires Shapes(s) && Mapped(s, p, v) && s.count[Pte(s, p, v).index] > 1
    requires TakeFrame(s).Some? && f == TakeFrame(s).value.1
    requires s0 == s.(frames := s.frames[f := s.frames[Pte(s, p, v).index]])
    requires Pte(s0, p, v) == Pte(s, p, v)
    ensures WriteFault(s, p, v) == Some(Switch(s0, p, v, f))
  {}

  lemma CopyKeepsInv(s: Memory, p: nat, v: Page)
    requires Inv(s) && Mapped(s, p, v) && TakeFrame(s).Some? && s.count[Pte(s, p, v).index] > 1
    ensures WriteFault(s, p, v).Some?
    ensures var s' := WriteFault(s, p, v).value;
      Inv(s') && Pte(s', p, v) == Entry(true, true, TakeFrame(s).value.1) && Abs(s') == Abs(s)
  {
    TakenFrameIsFresh(s);
    var f := TakeFrame(s).value.1;
    var s0 := s.(frames := s.frames[f := s.frames[Pte(s, p, v).index]]);
    CopyOnWrite(s, s0, p, v, f);
    CopyBranch(s, s0, p, v, f);
    SwitchPage(s0, p, v, f);
  }

  /** After a write fault the page is the process's own and writable, and nobody's bytes changed. */
  lemma WriteFaultKeepsInv(s: Memory, p: nat, v: Page)
    requires Inv(s) && Mapped(s, p, v) && WriteFault(s, p, v).Some?
    ensures var s' := WriteFault(s, p, v).value;
      Inv(s') && Mapped(s', p, v) && Pte(s', p, v).write && Abs(s') == Abs(s)
  {
    if s.count[Pte(s, p, v).index] == 1 {
      GrantWrite(s, WriteFault(s, p, v).value, p, v);
    } else {
      CopyKeepsInv(s, p, v);
    }
  }

  // ---------------------------------------------------------------- user stores

  /** A store by user code through a present, writable entry. */
  function Store(s: Memory, p: nat, v: Page, off: nat, b: Byte): Memory {
    var f := Pte(s, p, v).index;
    if IsPage(s, f) && off < |s.frames[f].bytes| then
      s.(frames := s.frames[f := Data(s.frames[f].bytes[off := b])])
    else s
  }

  lemma StoreSameEntries(s: Memory, p: nat, v: Page, off: nat, b: Byte)
    requires Shapes(s)
    ensures SameEntries(s, Store(s, p, v, off, b))
  {
    var s' := Store(s, p, v, off, b);
    forall q, w: Page
      ensures Pte(s', q, w) == Pte(s, q, w)
    {
      assert Pde(s', q, w.slot) == Pde(s, q, w.slot);
    }
  }

  lemma StoreKeepsInv(s: Memory, p: nat, v: Page, off: nat, b: Byte)
    requires Inv(s)
    ensures Inv(Store(s, p, v, off, b))
  {
    StoreSameEntries(s, p, v, off, b);
    SameEntriesKeepInv(s, Store(s, p, v, off, b));
  }

  lemma StorePages(s: Memory, p: nat, v: Page, off: nat, b: Byte, q: nat)
    requires Shapes(s) && Counted(s) && Mapped(s, p, v) && s.count[Pte(s, p, v).index] == 1 && off < PAGE_SIZE
    ensures Pages(Store(s, p, v, off, b), q) ==
      if q == p then Pages(s, p)[v := PageBytes(s, p, v)[off := b]] else Pages(s, q)
  {
    var s' := Store(s, p, v, off, b);
    StoreSameEntries(s, p, v, off, b);
    assert forall w :: Mapped(s', q, w) == Mapped(s, q, w);
    StoreBytes(s, p, v, off, b);
    PagesFromMapped(s, s', p, v, true, q);
  }

  lemma StoreBytes(s: Memory, p: nat, v: Page, off: nat, b: Byte)
    requires Shapes(s) && Counted(s) && Mapped(s, p, v) && s.count[Pte(s, p, v).index] == 1 && off < PAGE_SIZE
    ensures PageBytes(Store(s, p, v, off, b), p, v) == PageBytes(s, p, v)[off := b]
    ensures forall q, w :: Mapped(s, q, w) && (q != p || w != v) ==>
      PageBytes(Store(s, p, v, off, b), q, w) == PageBytes(s, q, w)
  {
    StoreSameEntries(s, p, v, off, b);
    SoleOwner(s, p, v);
  }

  /** Isolation: a store through a writable entry reaches the writer's page and no other. */
  lemma StoreAbs(s: Memory, p: nat, v: Page, off: nat, b: Byte)
    requires Shapes(s) && Counted(s) && SoleWriter(s) && Mapped(s, p, v) && Pte(s, p, v).write && off < PAGE_SIZE
    ensures p in s.procs && |PageBytes(s, p, v)| == PAGE_SIZE
    ensures Abs(Store(s, p, v, off, b)) == WithPage(Abs(s), p, v, PageBytes(s, p, v)[off := b])
  {
    PresentHasProcess(s, p, v);
    forall q
      ensures Pages(Store(s, p, v, off, b), q) ==
        if q == p then Pages(s, p)[v := PageBytes(s, p, v)[off := b]] else Pages(s, q)
    {
      StorePages(s, p, v, off, b, q);
    }
    AbsFromPages(s, Store(s, p, v, off, b), p, Pages(s, p)[v := PageBytes(s, p, v)[off := b]]);
  }
}
