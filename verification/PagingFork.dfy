/** Fork: the round of copy_pde for one directory slot, and the loop over all of them.

    The invariant already holds after every round, with the child owning the slots copied so far. */
module PagingFork {
  import opened Basics
  import opened PagingSpec
  import opened PagingInvariant
  import opened PagingSteps

  // ---------------------------------------------------------------- sharing one table's pages

  /** Entry i of table t names frame f. */
  predicate EntryNames(t: seq<Entry>, i: nat, f: nat) {
    i < |t| && t[i].present && t[i].index == f
  }

  /** No two entries of the table name the same frame. */
  ghost predicate DistinctFrames(t: seq<Entry>) {
    forall i, j, f :: EntryNames(t, i, f) && EntryNames(t, j, f) ==> i == j
  }

  ghost function Shared(t: seq<Entry>, n: nat, f: nat): nat {
    if exists i: nat :: i < n && EntryNames(t, i, f) then 1 else 0
  }

  lemma SharedGrows(t: seq<Entry>, n: nat, f: nat)
    requires 0 < n <= |t| && DistinctFrames(t)
    ensures Shared(t, n, f) == Shared(t, n - 1, f) + NamesFrame(t[n - 1], f)
  {
    assert NamesFrame(t[n - 1], f) == 1 <==> EntryNames(t, n - 1, f);
    if i: nat :| i < n && EntryNames(t, i, f) {
      assert i == n - 1 || Shared(t, n - 1, f) == 1;
    }
  }

  /** The inner loop adds one reference to every frame the table names, and halts exactly when one
      of them was unreferenced or has 254 references already. */
  lemma {:induction false} ShareCounts(count: seq<nat>, t: seq<Entry>, n: nat)
    requires n <= |t| && DistinctFrames(t)
    requires forall i :: 0 <= i < |t| && t[i].present ==> t[i].index < |count|
    ensures Share(count, t, n).None? <==>
      exists i :: 0 <= i < n && t[i].present && !(0 < count[t[i].index] < 254)
    ensures Share(count, t, n).Some? ==>
      forall f :: 0 <= f < |count| ==> Share(count, t, n).value[f] == count[f] + Shared(t, n, f)
  {
    if n > 0 {
      ShareCounts(count, t, n - 1);
      var e := t[n - 1];
      if Share(count, t, n - 1).Some? {
        var c := Share(count, t, n - 1).value;
        if e.present {
          SharedGrows(t, n, e.index);
          assert c[e.index] == count[e.index];
        }
        forall f | 0 <= f < |count|
          ensures Shared(t, n, f) == Shared(t, n - 1, f) + NamesFrame(e, f)
        {
          SharedGrows(t, n, f);
        }
      }
    }
  }

  // ---------------------------------------------------------------- the effect of one round

  /** s' is s after process c received a read-only copy, in frame g, of p's table for slot d, whose
      own entries turned read-only as well. */
  ghost predicate SlotCopied(s: Memory, s': Memory, p: nat, c: nat, d: nat, g: nat) {
    && p in s.procs && c in s.procs && p != c && UserSlot(d)
    && Pde(s, p, d).present && IsTable(s, Pde(s, p, d).index)
    && s'.procs.Keys == s.procs.Keys && s'.start == s.start
    && |s'.count| == |s.count| == |s.frames| == |s'.frames| && KERNEL_FRAMES <= g < |s.count|
    && (forall q :: q in s.procs ==> |s'.procs[q].pde| == |s.procs[q].pde| && s'.procs[q].brk == s.procs[q].brk)
    && (forall q :: q in s.procs && q != c ==> s'.procs[q].vmap == s.procs[q].vmap)
    && s'.procs[c].vmap == s.procs[c].vmap + SlotPages(s.procs[p].vmap, d)
    && (forall q, x :: Pde(s', q, x) == if q == c && x == d then Pde(s, p, d).(index := g) else Pde(s, q, x))
    && (forall f :: IsTable(s', f) <==> f == g || IsTable(s, f))
    && (forall f :: f != g ==> (IsPage(s', f) <==> IsPage(s, f)))
    && (forall f: nat :: IsPage(s, f) && f != g ==> s'.frames[f] == s.frames[f])
    && (forall q, w :: Pte(s', q, w) ==
          if (q == p || q == c) && w.slot == d then Demoted(Pte(s, p, w)) else Pte(s, q, w))
  }

  function Demoted(e: Entry): Entry {
    if e.present then e.(write := false) else e
  }

  ghost predicate CountsShared(s: Memory, s': Memory, t: seq<Entry>, g: nat) {
    && |s'.count| == |s.count| && g < |s.count| && s.count[g] == 0 && s'.count[g] == 1
    && (forall f :: 0 <= f < |s.count| && f != g ==> s'.count[f] == s.count[f] + Shared(t, |t|, f))
    && (forall f :: 0 <= f < |s.count| ==> s'.count[f] < 255)
  }

  lemma TableDistinct(s: Memory, p: nat, d: nat)
    requires Shapes(s) && PagesAligned(s) && UserSlot(d) && Pde(s, p, d).present
    ensures IsTable(s, Pde(s, p, d).index)
    ensures var t := s.frames[Pde(s, p, d).index].entries;
      && (forall i :: 0 <= i < ENTRIES ==> t[i] == Pte(s, p, Page(d, i)))
      && DistinctFrames(t)
      && (forall i :: 0 <= i < ENTRIES && t[i].present ==> IsPage(s, t[i].index))
  {
    var t := s.frames[Pde(s, p, d).index].entries;
    forall i, j, f | EntryNames(t, i, f) && EntryNames(t, j, f)
      ensures i == j
    {
      assert Mapped(s, p, Page(d, i)) && Mapped(s, p, Page(d, j));
    }
    forall i: nat | i < ENTRIES && t[i].present
      ensures IsPage(s, t[i].index)
    {
      assert Mapped(s, p, Page(d, i));
    }
  }

  /** The counters after a round. */
  lemma RoundCounts(s: Memory, count: seq<nat>, t: seq<Entry>, g: nat)
    requires forall f :: 0 <= f < |s.count| ==> s.count[f] < 255
    requires DistinctFrames(t) && forall i :: 0 <= i < |t| && t[i].present ==> t[i].index < |s.count|
    requires Share(s.count, t, |t|) == Some(count) && g < |count| && count[g] == 0
    ensures CountsShared(s, s.(count := count[g := 1]), t, g)
    ensures Zeros(count[g := 1]) == Zeros(s.count) - 1
  {
    hide Share, Zeros, Shared, LowestUnused;
    ShareCounts(s.count, t, |t|);
    ShareKeepsZeros(s.count, t, |t|);
    ZerosUpdate(count, g, 1);
    SharedBelowTop(s.count, count, t);
    hide DistinctFrames;
  }

  /** Sharing succeeds only where no counter reaches its top. */
  lemma SharedBelowTop(before: seq<nat>, count: seq<nat>, t: seq<Entry>)
    requires forall f :: 0 <= f < |before| ==> before[f] < 255
    requires DistinctFrames(t) && forall i :: 0 <= i < |t| && t[i].present ==> t[i].index < |before|
    requires Share(before, t, |t|) == Some(count)
    ensures forall f :: 0 <= f < |count| ==> count[f] < 255
  {
    ShareCounts(before, t, |t|);
    hide Share;
    forall f | 0 <= f < |count|
      ensures count[f] < 255
    {
      if i: nat :| i < |t| && EntryNames(t, i, f) {
        assert before[t[i].index] < 254;
      }
    }
  }

  lemma {:induction false} ShareKeepsZeros(count: seq<nat>, t: seq<Entry>, n: nat)
    requires n <= |t| && Share(count, t, n).Some?
    ensures Zeros(Share(count, t, n).value) == Zeros(count)
  {
    if n > 0 {
      ShareKeepsZeros(count, t, n - 1);
      var c, e := Share(count, t, n - 1).value, t[n - 1];
      if e.present {
        ZerosUpdate(c, e.index, c[e.index] + 1);
      }
    }
  }

  lemma RoundCopiesSlot(s: Memory, p: nat, c: nat, d: nat, count: seq<nat>, g: nat)
    requires Shapes(s) && TablesPrivate(s) && Counted(s)
    requires p in s.procs && c in s.procs && p != c && UserSlot(d)
    requires Pde(s, p, d).present && !Pde(s, c, d).present
    requires KERNEL_FRAMES <= g < |count| == |s.count| && s.count[g] == 0
    ensures SlotCopied(s, Round(s, p, c, d, count, g), p, c, d, g)
  {
    var s' := Round(s, p, c, d, count, g);
    var e := Pde(s, p, d);
    UnreferencedFrame(s, g);
    assert e.index != g;
    forall q: nat, x: nat
      ensures Pde(s', q, x) == if q == c && x == d then e.(index := g) else Pde(s, q, x)
    {}
    forall q: nat, w: Page
      ensures Pte(s', q, w) == if (q == p || q == c) && w.slot == d then Demoted(Pte(s, p, w)) else Pte(s, q, w)
    {
      assert Pde(s', q, w.slot) == if q == c && w.slot == d then e.(index := g) else Pde(s, q, w.slot);
      if q != p && q != c && Pde(s, q, w.slot).present {
        assert Pde(s, q, w.slot).index != e.index;
      }
    }
  }

  // ---------------------------------------------------------------- one round keeps the invariant

  lemma RoundMapped(s: Memory, s': Memory, p: nat, c: nat, d: nat, g: nat)
    requires SlotCopied(s, s', p, c, d, g)
    ensures forall q, w :: Mapped(s', q, w) <==> if q == c && w.slot == d then Mapped(s, p, w) else Mapped(s, q, w)
    ensures forall q, w :: Mapped(s', q, w) ==>
      Pte(s', q, w).index == Pte(s, if q == c && w.slot == d then p else q, w).index
  {}

  lemma RoundShapes(s: Memory, s': Memory, p: nat, c: nat, d: nat, g: nat, t: seq<Entry>)
    requires Shapes(s) && TablesPrivate(s) && Counted(s)
    requires SlotCopied(s, s', p, c, d, g) && CountsShared(s, s', t, g) && !Pde(s, c, d).present
    ensures Shapes(s') && TablesPrivate(s')
  {
    UnreferencedFrame(s, g);
    RoundMapped(s, s', p, c, d, g);
    forall f | KERNEL_FRAMES <= f < |s'.count| && s'.count[f] == 0
      ensures IsPage(s', f)
    {
      assert s.count[f] == 0;
    }
    forall q, w: Page | Mapped(s', q, w)
      ensures IsPage(s', Pte(s', q, w).index)
    {
      assert Mapped(s, if q == c && w.slot == d then p else q, w);
    }
  }

  /** Frame g is named by the child's directory entry only. */
  lemma RoundTableRefs(s: Memory, s': Memory, p: nat, c: nat, d: nat, g: nat)
    requires Shapes(s) && Counted(s)
    requires SlotCopied(s, s', p, c, d, g) && !Pde(s, c, d).present && s.count[g] == 0
    ensures |Refs(s', g)| == 1
  {
    UnreferencedFrame(s, g);
    RoundMapped(s, s', p, c, d, g);
    var after := Refs(s', g);
    assert forall x :: x in after ==> x == TableRef(c, d);
    assert TableRef(c, d) in after;
    assert after == {TableRef(c, d)};
  }

  lemma RoundRefs(s: Memory, s': Memory, p: nat, c: nat, d: nat, g: nat, f: nat)
    requires Shapes(s) && TablesPrivate(s) && PagesAligned(s) && Counted(s)
    requires SlotCopied(s, s', p, c, d, g) && !Pde(s, c, d).present && s.count[g] == 0
    requires KERNEL_FRAMES <= f < |s.count|
    ensures f == g ==> |Refs(s', f)| == 1
    ensures f != g ==> |Refs(s', f)| == |Refs(s, f)| + Shared(s.frames[Pde(s, p, d).index].entries, ENTRIES, f)
  {
    TableDistinct(s, p, d);
    var t := s.frames[Pde(s, p, d).index].entries;
    RoundMapped(s, s', p, c, d, g);
    var before, after := Refs(s, f), Refs(s', f);
    if f == g {
      RoundTableRefs(s, s', p, c, d, g);
    } else if i: nat :| i < ENTRIES && EntryNames(t, i, f) {
      var r := PageRef(c, Page(d, i));
      assert r !in before;
      forall x
        ensures x in after <==> x == r || x in before
      {
        RefAfterRound(s, s', p, c, d, g, f, t, x);
      }
      assert after == before + {r};
    } else {
      forall x
        ensures x in after <==> x in before
      {
        RefAfterRound(s, s', p, c, d, g, f, t, x);
      }
      assert after == before;
    }
  }

  /** Which places name frame f after the round: those that did, and the child's copy of an entry
      that does. */
  lemma RefAfterRound(s: Memory, s': Memory, p: nat, c: nat, d: nat, g: nat, f: nat, t: seq<Entry>, x: Ref)
    requires SlotCopied(s, s', p, c, d, g) && !Pde(s, c, d).present && f != g
    requires |t| == ENTRIES && forall i :: 0 <= i < ENTRIES ==> t[i] == Pte(s, p, Page(d, i))
    ensures x in Refs(s', f) <==>
      x in Refs(s, f) || (x.PageRef? && x.pid == c && x.page.slot == d && EntryNames(t, x.page.index, f))
  {
    match x
    case TableRef(q, e) => assert Pde(s', q, e) == if q == c && e == d then Pde(s, p, d).(index := g) else Pde(s, q, e);
    case PageRef(q, w) =>
      if w.slot == d && w.index < ENTRIES {
        assert w == Page(d, w.index);
        assert t[w.index] == Pte(s, p, w);
      }
  }

  lemma RoundCounted(s: Memory, s': Memory, p: nat, c: nat, d: nat, g: nat)
    requires Shapes(s) && TablesPrivate(s) && PagesAligned(s) && Counted(s)
    requires SlotCopied(s, s', p, c, d, g) && !Pde(s, c, d).present
    requires CountsShared(s, s', s.frames[Pde(s, p, d).index].entries, g)
    ensures Counted(s')
  {
    forall f | KERNEL_FRAMES <= f < |s'.count|
      ensures s'.count[f] == |Refs(s', f)|
    {
      RoundRefs(s, s', p, c, d, g, f);
    }
  }

  lemma RoundSharing(s: Memory, s': Memory, p: nat, c: nat, d: nat, g: nat)
    requires Shapes(s) && PagesAligned(s) && VmapExact(s)
    requires SlotCopied(s, s', p, c, d, g) && !Pde(s, c, d).present
    ensures PagesAligned(s') && VmapExact(s')
  {
    RoundMapped(s, s', p, c, d, g);
  }

  lemma RoundSoleWriter(s: Memory, s': Memory, p: nat, c: nat, d: nat, g: nat)
    requires Shapes(s) && PagesAligned(s) && Counted(s) && SoleWriter(s)
    requires SlotCopied(s, s', p, c, d, g) && !Pde(s, c, d).present
    requires CountsShared(s, s', s.frames[Pde(s, p, d).index].entries, g)
    ensures SoleWriter(s')
  {
    RoundMapped(s, s', p, c, d, g);
    TableDistinct(s, p, d);
    var t := s.frames[Pde(s, p, d).index].entries;
    forall q: nat, w: Page | Mapped(s', q, w) && Pte(s', q, w).write
      ensures Pte(s', q, w).index < |s'.count| && s'.count[Pte(s', q, w).index] == 1
    {
      assert Mapped(s, q, w) && Pte(s', q, w) == Pte(s, q, w);
      assert !((q == p || q == c) && w.slot == d);
      SoleOwner(s, q, w);
      var f := Pte(s, q, w).index;
      forall i: nat | i < |t|
        ensures !EntryNames(t, i, f)
      {
        assert EntryNames(t, i, f) ==> Mapped(s, p, Page(d, i));
      }
    }
  }

  /** copy_pde's round for slot d, from a state where the child has no table there yet. */
  lemma RoundKeepsInv(s: Memory, s': Memory, p: nat, c: nat, d: nat, g: nat)
    requires Inv(s) && SlotCopied(s, s', p, c, d, g) && !Pde(s, c, d).present
    requires CountsShared(s, s', s.frames[Pde(s, p, d).index].entries, g) && Balanced(s')
    ensures Inv(s')
  {
    RoundShapes(s, s', p, c, d, g, s.frames[Pde(s, p, d).index].entries);
    RoundCounted(s, s', p, c, d, g);
    RoundSharing(s, s', p, c, d, g);
    RoundSoleWriter(s, s', p, c, d, g);
  }

  lemma RoundPages(s: Memory, s': Memory, p: nat, c: nat, d: nat, g: nat, q: nat)
    requires Shapes(s) && Counted(s) && g < |s.count| && s.count[g] == 0
    requires SlotCopied(s, s', p, c, d, g) && !Pde(s, c, d).present
    ensures Pages(s', q) == if q == c then Pages(s, c) + UnderSlot(Pages(s, p), d) else Pages(s, q)
  {
    RoundMapped(s, s', p, c, d, g);
    RoundBytes(s, s', p, c, d, g);
    forall w: Page
      ensures w.slot == d ==> !Mapped(s, c, w)
    {}
    PagesFromRound(s, s', p, c, d, q);
  }

  lemma PagesFromRound(s: Memory, s': Memory, p: nat, c: nat, d: nat, q: nat)
    requires forall w :: Mapped(s', q, w) <==> if q == c && w.slot == d then Mapped(s, p, w) else Mapped(s, q, w)
    requires forall w: Page :: w.slot == d ==> !Mapped(s, c, w)
    requires forall w :: Mapped(s', q, w) ==> PageBytes(s', q, w) == PageBytes(s, if q == c && w.slot == d then p else q, w)
    ensures Pages(s', q) == if q == c then Pages(s, c) + UnderSlot(Pages(s, p), d) else Pages(s, q)
  {}

  lemma RoundBytes(s: Memory, s': Memory, p: nat, c: nat, d: nat, g: nat)
    requires Shapes(s) && Counted(s) && g < |s.count| && s.count[g] == 0
    requires SlotCopied(s, s', p, c, d, g)
    ensures forall q, w :: Mapped(s', q, w) ==>
      PageBytes(s', q, w) == PageBytes(s, if q == c && w.slot == d then p else q, w)
  {
    RoundMapped(s, s', p, c, d, g);
    UnreferencedFrame(s, g);
    forall q: nat, w: Page | Mapped(s', q, w)
      ensures PageBytes(s', q, w) == PageBytes(s, if q == c && w.slot == d then p else q, w)
    {
      assert Mapped(s, if q == c && w.slot == d then p else q, w);
    }
  }

  /** The part of an address space under directory slot d. */
  ghost function UnderSlot(m: map<Page, seq<Byte>>, d: nat): map<Page, seq<Byte>> {
    map v | v in m && v.slot == d :: m[v]
  }

  ghost function BelowSlot(m: map<Page, seq<Byte>>, d: nat): map<Page, seq<Byte>> {
    map v | v in m && v.slot < d :: m[v]
  }

  // ---------------------------------------------------------------- the whole copy

  /** How far the copy of p into c has come, starting from s0, when the slots below d are done. */
  ghost predicate Copying(s0: Memory, s: Memory, p: nat, c: nat, d: nat) {
    && Inv(s) && p in s.procs && c in s.procs && p != c
    && s.procs.Keys == s0.procs.Keys
    && (forall x :: d <= x ==> !Pde(s, c, x).present)
    && (forall q :: q in s.procs ==> s.procs[q].brk == s0.procs[q].brk)
    && (forall q :: q != c ==> Pages(s, q) == Pages(s0, q))
    && (forall q, x :: q != c ==> Pde(s, q, x) == Pde(s0, q, x))
    && Pages(s, c) == BelowSlot(Pages(s0, p), d)
  }

  /** The child's bitmap of a finished copy is its parent's. */
  lemma CopiedVmap(s: Memory, s': Memory, p: nat, c: nat)
    requires VmapExact(s) && VmapExact(s') && p in s.procs && c in s'.procs
    requires Pages(s', c) == Pages(s, p)
    ensures s'.procs[c].vmap == s.procs[p].vmap
  {
    forall v
      ensures v in s'.procs[c].vmap <==> v in s.procs[p].vmap
    {
      assert v in s'.procs[c].vmap <==> v in Pages(s', c);
      assert v in s.procs[p].vmap <==> v in Pages(s, p);
    }
  }

  lemma ForkSlotStep(s0: Memory, s: Memory, s': Memory, p: nat, c: nat, d: nat)
    requires Copying(s0, s, p, c, d) && UserSlot(d) && ForkSlot(s, p, c, d) == Some(s')
    ensures Copying(s0, s', p, c, d + 1)
  {
    if Pde(s, p, d).present {
      var g := RoundHappens(s, s', p, c, d);
      RoundKeepsInv(s, s', p, c, d, g);
      RoundContents(s0, s, s', p, c, d, g);
    } else {
      NothingUnderSlot(s, p, d);
      BelowNext(Pages(s0, p), d);
    }
  }

  lemma RoundHappens(s: Memory, s': Memory, p: nat, c: nat, d: nat) returns (g: nat)
    requires Inv(s) && p in s.procs && c in s.procs && p != c && UserSlot(d)
    requires Pde(s, p, d).present && !Pde(s, c, d).present && ForkSlot(s, p, c, d) == Some(s')
    ensures SlotCopied(s, s', p, c, d, g) && Balanced(s') && Zeros(s'.count) == Zeros(s.count) - 1
    ensures g < |s.count| && s.count[g] == 0 && CountsShared(s, s', s.frames[Pde(s, p, d).index].entries, g)
  {
    TableDistinct(s, p, d);
    var t := s.frames[Pde(s, p, d).index].entries;
    var count := Share(s.count, t, ENTRIES).value;
    g := LowestUnused(count, s.start).value;
    ShareCounts(s.count, t, ENTRIES);
    RoundCounts(s, count, t, g);
    RoundCopiesSlot(s, p, c, d, count, g);
  }

  lemma NothingUnderSlot(s: Memory, p: nat, d: nat)
    requires !Pde(s, p, d).present
    ensures UnderSlot(Pages(s, p), d) == map[]
  {
    forall v | v in Pages(s, p)
      ensures v.slot != d
    {
      assert Mapped(s, p, v);
    }
  }

  lemma BelowNext(m: map<Page, seq<Byte>>, d: nat)
    ensures BelowSlot(m, d + 1) == BelowSlot(m, d) + UnderSlot(m, d)
  {}

  lemma RoundContents(s0: Memory, s: Memory, s': Memory, p: nat, c: nat, d: nat, g: nat)
    requires Copying(s0, s, p, c, d) && SlotCopied(s, s', p, c, d, g) && Inv(s') && s.count[g] == 0
    ensures Copying(s0, s', p, c, d + 1)
  {
    forall q
      ensures Pages(s', q) == if q == c then Pages(s, c) + UnderSlot(Pages(s, p), d) else Pages(s, q)
    {
      RoundPages(s, s', p, c, d, g, q);
    }
    BelowNext(Pages(s0, p), d);
  }

  lemma {:induction false} ForkSlotsKeep(s0: Memory, s: Memory, s': Memory, p: nat, c: nat, d: nat)
    requires Copying(s0, s, p, c, d) && FIRST_SLOT <= d <= SELF_SLOT
    requires ForkSlots(s, p, c, d) == Some(s')
    ensures Copying(s0, s', p, c, SELF_SLOT)
    decreases SELF_SLOT - d
  {
    if d < SELF_SLOT {
      var s1 := ForkSlot(s, p, c, d).value;
      ForkSlotStep(s0, s, s1, p, c, d);
      ForkSlotsKeep(s0, s1, s', p, c, d + 1);
    }
  }

  // ---------------------------------------------------------------- processes without pages

  lemma AddEmptyProc(s: Memory, s': Memory, c: nat, brk: nat)
    requires Inv(s) && c !in s.procs && s' == s.(procs := s.procs[c := Proc(NoTables(), {}, brk)])
    ensures Inv(s') && forall x :: !Pde(s', c, x).present
  {
    EmptyProcTables(s, s', c, brk);
    EmptyProcCounted(s, s', c);
  }

  lemma EmptyProcAbs(s: Memory, s': Memory, c: nat, brk: nat)
    requires c !in s.procs && s' == s.(procs := s.procs[c := Proc(NoTables(), {}, brk)])
    ensures Abs(s') == Abs(s)[c := EagerProc(map[], brk)]
    ensures forall q :: Pages(s', q) == Pages(s, q)
  {
    EmptyProcTables(s, s', c, brk);
    forall q
      ensures Pages(s', q) == Pages(s, q)
    {
      assert forall w :: Mapped(s', q, w) <==> Mapped(s, q, w);
    }
    assert Pages(s, c) == map[] by {
      assert forall w :: !Mapped(s, c, w);
    }
  }

  lemma EmptyProcTables(s: Memory, s': Memory, c: nat, brk: nat)
    requires c !in s.procs && s' == s.(procs := s.procs[c := Proc(NoTables(), {}, brk)])
    ensures forall q, x :: Pde(s', q, x) == Pde(s, q, x)
    ensures forall q, w :: Pte(s', q, w) == Pte(s, q, w)
  {
    forall q: nat, x: nat
      ensures Pde(s', q, x) == Pde(s, q, x)
    {}
    forall q: nat, w: Page
      ensures Pte(s', q, w) == Pte(s, q, w)
    {
      assert Pde(s', q, w.slot) == Pde(s, q, w.slot);
    }
  }

  lemma EmptyProcCounted(s: Memory, s': Memory, c: nat)
    requires Counted(s) && s'.count == s.count && s'.procs.Keys == s.procs.Keys + {c} && c !in s.procs
    requires forall q, x :: Pde(s', q, x) == Pde(s, q, x)
    requires forall q, w :: Pte(s', q, w) == Pte(s, q, w)
    ensures Counted(s')
  {
    forall f | KERNEL_FRAMES <= f < |s'.count|
      ensures Refs(s', f) == Refs(s, f)
    {
      forall x
        ensures x in Refs(s', f) <==> x in Refs(s, f)
      {
        match x
        case TableRef(q, d) => assert Pde(s', q, d) == Pde(s, q, d);
        case PageRef(q, w) => assert Pte(s', q, w) == Pte(s, q, w);
      }
    }
  }

  // ---------------------------------------------------------------- fork

  ghost function ForkStart(s: Memory, p: nat, c: nat): Memory
    requires p in s.procs
  {
    s.(procs := s.procs[c := Proc(NoTables(), {}, s.procs[p].brk)])
  }

  lemma ForkCopies(s: Memory, s': Memory, p: nat, c: nat)
    requires Inv(s) && p in s.procs && c !in s.procs && Fork(s, p, c) == Some(s')
    ensures Copying(ForkStart(s, p, c), s', p, c, SELF_SLOT)
  {
    AddEmptyProc(s, ForkStart(s, p, c), c, s.procs[p].brk);
    StartCopying(ForkStart(s, p, c), p, c);
    ForkSlotsKeep(ForkStart(s, p, c), ForkStart(s, p, c), s', p, c, FIRST_SLOT);
  }

  /** Fork on shared frames is fork by copying: the child gets its parent's bytes at every page, no
      other process notices, and the child's bitmap is the parent's. */
  lemma ForkKeepsInv(s: Memory, s': Memory, p: nat, c: nat)
    requires Inv(s) && p in s.procs && c !in s.procs && Fork(s, p, c) == Some(s')
    ensures Inv(s') && Abs(s') == Abs(s)[c := Abs(s)[p]]
    ensures c in s'.procs && s'.procs[c].vmap == s.procs[p].vmap
  {
    ForkCopies(s, s', p, c);
    EmptyProcAbs(s, ForkStart(s, p, c), c, s.procs[p].brk);
    CopiedAbs(s, ForkStart(s, p, c), s', p, c);
    CopiedVmap(s, s', p, c);
  }

  lemma CopiedAbs(s: Memory, s0: Memory, s': Memory, p: nat, c: nat)
    requires p in s.procs && c in s0.procs && s'.procs.Keys == s0.procs.Keys
    requires forall q :: q in s0.procs ==> s'.procs[q].brk == s0.procs[q].brk
    requires forall q :: q != c ==> Pages(s', q) == Pages(s0, q)
    requires Pages(s', c) == BelowSlot(Pages(s0, p), SELF_SLOT)
    requires Abs(s0) == Abs(s)[c := EagerProc(map[], s.procs[p].brk)] && Pages(s0, p) == Pages(s, p)
    ensures Abs(s') == Abs(s)[c := Abs(s)[p]] && Pages(s', c) == Pages(s, p)
  {
    hide Abs, Pages, BelowSlot;
    AllBelowSelf(s0, p);
    CopiedProcs(s0, s', c);
    AbsAt(s, p);
  }

  lemma AbsAt(s: Memory, p: nat)
    requires p in s.procs
    ensures p in Abs(s) && Abs(s)[p] == EagerProc(Pages(s, p), s.procs[p].brk)
  {}

  lemma AllBelowSelf(s: Memory, p: nat)
    ensures BelowSlot(Pages(s, p), SELF_SLOT) == Pages(s, p)
  {
    forall w | w in Pages(s, p)
      ensures w.slot < SELF_SLOT
    {
      assert UserPage(w);
    }
  }

  lemma CopiedProcs(s0: Memory, s': Memory, c: nat)
    requires s'.procs.Keys == s0.procs.Keys && c in s0.procs
    requires forall q :: q in s0.procs ==> s'.procs[q].brk == s0.procs[q].brk
    requires forall q :: q != c ==> Pages(s', q) == Pages(s0, q)
    ensures Abs(s') == Abs(s0)[c := EagerProc(Pages(s', c), s0.procs[c].brk)]
    ensures Abs(s0)[c].brk == s0.procs[c].brk
  {}

  lemma StartCopying(s0: Memory, p: nat, c: nat)
    requires Inv(s0) && p in s0.procs && c in s0.procs && p != c
    requires forall x :: !Pde(s0, c, x).present
    ensures Copying(s0, s0, p, c, FIRST_SLOT)
  {
    assert forall w :: !Mapped(s0, c, w);
    forall w
      ensures w !in BelowSlot(Pages(s0, p), FIRST_SLOT)
    {
      assert w in Pages(s0, p) ==> UserPage(w);
    }
  }

  // ---------------------------------------------------------------- when fork halts

  /** The page tables a process still has to copy from slot d on. */
  ghost function Tables(s: Memory, p: nat, d: nat): nat
    requires d <= SELF_SLOT
    decreases SELF_SLOT - d
  {
    if d == SELF_SLOT then 0 else Tables(s, p, d + 1) + if Pde(s, p, d).present then 1 else 0
  }

  /** Some page of p under slot d or later sits in a frame with 254 references. */
  ghost predicate Crowded(s: Memory, p: nat, d: nat) {
    exists v :: Mapped(s, p, v) && v.slot >= d && Pte(s, p, v).index < |s.count| && s.count[Pte(s, p, v).index] >= 254
  }

  ghost predicate CrowdedSlot(s: Memory, p: nat, d: nat) {
    exists i: nat :: i < ENTRIES && Mapped(s, p, Page(d, i)) && Pte(s, p, Page(d, i)).index < |s.count|
      && s.count[Pte(s, p, Page(d, i)).index] >= 254
  }

  lemma {:induction false} TablesSame(s: Memory, s': Memory, p: nat, d: nat)
    requires d <= SELF_SLOT && forall x :: Pde(s', p, x).present == Pde(s, p, x).present
    ensures Tables(s', p, d) == Tables(s, p, d)
    decreases SELF_SLOT - d
  {
    if d < SELF_SLOT {
      TablesSame(s, s', p, d + 1);
    }
  }

  lemma ShareHalts(s: Memory, p: nat, d: nat)
    requires Shapes(s) && PagesAligned(s) && Counted(s) && p in s.procs && UserSlot(d) && Pde(s, p, d).present
    ensures IsTable(s, Pde(s, p, d).index)
    ensures Share(s.count, s.frames[Pde(s, p, d).index].entries, ENTRIES).None? <==> CrowdedSlot(s, p, d)
  {
    TableDistinct(s, p, d);
    var t := s.frames[Pde(s, p, d).index].entries;
    ShareCounts(s.count, t, ENTRIES);
    forall i: nat | i < ENTRIES && t[i].present
      ensures t[i] == Pte(s, p, Page(d, i)) && Mapped(s, p, Page(d, i)) && s.count[t[i].index] > 0
    {
      assert t[i] == Pte(s, p, Page(d, i));
      ReferencedIsCounted(s, PageRef(p, Page(d, i)), t[i].index);
    }
    if Share(s.count, t, ENTRIES).None? {
      var i :| 0 <= i < ENTRIES && t[i].present && !(0 < s.count[t[i].index] < 254);
      assert Mapped(s, p, Page(d, i));
    }
  }

  lemma SlotHalts(s: Memory, p: nat, c: nat, d: nat)
    requires Inv(s) && p in s.procs && c in s.procs && UserSlot(d) && Pde(s, p, d).present
    ensures ForkSlot(s, p, c, d).None? <==> CrowdedSlot(s, p, d) || Zeros(s.count) == 0
  {
    ShareHalts(s, p, d);
    var t := s.frames[Pde(s, p, d).index].entries;
    if Share(s.count, t, ENTRIES).Some? {
      var count := Share(s.count, t, ENTRIES).value;
      ShareKeepsZeros(s.count, t, ENTRIES);
      ShareCounts(s.count, t, ENTRIES) by {
        TableDistinct(s, p, d);
      }
      NoZeros(count);
      assert forall f :: 0 <= f < KERNEL_FRAMES ==> count[f] >= s.count[f] > 0;
    }
  }

  /** A round does not disturb the pages still to come. */
  lemma CrowdedLater(s: Memory, s': Memory, p: nat, c: nat, d: nat, g: nat)
    requires Shapes(s) && PagesAligned(s) && Counted(s) && SlotCopied(s, s', p, c, d, g)
    requires CountsShared(s, s', s.frames[Pde(s, p, d).index].entries, g)
    ensures Crowded(s', p, d + 1) <==> Crowded(s, p, d + 1)
  {
    TableDistinct(s, p, d);
    UnreferencedFrame(s, g);
    var t := s.frames[Pde(s, p, d).index].entries;
    forall v: Page | v.slot > d
      ensures Mapped(s', p, v) <==> Mapped(s, p, v)
      ensures Pte(s', p, v) == Pte(s, p, v)
      ensures Mapped(s, p, v) ==> s'.count[Pte(s, p, v).index] == s.count[Pte(s, p, v).index]
    {
      if Mapped(s, p, v) {
        forall i: nat | i < |t|
          ensures !EntryNames(t, i, Pte(s, p, v).index)
        {
          assert EntryNames(t, i, Pte(s, p, v).index) ==> Mapped(s, p, Page(d, i));
        }
      }
    }
  }

  lemma CrowdedHere(s: Memory, p: nat, d: nat)
    requires Shapes(s) && UserSlot(d)
    ensures Crowded(s, p, d) <==> CrowdedSlot(s, p, d) || Crowded(s, p, d + 1)
    ensures !Pde(s, p, d).present ==> !CrowdedSlot(s, p, d)
  {
    if v :| Mapped(s, p, v) && v.slot >= d && Pte(s, p, v).index < |s.count| && s.count[Pte(s, p, v).index] >= 254 {
      assert v.slot > d || v == Page(d, v.index);
    }
  }

  ghost predicate Lacking(s: Memory, p: nat, d: nat)
    requires d <= SELF_SLOT
  {
    Crowded(s, p, d) || Zeros(s.count) < Tables(s, p, d)
  }

  lemma LackingStep(s: Memory, p: nat, c: nat, d: nat)
    requires Inv(s) && p in s.procs && c in s.procs && p != c && UserSlot(d) && !Pde(s, c, d).present
    ensures ForkSlot(s, p, c, d).None? ==> Lacking(s, p, d)
    ensures ForkSlot(s, p, c, d).Some? ==> (Lacking(s, p, d) <==> Lacking(ForkSlot(s, p, c, d).value, p, d + 1))
  {
    CrowdedHere(s, p, d);
    if Pde(s, p, d).present {
      SlotHalts(s, p, c, d);
      if ForkSlot(s, p, c, d).Some? {
        RoundLeaves(s, ForkSlot(s, p, c, d).value, p, c, d);
      }
    }
  }

  lemma {:induction false} ForkSlotsHalt(s0: Memory, s: Memory, p: nat, c: nat, d: nat)
    requires Copying(s0, s, p, c, d) && FIRST_SLOT <= d <= SELF_SLOT
    ensures ForkSlots(s, p, c, d).None? <==> Lacking(s, p, d)
    decreases SELF_SLOT - d
  {
    if d == SELF_SLOT {
      assert forall v :: Mapped(s, p, v) ==> UserPage(v);
    } else {
      LackingStep(s, p, c, d);
      if ForkSlot(s, p, c, d).Some? {
        ForkSlotStep(s0, s, ForkSlot(s, p, c, d).value, p, c, d);
        ForkSlotsHalt(s0, ForkSlot(s, p, c, d).value, p, c, d + 1);
      }
    }
  }

  lemma RoundLeaves(s: Memory, s': Memory, p: nat, c: nat, d: nat)
    requires Inv(s) && p in s.procs && c in s.procs && p != c && UserSlot(d)
    requires Pde(s, p, d).present && !Pde(s, c, d).present && ForkSlot(s, p, c, d) == Some(s')
    ensures Zeros(s'.count) == Zeros(s.count) - 1
    ensures Crowded(s', p, d + 1) <==> Crowded(s, p, d + 1)
    ensures Tables(s', p, d + 1) == Tables(s, p, d + 1)
  {
    var g := RoundHappens(s, s', p, c, d);
    CrowdedLater(s, s', p, c, d, g);
    TablesSame(s, s', p, d + 1);
  }

  /** Fork halts exactly when a page of the parent already has 254 references, or when there are fewer
      free frames than tables to copy. */
  lemma ForkHalts(s: Memory, p: nat, c: nat)
    requires Inv(s) && p in s.procs && c !in s.procs
    ensures Fork(s, p, c).None? <==>
      Zeros(s.count) < Tables(s, p, FIRST_SLOT) || exists v :: Mapped(s, p, v) && s.count[Pte(s, p, v).index] >= 254
  {
    var s0 := ForkStart(s, p, c);
    AddEmptyProc(s, s0, c, s.procs[p].brk);
    StartCopying(s0, p, c);
    ForkSlotsHalt(s0, s0, p, c, FIRST_SLOT);
    EmptyProcTables(s, s0, c, s.procs[p].brk);
    TablesSame(s, s0, p, FIRST_SLOT);
    CrowdedSame(s, s0, p);
  }

  lemma CrowdedSame(s: Memory, s0: Memory, p: nat)
    requires Shapes(s) && s0.count == s.count && forall q, w :: Pte(s0, q, w) == Pte(s, q, w)
    ensures Crowded(s0, p, FIRST_SLOT) <==> exists v :: Mapped(s, p, v) && s.count[Pte(s, p, v).index] >= 254
  {
    forall v
      ensures Mapped(s0, p, v) == Mapped(s, p, v) && (Mapped(s, p, v) ==> v.slot >= FIRST_SLOT)
    {}
  }

  /** With at most 253 processes (the kernel has 64 task slots) no frame reaches 254 references, so
      the counter assertion of copy_pde never fires. */
  lemma CountAtMostProcs(s: Memory, f: nat)
    requires Shapes(s) && TablesPrivate(s) && PagesAligned(s) && Counted(s) && KERNEL_FRAMES <= f < |s.count|
    ensures s.count[f] <= |s.procs|
  {
    var refs := Refs(s, f);
    var pids := set r | r in refs :: r.pid;
    assert pids <= s.procs.Keys;
    SubsetCard(pids, s.procs.Keys);
    forall x, y | x in refs && y in refs && x.pid == y.pid
      ensures x == y
    {
      OneRefPerProcess(s, f, x, y);
    }
    InjectiveCard(refs);
  }

  lemma OneRefPerProcess(s: Memory, f: nat, x: Ref, y: Ref)
    requires Shapes(s) && TablesPrivate(s) && PagesAligned(s)
    requires x in Refs(s, f) && y in Refs(s, f) && x.pid == y.pid
    ensures x == y
  {
    match x
    case TableRef(q, d) =>
      match y {
        case TableRef(q', d') =>
        case PageRef(q', w) => assert IsTable(s, f) && Mapped(s, q', w);
      }
    case PageRef(q, v) =>
      match y {
        case TableRef(q', d') => assert IsTable(s, f) && Mapped(s, q, v);
        case PageRef(q', w) => assert Mapped(s, q, v) && Mapped(s, q', w);
      }
  }

  lemma SubsetCard<T>(a: set<T>, b: set<T>)
    requires a <= b
    ensures |a| <= |b|
  {
    assert |b - a| == |b| - |a|;
  }

  lemma {:induction false} InjectiveCard(refs: set<Ref>)
    requires forall x, y :: x in refs && y in refs && x.pid == y.pid ==> x == y
    ensures |set r | r in refs :: r.pid| == |refs|
  {
    if refs == {} {
      assert (set r | r in refs :: r.pid) == {};
    } else {
      var x :| x in refs;
      InjectiveCard(refs - {x});
      assert (set r | r in refs :: r.pid) == (set r | r in refs - {x} :: r.pid) + {x.pid};
    }
  }
}
