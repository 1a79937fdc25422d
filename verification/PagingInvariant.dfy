/** What every operation on the page tables keeps: reference counts are exact, only a sole owner may
    write, the page bitmap mirrors the tables, and the free-page count is off by a constant. */
module PagingInvariant {
  import opened Basics
  import opened PagingSpec

  // ---------------------------------------------------------------- references to a frame

  /** A place that can name a frame: a directory slot or a table entry of one process. */
  datatype Ref = TableRef(pid: nat, slot: nat) | PageRef(pid: nat, page: Page)

  predicate IsRef(pids: set<nat>, r: Ref) {
    r.pid in pids && match r case TableRef(_, d) => UserSlot(d) case PageRef(_, v) => UserPage(v)
  }

  ghost function AllPages(): (vs: set<Page>)
    ensures forall v :: v in vs <==> UserPage(v)
  {
    set d: nat, t: nat | d < SELF_SLOT && t < ENTRIES && UserSlot(d) :: Page(d, t)
  }

  ghost function AllRefs(pids: set<nat>): (rs: set<Ref>)
    ensures forall r :: r in rs <==> IsRef(pids, r)
  {
    (set p, d: nat | p in pids && d < SELF_SLOT && UserSlot(d) :: TableRef(p, d)) +
    (set p, v | p in pids && v in AllPages() :: PageRef(p, v))
  }

  ghost predicate Names(s: Memory, r: Ref, f: nat) {
    var e := match r case TableRef(p, d) => Pde(s, p, d) case PageRef(p, v) => Pte(s, p, v);
    e.present && e.index == f
  }

  ghost function Refs(s: Memory, f: nat): (rs: set<Ref>)
    ensures forall r :: r in rs <==> IsRef(s.procs.Keys, r) && Names(s, r, f)
  {
    set r | r in AllRefs(s.procs.Keys) && Names(s, r, f)
  }

  // ---------------------------------------------------------------- the invariant

  ghost predicate Shapes(s: Memory) {
    && 0 < s.start < KERNEL_FRAMES < |s.count| == |s.frames|
    && (forall f :: 0 <= f < |s.count| ==> s.count[f] < 255)
    && (forall f :: 0 <= f < KERNEL_FRAMES ==> s.count[f] > 0)
    && (forall f :: KERNEL_FRAMES <= f < |s.count| && s.count[f] == 0 ==> IsPage(s, f))
    && (forall p :: p in s.procs ==> |s.procs[p].pde| == ENTRIES)
    && (forall p, d :: Pde(s, p, d).present ==> UserSlot(d) && IsTable(s, Pde(s, p, d).index))
    && (forall p, d :: !Pde(s, p, d).present ==> Pde(s, p, d) == ABSENT)
    && (forall p, v :: Mapped(s, p, v) ==> IsPage(s, Pte(s, p, v).index))
  }

  /** No page table is shared, neither between processes nor between slots. */
  ghost predicate TablesPrivate(s: Memory) {
    forall p, d, q, e :: Pde(s, p, d).present && Pde(s, q, e).present && Pde(s, p, d).index == Pde(s, q, e).index
      ==> p == q && d == e
  }

  /** Processes that share a frame see it at the same address. */
  ghost predicate PagesAligned(s: Memory) {
    forall p, v, q, w :: Mapped(s, p, v) && Mapped(s, q, w) && Pte(s, p, v).index == Pte(s, q, w).index ==> v == w
  }

  ghost predicate Counted(s: Memory) {
    forall f :: KERNEL_FRAMES <= f < |s.count| ==> s.count[f] == |Refs(s, f)|
  }

  ghost predicate SoleWriter(s: Memory) {
    forall p, v :: Mapped(s, p, v) && Pte(s, p, v).write ==>
      Pte(s, p, v).index < |s.count| && s.count[Pte(s, p, v).index] == 1
  }

  ghost predicate VmapExact(s: Memory) {
    forall p, v :: p in s.procs ==> (v in s.procs[p].vmap <==> Mapped(s, p, v))
  }

  /** free_pages counts the zero counters plus the frames that mapping_init took without telling it. */
  ghost predicate Balanced(s: Memory) {
    s.free == Zeros(s.count) + KERNEL_FRAMES - s.start
  }

  ghost predicate Inv(s: Memory) {
    && Shapes(s) && TablesPrivate(s) && PagesAligned(s) && Counted(s)
    && SoleWriter(s) && VmapExact(s) && Balanced(s)
  }

  // ---------------------------------------------------------------- reading the counts

  lemma ReferencedIsCounted(s: Memory, r: Ref, f: nat)
    requires Counted(s) && IsRef(s.procs.Keys, r) && Names(s, r, f) && KERNEL_FRAMES <= f < |s.count|
    ensures s.count[f] >= 1
    ensures s.count[f] == 1 ==> Refs(s, f) == {r}
  {
    assert r in Refs(s, f);
    assert {r} <= Refs(s, f);
    if s.count[f] == 1 {
      SingletonSet(Refs(s, f), r);
    }
  }

  lemma SingletonSet<T>(a: set<T>, x: T)
    requires x in a && |a| == 1
    ensures a == {x}
  {
    assert |a - {x}| == 0;
    assert a == {x} + (a - {x});
  }

  lemma UnreferencedFrame(s: Memory, f: nat)
    requires Shapes(s) && Counted(s) && KERNEL_FRAMES <= f < |s.count| && s.count[f] == 0
    ensures forall p, d :: !(Pde(s, p, d).present && Pde(s, p, d).index == f)
    ensures forall p, v :: UserPage(v) ==> !(Pte(s, p, v).present && Pte(s, p, v).index == f)
  {
    assert Refs(s, f) == {};
    forall p, d | Pde(s, p, d).present
      ensures Pde(s, p, d).index != f
    {
      assert TableRef(p, d) !in Refs(s, f);
    }
    forall p, v | UserPage(v) && Pte(s, p, v).present
      ensures Pte(s, p, v).index != f
    {
      assert PageRef(p, v) !in Refs(s, f);
    }
  }

  lemma PresentHasProcess(s: Memory, p: nat, v: Page)
    requires Mapped(s, p, v)
    ensures p in s.procs && Pde(s, p, v.slot).present
  {}

  /** The frame that get_one_page hands out is a user frame nobody refers to. */
  lemma TakenFrameIsFresh(s: Memory)
    requires Inv(s)
    ensures TakeFrame(s).Some? ==> var f := TakeFrame(s).value.1;
      KERNEL_FRAMES <= f < |s.count| && s.count[f] == 0 && IsPage(s, f) && s.free > 0
  {
    if TakeFrame(s).Some? {
      var f := TakeFrame(s).value.1;
      ZerosUpdate(s.count, f, 1);
    }
  }

  /** free_pages is zero-based on the counters, so get_one_page panics exactly when none is zero. */
  lemma OutOfMemory(s: Memory)
    requires Inv(s)
    ensures TakeFrame(s).None? <==> Zeros(s.count) == 0
    ensures TakeFrame(s).None? <==> s.free == KERNEL_FRAMES - s.start
  {
    NoZeros(s.count);
    match LowestUnused(s.count, s.start)
    case None =>
      forall j | 0 <= j < |s.count|
        ensures s.count[j] != 0
      {
        assert j < KERNEL_FRAMES || s.start <= j;
      }
    case Some(f) =>
  }

  lemma {:induction false} NoZeros(count: seq<nat>)
    ensures Zeros(count) == 0 <==> forall j :: 0 <= j < |count| ==> count[j] != 0
  {
    if count != [] {
      NoZeros(count[..|count| - 1]);
    }
  }

  /** The kernel's own frames are never free. */
  lemma {:induction false} ZerosAtMost(count: seq<nat>)
    requires KERNEL_FRAMES < |count|
    requires forall f :: 0 <= f < KERNEL_FRAMES ==> count[f] > 0
    ensures Zeros(count) <= |count| - KERNEL_FRAMES
  {
    var rest := count[..|count| - 1];
    if |rest| == KERNEL_FRAMES {
      NoZeros(rest);
    } else {
      ZerosAtMost(rest);
    }
  }
}
