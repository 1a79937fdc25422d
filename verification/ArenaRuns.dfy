/** kfree giving pages back, and the heap over whole runs of kmalloc and kfree. */
module ArenaRuns {
  import opened Basics
  import opened Bitmaps
  import opened Sequences
  import opened ArenaSpec
  import opened ArenaInvariant

  // ---------------------------------------------------------------- an arena disappears

  ghost predicate ArenaRemoved(h: Heap, h': Heap, p: nat) {
    && p in h.arenas && h'.base == h.base && h'.arenas == h.arenas - {p}
    && h.base <= p && p - h.base + Span(h.arenas[p]) <= |h.bits|
    && h'.bits == FillRun(h.bits, p - h.base, Span(h.arenas[p]), false)
  }

  lemma RemovedPlaced(h: Heap, h': Heap, p: nat, start: seq<bool>)
    requires Placed(h) && OnTop(h, start) && ArenaRemoved(h, h', p)
    ensures Placed(h') && OnTop(h', start)
  {
    var n := Span(h.arenas[p]);
    forall q: nat, page: nat
      ensures InArena(h', q, page) <==> InArena(h, q, page) && q != p
      ensures InArena(h', q, page) ==> !(p <= page < p + n)
    {}
    forall page: nat
      ensures BitSet(h'.bits, h.base, page) <==> BitSet(h.bits, h.base, page) && !(p <= page < p + n)
    {}
    forall page: nat
      ensures Covered(h', page) <==> Covered(h, page) && !(p <= page < p + n)
    {
      RemovedCover(h, h', p, page);
    }
    forall page: nat | p <= page < p + n
      ensures Covered(h, page)
    {
      assert InArena(h, p, page);
    }
  }

  lemma RemovedCover(h: Heap, h': Heap, p: nat, page: nat)
    requires Placed(h) && ArenaRemoved(h, h', p)
    ensures Covered(h', page) <==> Covered(h, page) && !(p <= page < p + Span(h.arenas[p]))
  {
    if q: nat :| InArena(h, q, page) {
      assert InArena(h', q, page) <==> q != p;
    }
    if q: nat :| InArena(h', q, page) {
      assert InArena(h, q, page) && q != p;
    }
  }

  /** free_kpage finds every bit of an arena set. */
  lemma FreePagesHalts(h: Heap, p: nat)
    requires Placed(h) && p in h.arenas
    ensures FreePages(h, p, Span(h.arenas[p])).Some?
    ensures ArenaRemoved(h, FreePages(h, p, Span(h.arenas[p])).value, p)
    ensures FreePages(h, p, Span(h.arenas[p])).value.free == h.free
  {
    forall i | p - h.base <= i < p - h.base + Span(h.arenas[p])
      ensures h.bits[i]
    {
      assert InArena(h, p, h.base + i);
      assert BitSet(h.bits, h.base, h.base + i);
    }
  }

  /** No address of page p is free or live any more. */
  ghost predicate Vacated(h': Heap, p: nat) {
    forall a, c :: IsFree(h', a, c) ==> PageOfAddr(a) != p
  }

  lemma RemovedKeeps(h: Heap, h': Heap, p: nat, live: Live, start: seq<bool>, a: nat)
    requires Inv(h, live, start) && ArenaRemoved(h, h', p) && OthersKept(h, h', p) && Vacated(h', p)
    requires forall c :: 0 <= c < CLASSES ==> |h'.free| == CLASSES && Distinct(h'.free[c])
    requires PageOfAddr(a) == p
    requires forall b :: b in live && PageOfAddr(b) == p ==> b == a
    ensures Inv(h', live - {a}, start)
  {
    hide BlockAddr, BlockOf, FreeIdx, TotalBlock, Placed, OnTop, Complete, LiveAt, FillRun;
    RemovedPlaced(h, h', p, start);
    OthersStayCounted(h, h', p);
    OthersStayListed(h, h', p);
    forall b | b in live && b != a
      ensures LiveAt(h', b)
    {
      OthersLive(h, h', p, b);
    }
    RemovedComplete(h, h', p, live, a);
  }

  lemma RemovedComplete(h: Heap, h': Heap, p: nat, live: Live, a: nat)
    requires Placed(h) && Complete(h, live) && ArenaRemoved(h, h', p) && OthersKept(h, h', p) && PageOfAddr(a) == p
    ensures Complete(h', live - {a})
  {
    forall q, i: nat | q in h'.arenas && h'.arenas[q].Small? && i < TotalBlock(h'.arenas[q].cls)
      ensures PageOfAddr(BlockAddr(q, h'.arenas[q].cls, i)) == q != p
    {
      MaskFindsHeader(q, h'.arenas[q].cls, i);
    }
    hide BlockAddr, TotalBlock;
  }

  // ---------------------------------------------------------------- kfree of a large arena

  /** A large arena owns no free block, and only its start can be live. */
  lemma LargeOwns(h: Heap, p: nat)
    requires Listed(h) && p in h.arenas && h.arenas[p].Large?
    ensures Vacated(h, p)
    ensures forall b :: LiveAt(h, b) && PageOfAddr(b) == p ==> b == p * PAGE_SIZE + HEADER
  {
    hide BlockAddr, TotalBlock, PageOfAddr;
    forall x, c | IsFree(h, x, c)
      ensures PageOfAddr(x) != p
    {
      var i: nat :| BlockOf(h, x, PageOfAddr(x), i);
    }
  }

  lemma LargeFreeKeeps(h: Heap, live: Live, start: seq<bool>, a: nat)
    requires Inv(h, live, start) && a in live && h.arenas[PageOfAddr(a)].Large?
    ensures Kfree(h, a).Some? && Inv(Kfree(h, a).value, live - {a}, start)
  {
    hide BlockAddr, TotalBlock, PageOfAddr, BlockOf, BlockSize, FillRun, Placed, OnTop, Counted, Complete;
    var p := PageOfAddr(a);
    assert LiveAt(h, a);
    LargeOwns(h, p);
    FreePagesHalts(h, p);
    var h' := Kfree(h, a).value;
    assert h' == FreePages(h, p, Span(h.arenas[p])).value;
    hide Kfree, FreePages, LiveAt;
    assert forall x, c :: IsFree(h', x, c) <==> IsFree(h, x, c);
    RemovedKeeps(h, h', p, live, start, a);
  }

  // ---------------------------------------------------------------- kfree of the last live block

  /** Removing the first n blocks of a page succeeds when all of them are listed, and removes just them. */
  lemma {:induction false} RemoveBlocksEffect(list: seq<nat>, p: nat, c: nat, n: nat)
    requires c < CLASSES && Distinct(list)
    requires forall i: nat :: i < n ==> BlockAddr(p, c, i) in list
    ensures RemoveBlocks(list, p, c, n).Some?
    ensures Distinct(RemoveBlocks(list, p, c, n).value)
    ensures forall x :: x in RemoveBlocks(list, p, c, n).value <==> x in list && !InFirst(x, p, c, n)
  {
    hide BlockAddr, InFirst;
    if n == 0 {
      forall x
        ensures !InFirst(x, p, c, 0)
      {
        InFirstNext(x, p, c, 0);
      }
    } else {
      RemoveBlocksEffect(list, p, c, n - 1);
      var l := RemoveBlocks(list, p, c, n - 1).value;
      LastNotFirst(p, c, n - 1);
      WithoutDistinct(l, BlockAddr(p, c, n - 1));
      forall x
        ensures InFirst(x, p, c, n) <==> InFirst(x, p, c, n - 1) || x == BlockAddr(p, c, n - 1)
      {
        InFirstNext(x, p, c, n - 1);
      }
    }
  }

  lemma LastNotFirst(p: nat, c: nat, n: nat)
    requires c < CLASSES
    ensures !InFirst(BlockAddr(p, c, n), p, c, n)
  {
    forall i: nat | i < n
      ensures BlockAddr(p, c, i) != BlockAddr(p, c, n)
    {
      BlocksDiffer(p, c, i, n);
    }
  }

  /** An arena one block short of full has all its blocks on the list once that block is pushed. */
  lemma AllListed(h: Heap, p: nat, c: nat, i: nat)
    requires c < |h.free| && c < CLASSES && i < TotalBlock(c) && !IsFree(h, BlockAddr(p, c, i), c)
    requires |FreeIdx(h, p, c)| + 1 == TotalBlock(c)
    ensures forall j: nat :: j < TotalBlock(c) ==> BlockAddr(p, c, j) in [BlockAddr(p, c, i)] + h.free[c]
    ensures forall j: nat :: j < TotalBlock(c) && j != i ==> IsFree(h, BlockAddr(p, c, j), c)
  {
    var all := Indices(TotalBlock(c));
    var some := FreeIdx(h, p, c) + {i};
    assert |all - some| == |all| - |some| by { assert some <= all; }
    assert all - some == {};
    forall j: nat | j < TotalBlock(c)
      ensures j == i || IsFree(h, BlockAddr(p, c, j), c)
    {
      assert j in all && j !in all - some;
    }
  }

  ghost function LastRest(h: Heap, a: nat, p: nat, c: nat): Option<seq<nat>>
    requires c < |h.free|
  {
    RemoveBlocks([a] + h.free[c], p, c, TotalBlock(c))
  }

  lemma LastRemoved(h: Heap, a: nat, i: nat, c: nat)
    requires Placed(h) && Listed(h) && Counted(h)
    requires var p := PageOfAddr(a);
      BlockOf(h, a, p, i) && h.arenas[p].cls == c && !IsFree(h, a, c) && h.arenas[p].count + 1 == TotalBlock(c)
    ensures c < |h.free| && LastRest(h, a, PageOfAddr(a), c).Some?
    ensures var rest := LastRest(h, a, PageOfAddr(a), c).value;
      && Distinct(rest)
      && forall x :: x in rest <==> x in h.free[c] && PageOfAddr(x) != PageOfAddr(a)
    ensures forall b :: PageOfAddr(b) == PageOfAddr(a) && LiveAt(h, b) ==> b == a
  {
    var p := PageOfAddr(a);
    AllListed(h, p, c, i);
    RemoveBlocksEffect([a] + h.free[c], p, c, TotalBlock(c));
    forall x
      ensures x in h.free[c] && PageOfAddr(x) == p ==> InFirst(x, p, c, TotalBlock(c))
    {
      if x in h.free[c] {
        assert IsFree(h, x, c);
        var j: nat :| BlockOf(h, x, PageOfAddr(x), j) && h.arenas[PageOfAddr(x)].cls == c;
      }
    }
    forall x | InFirst(x, p, c, TotalBlock(c))
      ensures PageOfAddr(x) == p
    {
      var j: nat :| j < TotalBlock(c) && x == BlockAddr(p, c, j);
      MaskFindsHeader(p, c, j);
    }
    assert InFirst(a, p, c, TotalBlock(c));
    hide BlockAddr;
  }

  lemma LastFreeKeeps(h: Heap, live: Live, start: seq<bool>, a: nat, i: nat)
    requires Inv(h, live, start) && a in live
    requires var p := PageOfAddr(a); BlockOf(h, a, p, i) && h.arenas[p].count + 1 == TotalBlock(h.arenas[p].cls)
    ensures Kfree(h, a).Some? && Inv(Kfree(h, a).value, live - {a}, start)
  {
    var p := PageOfAddr(a);
    var c := h.arenas[p].cls;
    assert LiveAt(h, a);
    LastRemoved(h, a, i, c);
    var rest := LastRest(h, a, p, c).value;
    FreePagesHalts(h, p);
    LastFreeIs(h, a, p, c);
    var h' := Kfree(h, a).value;
    LastOthers(h, h', p, c, rest);
    forall b | b in live && PageOfAddr(b) == p
      ensures b == a
    {
      assert LiveAt(h, b);
    }
    hide LiveAt, BlockOf, Kfree;
    RemovedKeeps(h, h', p, live, start, a);
  }

  /** kfree of the last live block: the list without the page's blocks, the page given back. */
  lemma LastFreeIs(h: Heap, a: nat, p: nat, c: nat)
    requires |h.free| == CLASSES && p == PageOfAddr(a) && p in h.arenas && c < CLASSES
    requires h.arenas[p].Small? && h.arenas[p].cls == c && h.arenas[p].count + 1 == TotalBlock(c)
    requires !IsFree(h, a, c) && LastRest(h, a, p, c).Some? && FreePages(h, p, 1).Some?
    ensures Kfree(h, a) == Some(Heap(FreePages(h, p, 1).value.bits, h.base, h.arenas - {p},
                                     h.free[c := LastRest(h, a, p, c).value]))
  {}

  lemma LastOthers(h: Heap, h': Heap, p: nat, c: nat, rest: seq<nat>)
    requires Listed(h) && c < CLASSES && h'.base == h.base
    requires h'.arenas == h.arenas - {p} && h'.free == h.free[c := rest] && p in h.arenas
    requires h.arenas[p].Small? && h.arenas[p].cls == c && Distinct(rest)
    requires forall x :: x in rest <==> x in h.free[c] && PageOfAddr(x) != p
    ensures OthersKept(h, h', p) && Vacated(h', p)
    ensures forall d :: 0 <= d < CLASSES ==> Distinct(h'.free[d])
  {
    forall x, d
      ensures IsFree(h', x, d) <==> IsFree(h, x, d) && (d == c ==> PageOfAddr(x) != p)
    {}
    forall x, d | IsFree(h, x, d) && PageOfAddr(x) == p
      ensures d == c
    {
      var i: nat :| BlockOf(h, x, PageOfAddr(x), i) && h.arenas[PageOfAddr(x)].cls == d;
    }
  }

  // ---------------------------------------------------------------- the two operations

  /** kmalloc halts exactly when no run of free pages is long enough, or when a large request is so
      near 2^32 that it wraps to zero pages. */
  ghost predicate NoRoom(h: Heap, size: nat)
    requires |h.free| == CLASSES
  {
    if size > 1024 then LargePages(size) == 0 || !HasClearRun(h.bits, LargePages(size))
    else h.free[ClassFor(size, 0)] == [] && !HasClearRun(h.bits, 1)
  }

  /** What kmalloc promises: a fresh address whose capacity covers the request if size + 16 does not wrap,
      the other live allocations untouched. */
  lemma KmallocKeeps(h: Heap, live: Live, start: seq<bool>, size: nat)
    requires Inv(h, live, start) && size < WORD
    ensures Kmalloc(h, size).None? <==> NoRoom(h, size)
    ensures Kmalloc(h, size).Some? ==>
      var (h', a) := Kmalloc(h, size).value;
      && Inv(h', live[a := size], start) && a !in live
      && (Capacity(h', a) >= size <==> size + HEADER < WORD)
  {
    assert |h.free| == CLASSES;
    hide Inv, Pop, MallocLarge, NewArena, Capacity, Opened, LargePages, FindRun;
    if size > 1024 {
      FindRunIsFirstFit(h.bits, LargePages(size));
      LargeResult(h, size);
      if MallocLarge(h, size).Some? {
        LargeKeeps(h, live, start, size);
        LargeCoversRequest(size);
      }
    } else {
      var c := ClassFor(size, 0);
      if h.free[c] != [] {
        PopKeeps(h, live, start, c, size);
      } else {
        FindRunIsFirstFit(h.bits, 1);
        NewResult(h, c);
        if FindRun(h.bits, 1, 0).Some? {
          var p := h.base + FindRun(h.bits, 1, 0).value;
          OpenedIsMalloc(h, c, p);
          OpenKeeps(h, live, start, c, p, size);
        }
      }
    }
  }

  lemma LargeResult(h: Heap, size: nat)
    ensures MallocLarge(h, size).None? <==> LargePages(size) == 0 || FindRun(h.bits, LargePages(size), 0).None?
  {}

  lemma NewResult(h: Heap, c: nat)
    requires c < |h.free|
    ensures NewArena(h, c).None? <==> FindRun(h.bits, 1, 0).None?
  {}

  /** kfree of a live address never trips an assertion. */
  lemma KfreeKeeps(h: Heap, live: Live, start: seq<bool>, a: nat)
    requires Inv(h, live, start) && a in live
    ensures Kfree(h, a).Some? && Inv(Kfree(h, a).value, live - {a}, start)
  {
    var p := PageOfAddr(a);
    assert LiveAt(h, a);
    if h.arenas[p].Large? {
      LargeFreeKeeps(h, live, start, a);
    } else {
      var i: nat :| BlockOf(h, a, p, i);
      if h.arenas[p].count + 1 == TotalBlock(h.arenas[p].cls) {
        LastFreeKeeps(h, live, start, a, i);
      } else {
        PushKeeps(h, live, start, a, i);
      }
    }
  }

  // ---------------------------------------------------------------- pages come late and go early

  /** Block i of a page of size class c lies inside the page, behind its header. */
  predicate FitsInPage(c: nat, i: nat) {
    16 + (i + 1) * BlockSize(c) <= 4096
  }

  lemma FitsExactly(c: nat, i: nat)
    requires c < CLASSES
    ensures FitsInPage(c, i) <==> i < TotalBlock(c)
  {
    PagesAreFull(c);
    var size := BlockSize(c);
    if i < TotalBlock(c) {
      BlockOffset(c, i);
      assert (i + 1) * size == i * size + size;
    } else {
      assert (i + 1) * size >= (TotalBlock(c) + 1) * size;
    }
  }

  /** Every block that fits in a page of the class is live. */
  ghost predicate AllLive(h: Heap, live: Live, c: nat) {
    forall p, i: nat :: p in h.arenas && h.arenas[p].Small? && h.arenas[p].cls == c && FitsInPage(c, i) ==>
      BlockAddr(p, c, i) in live
  }

  lemma FitLive(h: Heap, live: Live, c: nat, p: nat, i: nat)
    requires Complete(h, live) && |h.free| == CLASSES && c < CLASSES && h.free[c] == []
    requires p in h.arenas && h.arenas[p].Small? && h.arenas[p].cls == c && FitsInPage(c, i)
    ensures BlockAddr(p, c, i) in live
  {
    FitsExactly(c, i);
    hide BlockSize, TotalBlock, FitsInPage, BlockAddr;
    assert !IsFree(h, BlockAddr(p, c, i), c);
  }

  lemma FreeFits(h: Heap, live: Live, c: nat, a: nat) returns (i: nat)
    requires Listed(h) && LiveBlocks(h, live) && c < CLASSES && IsFree(h, a, c)
    ensures PageOfAddr(a) in h.arenas && h.arenas[PageOfAddr(a)].Small? && h.arenas[PageOfAddr(a)].cls == c
    ensures FitsInPage(c, i) && a == BlockAddr(PageOfAddr(a), c, i) && a !in live
  {
    hide BlockSize, TotalBlock, FitsInPage, BlockAddr, PageOfAddr;
    i :| BlockOf(h, a, PageOfAddr(a), i) && h.arenas[PageOfAddr(a)].cls == c;
    FitsExactly(c, i);
    assert !LiveAt(h, a);
  }

  /** The free list of a class is empty exactly if all blocks of its pages are live. */
  lemma EmptyWhenAllLive(h: Heap, live: Live, start: seq<bool>, c: nat)
    requires Inv(h, live, start) && c < CLASSES
    ensures h.free[c] == [] <==> AllLive(h, live, c)
  {
    hide BlockSize, TotalBlock, FitsInPage, BlockAddr, PageOfAddr;
    if h.free[c] == [] {
      forall p, i: nat | p in h.arenas && h.arenas[p].Small? && h.arenas[p].cls == c && FitsInPage(c, i)
        ensures BlockAddr(p, c, i) in live
      {
        FitLive(h, live, c, p, i);
      }
    } else {
      assert IsFree(h, h.free[c][0], c);
      var i := FreeFits(h, live, c, h.free[c][0]);
      assert BlockAddr(PageOfAddr(h.free[c][0]), c, i) !in live;
    }
  }

  /** kmalloc of at most 1024 bytes takes a page, and then just one, if and only if every block that fits in the pages
      of its class is live. */
  lemma NewPageWhenFull(h: Heap, live: Live, start: seq<bool>, size: nat)
    requires Inv(h, live, start) && size <= 1024 && Kmalloc(h, size).Some?
    ensures var h' := Kmalloc(h, size).value.0; var c := ClassFor(size, 0);
      && (h'.arenas.Keys == h.arenas.Keys <==> !AllLive(h, live, c))
      && (AllLive(h, live, c) ==> exists p :: p !in h.arenas && h'.arenas.Keys == h.arenas.Keys + {p})
  {
    hide AllLive, Inv, NewArena, Pop, ClassFor;
    var c := ClassFor(size, 0);
    assert |h.free| == CLASSES by { FreeLists(h, live, start); }
    EmptyWhenAllLive(h, live, start, c);
    if h.free[c] == [] {
      var h1 := NewArena(h, c).value;
      var p := NewKeys(h, live, start, c);
      PopKeys(h1, c);
    } else {
      PopKeys(h, c);
    }
  }

  lemma FreeLists(h: Heap, live: Live, start: seq<bool>)
    requires Inv(h, live, start)
    ensures |h.free| == CLASSES
  {}

  lemma PopKeys(h: Heap, c: nat)
    requires c < |h.free| && Pop(h, c).Some?
    ensures Pop(h, c).value.0.arenas.Keys == h.arenas.Keys
  {
    hide PageOfAddr;
  }

  lemma NewKeys(h: Heap, live: Live, start: seq<bool>, c: nat) returns (p: nat)
    requires Inv(h, live, start) && c < |h.free| && NewArena(h, c).Some?
    ensures p !in h.arenas && NewArena(h, c).value.arenas.Keys == h.arenas.Keys + {p}
  {
    ClearPageIsFree(h, FindRun(h.bits, 1, 0).value, 1);
    p := h.base + FindRun(h.bits, 1, 0).value;
    hide FindRun, PushBlocks, FillRun, TotalBlock, Inv;
  }

  /** A page stays with the heap exactly as long as something in it is live. */
  lemma PageStaysWhileLive(h: Heap, live: Live, start: seq<bool>, p: nat)
    requires Inv(h, live, start)
    ensures p in h.arenas <==> exists a :: a in live && PageOfAddr(a) == p
  {
    if p in h.arenas && h.arenas[p].Small? {
      var c := h.arenas[p].cls;
      var i := SomeNotFree(h, p, c);
      MaskFindsHeader(p, c, i);
      assert BlockAddr(p, c, i) in live;
    } else if p in h.arenas {
      assert p * PAGE_SIZE + HEADER in live && PageOfAddr(p * PAGE_SIZE + HEADER) == p;
    }
    if a :| a in live && PageOfAddr(a) == p {
      assert LiveAt(h, a);
    }
  }

  /** Fewer free blocks than blocks: one is not free. */
  lemma SomeNotFree(h: Heap, p: nat, c: nat) returns (i: nat)
    requires |FreeIdx(h, p, c)| < TotalBlock(c)
    ensures i < TotalBlock(c) && !IsFree(h, BlockAddr(p, c, i), c)
  {
    if forall j: nat :: j < TotalBlock(c) ==> j in FreeIdx(h, p, c) {
      Counting(FreeIdx(h, p, c), TotalBlock(c));
      assert false;
    }
    i :| i < TotalBlock(c) && i !in FreeIdx(h, p, c);
  }

  lemma {:induction false} Counting(s: set<nat>, n: nat)
    requires forall j: nat :: j < n ==> j in s
    ensures |s| >= n
  {
    if n > 0 {
      Counting(s - {n - 1}, n - 1);
    }
  }

  // ---------------------------------------------------------------- runs

  datatype Op = Malloc(size: nat) | Free(a: nat)

  /** A client frees only what it holds. */
  predicate Allowed(live: Live, op: Op) {
    match op case Malloc(size) => size < WORD case Free(a) => a in live
  }

  ghost function Do(h: Heap, op: Op): Option<(Heap, nat)>
    requires |h.free| == CLASSES
  {
    match op
    case Malloc(size) => Kmalloc(h, size)
    case Free(a) => match Kfree(h, a) case None => None case Some(h') => Some((h', a))
  }

  function LiveAfter(live: Live, op: Op, a: nat): Live {
    match op case Malloc(size) => live[a := size] case Free(b) => live - {b}
  }

  /** A run of a client that frees only live addresses, up to its end or to a halt of kmalloc. */
  ghost predicate Run(h: Heap, live: Live, ops: seq<Op>, h': Heap, live': Live)
    decreases |ops|
  {
    if ops == [] then h' == h && live' == live
    else |h.free| == CLASSES && Allowed(live, ops[0]) && Do(h, ops[0]).Some? &&
         var (h1, a) := Do(h, ops[0]).value;
         Run(h1, LiveAfter(live, ops[0], a), ops[1..], h', live')
  }

  predicate Fresh(h: Heap) {
    h.arenas == map[] && h.free == seq(CLASSES, _ => [])
  }

  lemma FreshInv(h: Heap)
    requires Fresh(h)
    ensures Inv(h, map[], h.bits)
  {
    assert forall a, c :: !IsFree(h, a, c);
    assert forall page :: !Covered(h, page);
  }

  lemma {:induction false} RunKeepsInv(h: Heap, live: Live, start: seq<bool>, ops: seq<Op>, h': Heap, live': Live)
    requires Inv(h, live, start) && Run(h, live, ops, h', live')
    ensures Inv(h', live', start)
    decreases |ops|
  {
    hide Inv;
    if ops != [] {
      var (h1, a) := Do(h, ops[0]).value;
      match ops[0] {
        case Malloc(size) => KmallocKeeps(h, live, start, size);
        case Free(b) => KfreeKeeps(h, live, start, b);
      }
      RunKeepsInv(h1, LiveAfter(live, ops[0], a), start, ops[1..], h', live');
    }
  }

  // ---------------------------------------------------------------- room for what was asked

  /** An arena that stays keeps its size class or its page count. */
  predicate SameKind(x: Arena, y: Arena) {
    x == y || (x.Small? && y.Small? && x.cls == y.cls)
  }

  ghost predicate KindsKept(h: Heap, h': Heap) {
    forall p :: p in h.arenas && p in h'.arenas ==> SameKind(h.arenas[p], h'.arenas[p])
  }

  /** The first page of a run of clear bits is no arena's. */
  lemma ClearPageIsFree(h: Heap, i: nat, count: nat)
    requires Placed(h) && count > 0 && ClearRun(h.bits, i, count)
    ensures h.base + i !in h.arenas
  {
    assert InArena(h, h.base + i, h.base + i) ==> BitSet(h.bits, h.base, h.base + i);
  }

  lemma KmallocKinds(h: Heap, size: nat)
    requires Placed(h) && |h.free| == CLASSES && Kmalloc(h, size).Some?
    ensures KindsKept(h, Kmalloc(h, size).value.0)
  {
    hide FillRun, PushBlocks, ClassFor, TotalBlock, BlockAddr, PageOfAddr, LargePages, Placed, FindRun;
    if size > 1024 {
      ClearPageIsFree(h, FindRun(h.bits, LargePages(size), 0).value, LargePages(size));
    } else if h.free[ClassFor(size, 0)] == [] {
      ClearPageIsFree(h, FindRun(h.bits, 1, 0).value, 1);
    }
  }

  lemma KfreeKinds(h: Heap, a: nat)
    requires |h.free| == CLASSES && Kfree(h, a).Some?
    ensures KindsKept(h, Kfree(h, a).value)
  {
    hide FillRun, RemoveBlocks, TotalBlock, PageOfAddr;
  }

  /** Every live allocation has room for the size asked for, unless that size wraps around. */
  ghost predicate Fits(h: Heap, live: Live) {
    forall a :: a in live && live[a] + HEADER < WORD ==> Capacity(h, a) >= live[a]
  }

  lemma CapacityKept(h: Heap, h': Heap, a: nat)
    requires KindsKept(h, h') && LiveAt(h, a) && LiveAt(h', a)
    ensures Capacity(h', a) == Capacity(h, a)
  {
    hide BlockOf, IsFree, PageOfAddr;
  }

  /** What a step does to the arenas and to the address it is about. */
  lemma StepKinds(h: Heap, live: Live, start: seq<bool>, op: Op)
    requires Inv(h, live, start) && Allowed(live, op) && |h.free| == CLASSES && Do(h, op).Some?
    ensures var (h', a) := Do(h, op).value;
      && KindsKept(h, h') && LiveBlocks(h', LiveAfter(live, op, a))
      && (op.Malloc? ==> (op.size + HEADER < WORD ==> Capacity(h', a) >= op.size))
  {
    hide Kmalloc, Kfree, KindsKept, Placed, Capacity, LiveBlocks;
    match op {
      case Malloc(size) =>
        KmallocKeeps(h, live, start, size);
        KmallocKinds(h, size);
      case Free(b) =>
        KfreeKeeps(h, live, start, b);
        KfreeKinds(h, b);
    }
  }

  /** The allocations that live through the step keep their capacity. */
  lemma OldFits(h: Heap, h': Heap, live: Live, live': Live)
    requires KindsKept(h, h') && LiveBlocks(h, live) && LiveBlocks(h', live') && Fits(h, live)
    ensures forall b :: b in live && b in live' && live'[b] == live[b] && live[b] + HEADER < WORD ==> Capacity(h', b) >= live[b]
  {
    hide Capacity, KindsKept, LiveAt;
    forall b | b in live && b in live'
      ensures Capacity(h', b) == Capacity(h, b)
    {
      CapacityKept(h, h', b);
    }
  }

  lemma StepFits(h: Heap, live: Live, start: seq<bool>, op: Op)
    requires Inv(h, live, start) && Fits(h, live) && Allowed(live, op) && |h.free| == CLASSES && Do(h, op).Some?
    ensures Fits(Do(h, op).value.0, LiveAfter(live, op, Do(h, op).value.1))
  {
    assert LiveBlocks(h, live);
    hide Do, Inv, Capacity, KindsKept, LiveBlocks;
    StepKinds(h, live, start, op);
    OldFits(h, Do(h, op).value.0, live, LiveAfter(live, op, Do(h, op).value.1));
  }

  lemma {:induction false} RunFits(h: Heap, live: Live, start: seq<bool>, ops: seq<Op>, h': Heap, live': Live)
    requires Inv(h, live, start) && Fits(h, live) && Run(h, live, ops, h', live')
    ensures Fits(h', live')
    decreases |ops|
  {
    hide Inv, Fits, Do, Allowed;
    if ops != [] {
      var (h1, a) := Do(h, ops[0]).value;
      StepFits(h, live, start, ops[0]);
      RunKeepsInv(h, live, start, [ops[0]], h1, LiveAfter(live, ops[0], a));
      RunFits(h1, LiveAfter(live, ops[0], a), start, ops[1..], h', live');
    }
  }

  ghost predicate CanFree(h: Heap, a: nat) {
    |h.free| == CLASSES && Kfree(h, a).Some?
  }

  /** Nothing live overlaps anything else, and everything live can be freed. */
  ghost predicate Safe(h: Heap, live: Live) {
    && (forall a: nat, b: nat :: a in live && b in live && a != b ==> Disjoint(a, Capacity(h, a), b, Capacity(h, b)))
    && (forall a: nat, q: nat :: a in live && q in h.arenas ==> Disjoint(a, Capacity(h, a), q * PAGE_SIZE, HEADER))
    && (forall a: nat, b: nat, c: nat :: a in live && IsFree(h, b, c) ==> Disjoint(a, Capacity(h, a), b, BlockSize(c)))
    && (forall a: nat :: a in live ==> CanFree(h, a))
  }

  lemma LiveCanFree(h: Heap, live: Live, start: seq<bool>, a: nat)
    requires Inv(h, live, start) && a in live
    ensures CanFree(h, a)
  {
    KfreeKeeps(h, live, start, a);
  }

  lemma InvIsSafe(h: Heap, live: Live, start: seq<bool>)
    requires Inv(h, live, start)
    ensures Safe(h, live)
  {
    assert Placed(h) && Listed(h) && LiveBlocks(h, live);
    hide Capacity, BlockSize, IsFree, Placed, Listed, LiveBlocks, Inv, Disjoint, CanFree;
    forall a: nat, b: nat | a in live && b in live && a != b
      ensures Disjoint(a, Capacity(h, a), b, Capacity(h, b))
    {
      LiveApart(h, live, a, b);
    }
    forall a: nat, q: nat | a in live && q in h.arenas
      ensures Disjoint(a, Capacity(h, a), q * PAGE_SIZE, HEADER)
    {
      LiveOffHeaders(h, live, a, q);
    }
    forall a: nat, b: nat, c: nat | a in live && IsFree(h, b, c)
      ensures Disjoint(a, Capacity(h, a), b, BlockSize(c))
    {
      LiveOffFree(h, live, a, b, c);
    }
    forall a: nat | a in live
      ensures CanFree(h, a)
    {
      LiveCanFree(h, live, start, a);
    }
  }

  /** Over every run from the fresh heap: live allocations have the room asked for, overlap neither each
      other nor a header nor a free block, can be freed without tripping an assertion, and once all of
      them are freed, in any order, the kernel page bitmap is bit for bit what it was at the start. */
  lemma HeapIsSafe(h: Heap, ops: seq<Op>, h': Heap, live': Live)
    requires Fresh(h) && Run(h, map[], ops, h', live')
    ensures Safe(h', live') && Fits(h', live')
    ensures live' == map[] ==> h'.bits == h.bits && h'.arenas == map[]
  {
    FreshInv(h);
    hide Inv, Run, Safe;
    RunKeepsInv(h, map[], h.bits, ops, h', live');
    RunFits(h, map[], h.bits, ops, h', live');
    InvIsSafe(h', live', h.bits);
    if live' == map[] {
      AllFreedRestoresBitmap(h', h.bits);
    }
  }
}
