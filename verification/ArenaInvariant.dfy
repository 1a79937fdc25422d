/** Safety of the kernel heap: live allocations never overlap each other, a header or a free block;
    block counts are exact; and the pages in use are those of arenas with something live in them. */
module ArenaInvariant {
  import opened Basics
  import opened Bitmaps
  import opened Sequences
  import opened ArenaSpec

  function Span(arena: Arena): nat {
    match arena case Small(_, _) => 1 case Large(n) => n
  }

  /** a is the address of block i of small arena p. */
  ghost predicate BlockOf(h: Heap, a: nat, p: nat, i: nat) {
    p in h.arenas && h.arenas[p].Small? && i < TotalBlock(h.arenas[p].cls) && a == BlockAddr(p, h.arenas[p].cls, i)
  }

  ghost predicate IsFree(h: Heap, a: nat, c: nat) {
    c < |h.free| && a in h.free[c]
  }

  /** The free blocks of small arena p, by index. */
  ghost function FreeIdx(h: Heap, p: nat, c: nat): (r: set<nat>)
    ensures forall i: nat :: i in r <==> i < TotalBlock(c) && IsFree(h, BlockAddr(p, c, i), c)
  {
    set i: nat | i < TotalBlock(c) && IsFree(h, BlockAddr(p, c, i), c)
  }

  /** Page `page` belongs to arena p. */
  predicate InArena(h: Heap, p: nat, page: nat) {
    p in h.arenas && p <= page < p + Span(h.arenas[p])
  }

  ghost predicate Covered(h: Heap, page: nat) {
    exists p :: InArena(h, p, page)
  }

  predicate BitSet(bits: seq<bool>, base: nat, page: nat) {
    base <= page < base + |bits| && bits[page - base]
  }

  // ---------------------------------------------------------------- the invariant

  /** Arenas lie in the map, on set bits, apart from each other. */
  ghost predicate Placed(h: Heap) {
    && (forall p :: p in h.arenas ==>
          && Span(h.arenas[p]) > 0 && h.base <= p && p + Span(h.arenas[p]) <= h.base + |h.bits|
          && (h.arenas[p].Small? ==> h.arenas[p].cls < CLASSES))
    && (forall p, page :: InArena(h, p, page) ==> BitSet(h.bits, h.base, page))
    && (forall p, q :: p in h.arenas && q in h.arenas && p != q ==>
          p + Span(h.arenas[p]) <= q || q + Span(h.arenas[q]) <= p)
  }

  /** Free lists hold blocks of arenas of their class, each at most once. */
  ghost predicate Listed(h: Heap) {
    && |h.free| == CLASSES
    && (forall c :: 0 <= c < CLASSES ==> Distinct(h.free[c]))
    && (forall c, a :: IsFree(h, a, c) ==> exists i: nat :: BlockOf(h, a, PageOfAddr(a), i) && h.arenas[PageOfAddr(a)].cls == c)
  }

  /** A small arena's count is the number of its free blocks, and never all of them. */
  ghost predicate Counted(h: Heap) {
    forall p :: p in h.arenas && h.arenas[p].Small? ==>
      h.arenas[p].count == |FreeIdx(h, p, h.arenas[p].cls)| < TotalBlock(h.arenas[p].cls)
  }

  /** `live` maps every address handed out and not yet freed to the size asked for. */
  type Live = map<nat, nat>

  /** A live address is a block off the free lists, or the start of a large arena. */
  ghost predicate LiveAt(h: Heap, a: nat) {
    var p := PageOfAddr(a);
    && p in h.arenas
    && (h.arenas[p].Large? ==> a == p * PAGE_SIZE + HEADER)
    && (h.arenas[p].Small? ==> !IsFree(h, a, h.arenas[p].cls) && exists i: nat :: BlockOf(h, a, p, i))
  }

  ghost predicate LiveBlocks(h: Heap, live: Live) {
    forall a :: a in live ==> LiveAt(h, a)
  }

  /** Nothing is lost: a block is on its free list or live, and a large arena is live. */
  ghost predicate Complete(h: Heap, live: Live) {
    && (forall p, i: nat :: p in h.arenas && h.arenas[p].Small? && i < TotalBlock(h.arenas[p].cls)
          && !IsFree(h, BlockAddr(p, h.arenas[p].cls, i), h.arenas[p].cls)
          ==> BlockAddr(p, h.arenas[p].cls, i) in live)
    && (forall p :: p in h.arenas && h.arenas[p].Large? ==> p * PAGE_SIZE + HEADER in live)
  }

  /** The page bitmap is what it was at the start, plus the arenas' pages. */
  ghost predicate OnTop(h: Heap, start: seq<bool>) {
    && |start| == |h.bits|
    && (forall page :: BitSet(h.bits, h.base, page) <==> BitSet(start, h.base, page) || Covered(h, page))
    && (forall page :: !(BitSet(start, h.base, page) && Covered(h, page)))
  }

  ghost predicate Inv(h: Heap, live: Live, start: seq<bool>) {
    Placed(h) && Listed(h) && Counted(h) && LiveBlocks(h, live) && Complete(h, live) && OnTop(h, start)
  }

  // ---------------------------------------------------------------- what the invariant gives

  /** The bytes a live address may use. */
  function Capacity(h: Heap, a: nat): nat {
    if PageOfAddr(a) !in h.arenas then 0
    else match h.arenas[PageOfAddr(a)]
      case Large(n) => if n * PAGE_SIZE >= HEADER then n * PAGE_SIZE - HEADER else 0
      case Small(c, _) => BlockSize(c)
  }

  /** The ranges of n bytes at a and of m bytes at b have no byte in common. */
  predicate Disjoint(a: nat, n: nat, b: nat, m: nat) {
    a + n <= b || b + m <= a
  }

  lemma LiveIsInsideArena(h: Heap, live: Live, a: nat)
    requires Placed(h) && LiveBlocks(h, live) && a in live
    ensures var p := PageOfAddr(a);
      && p in h.arenas && p * PAGE_SIZE + HEADER <= a
      && a + Capacity(h, a) <= (p + Span(h.arenas[p])) * PAGE_SIZE
  {
    var p := PageOfAddr(a);
    if h.arenas[p].Small? {
      var i: nat :| BlockOf(h, a, p, i);
      BlockOffset(h.arenas[p].cls, i);
    }
  }

  /** Two live allocations occupy disjoint ranges. */
  lemma LiveApart(h: Heap, live: Live, a: nat, b: nat)
    requires Placed(h) && LiveBlocks(h, live) && a in live && b in live && a != b
    ensures Disjoint(a, Capacity(h, a), b, Capacity(h, b))
  {
    var p: nat, q: nat := PageOfAddr(a), PageOfAddr(b);
    LiveIsInsideArena(h, live, a);
    LiveIsInsideArena(h, live, b);
    if p == q {
      assert h.arenas[p].Small?;
      var i: nat :| BlockOf(h, a, p, i);
      var j: nat :| BlockOf(h, b, p, j);
      if i < j {
        BlocksApart(p, h.arenas[p].cls, i, j);
      } else {
        BlocksApart(p, h.arenas[p].cls, j, i);
      }
    } else if p + Span(h.arenas[p]) <= q {
      assert (p + Span(h.arenas[p])) * PAGE_SIZE <= q * PAGE_SIZE;
    } else {
      assert (q + Span(h.arenas[q])) * PAGE_SIZE <= p * PAGE_SIZE;
    }
  }

  /** A live allocation overlaps no arena header. */
  lemma LiveOffHeaders(h: Heap, live: Live, a: nat, q: nat)
    requires Placed(h) && LiveBlocks(h, live) && a in live && q in h.arenas
    ensures Disjoint(a, Capacity(h, a), q * PAGE_SIZE, HEADER)
  {
    var p := PageOfAddr(a);
    LiveIsInsideArena(h, live, a);
    if p < q {
      assert p + Span(h.arenas[p]) <= q;
      assert (p + Span(h.arenas[p])) * PAGE_SIZE <= q * PAGE_SIZE;
    } else if q < p {
      assert q * PAGE_SIZE + PAGE_SIZE <= p * PAGE_SIZE;
    }
  }

  /** A live allocation overlaps no free block. */
  lemma LiveOffFree(h: Heap, live: Live, a: nat, b: nat, c: nat)
    requires Placed(h) && Listed(h) && LiveBlocks(h, live) && a in live && IsFree(h, b, c)
    ensures Disjoint(a, Capacity(h, a), b, BlockSize(c))
  {
    var p: nat, q: nat := PageOfAddr(a), PageOfAddr(b);
    var j: nat :| BlockOf(h, b, q, j) && h.arenas[q].cls == c;
    BlockOffset(c, j);
    LiveIsInsideArena(h, live, a);
    if p == q {
      var i: nat :| BlockOf(h, a, p, i);
      if i < j {
        BlocksApart(p, c, i, j);
      } else if j < i {
        BlocksApart(p, c, j, i);
      }
    } else if p + Span(h.arenas[p]) <= q {
      assert (p + Span(h.arenas[p])) * PAGE_SIZE <= q * PAGE_SIZE;
    } else {
      assert q + 1 <= p;
      assert (q + 1) * PAGE_SIZE <= p * PAGE_SIZE;
    }
  }

  /** When nothing is live no arena is left, and the page bitmap is bit for bit what it was. */
  lemma AllFreedRestoresBitmap(h: Heap, start: seq<bool>)
    requires Inv(h, map[], start)
    ensures h.arenas == map[] && h.bits == start
  {
    if p :| p in h.arenas {
      if h.arenas[p].Small? {
        var i := SomeUsedBlock(h, p, h.arenas[p].cls);
      }
      assert false;
    }
    forall i | 0 <= i < |start|
      ensures h.bits[i] == start[i]
    {
      assert !Covered(h, h.base + i);
      assert BitSet(h.bits, h.base, h.base + i) == BitSet(start, h.base, h.base + i);
    }
  }

  lemma SomeUsedBlock(h: Heap, p: nat, c: nat) returns (i: nat)
    requires |FreeIdx(h, p, c)| < TotalBlock(c)
    ensures i < TotalBlock(c) && !IsFree(h, BlockAddr(p, c, i), c)
  {
    var all := Indices(TotalBlock(c));
    CardMonotone(all, FreeIdx(h, p, c));
    i :| i in all && i !in FreeIdx(h, p, c);
  }

  function Indices(n: nat): (r: set<nat>)
    ensures |r| == n
    ensures forall k: nat :: k in r <==> k < n
  {
    if n == 0 then {} else Indices(n - 1) + {n - 1}
  }

  lemma CardMonotone<T>(a: set<T>, b: set<T>)
    ensures a <= b ==> |a| <= |b|
  {
    assert a <= b ==> |b - a| == |b| - |a|;
  }

  /** The capacity of an allocation covers the request unless size + 16 wraps around; then, for
      sizes within 15 bytes of 2^32, one page is handed out for a request of nearly four gigabytes. */
  lemma LargeCoversRequest(size: nat)
    requires 1024 < size < WORD && LargePages(size) > 0
    ensures LargePages(size) * PAGE_SIZE - HEADER >= size <==> size + HEADER < WORD
    ensures size + HEADER >= WORD ==> LargePages(size) == 1
  {}

  lemma LargeWraps()
    ensures LargePages(0xFFFF_FFF5) == 1
  {}

  // ---------------------------------------------------------------- kmalloc from a free list

  /** What a step must not change for the arenas other than p: their header and their free blocks. */
  ghost predicate OthersKept(h: Heap, h': Heap, p: nat) {
    && h'.base == h.base && |h'.free| == |h.free|
    && (forall q :: q != p ==> (q in h'.arenas <==> q in h.arenas) && (q in h.arenas ==> h'.arenas[q] == h.arenas[q]))
    && (forall a, c :: PageOfAddr(a) != p ==> (IsFree(h', a, c) <==> IsFree(h, a, c)))
  }

  lemma OthersCounted(h: Heap, h': Heap, p: nat, q: nat)
    requires Placed(h) && OthersKept(h, h', p) && q != p && q in h.arenas && h.arenas[q].Small?
    ensures FreeIdx(h', q, h.arenas[q].cls) == FreeIdx(h, q, h.arenas[q].cls)
  {
    var c := h.arenas[q].cls;
    forall i: nat | i < TotalBlock(c)
      ensures IsFree(h', BlockAddr(q, c, i), c) <==> IsFree(h, BlockAddr(q, c, i), c)
    {
      MaskFindsHeader(q, c, i);
    }
  }

  lemma OthersLive(h: Heap, h': Heap, p: nat, a: nat)
    requires OthersKept(h, h', p) && PageOfAddr(a) != p && LiveAt(h, a)
    ensures LiveAt(h', a)
  {
    var q := PageOfAddr(a);
    if h.arenas[q].Small? {
      var i: nat :| BlockOf(h, a, q, i);
      assert BlockOf(h', a, q, i);
    }
  }

  /** One block of arena p moves between its free list and its user. */
  ghost predicate BlockMoved(h: Heap, h': Heap, p: nat, i: nat, n: int) {
    && p in h.arenas && h.arenas[p].Small? && i < TotalBlock(h.arenas[p].cls)
    && OthersKept(h, h', p) && h'.bits == h.bits
    && p in h'.arenas && h'.arenas[p] == Small(h.arenas[p].cls, n)
    && (forall a, c :: a != BlockAddr(p, h.arenas[p].cls, i) || c != h.arenas[p].cls ==> (IsFree(h', a, c) <==> IsFree(h, a, c)))
  }

  lemma BlockMovedPlaced(h: Heap, h': Heap, p: nat, i: nat, n: int, start: seq<bool>)
    requires Placed(h) && OnTop(h, start) && BlockMoved(h, h', p, i, n)
    ensures Placed(h') && OnTop(h', start)
  {
    assert h'.arenas.Keys == h.arenas.Keys;
    assert forall q, page :: InArena(h', q, page) <==> InArena(h, q, page);
    forall page: nat
      ensures Covered(h', page) <==> Covered(h, page)
    {
      if q: nat :| InArena(h, q, page) {
        assert InArena(h', q, page);
      }
    }
  }

  lemma BlockMovedLive(h: Heap, h': Heap, p: nat, i: nat, n: int, a: nat)
    requires Placed(h) && BlockMoved(h, h', p, i, n) && LiveAt(h, a) && a != BlockAddr(p, h.arenas[p].cls, i)
    ensures LiveAt(h', a)
  {
    if PageOfAddr(a) != p {
      OthersLive(h, h', p, a);
    } else {
      var j: nat :| BlockOf(h, a, p, j);
      assert BlockOf(h', a, p, j);
    }
  }

  lemma MovedBlockLive(h: Heap, h': Heap, p: nat, i: nat, n: int)
    requires Placed(h) && BlockMoved(h, h', p, i, n) && !IsFree(h', BlockAddr(p, h.arenas[p].cls, i), h.arenas[p].cls)
    ensures LiveAt(h', BlockAddr(p, h.arenas[p].cls, i))
  {
    MaskFindsHeader(p, h.arenas[p].cls, i);
    assert BlockOf(h', BlockAddr(p, h.arenas[p].cls, i), p, i);
  }

  lemma BlockMovedCounted(h: Heap, h': Heap, p: nat, i: nat, n: int)
    requires Placed(h) && Counted(h) && BlockMoved(h, h', p, i, n)
    requires var c, a := h.arenas[p].cls, BlockAddr(p, h.arenas[p].cls, i);
      || (IsFree(h, a, c) && !IsFree(h', a, c) && n == h.arenas[p].count - 1)
      || (!IsFree(h, a, c) && IsFree(h', a, c) && n == h.arenas[p].count + 1 < TotalBlock(c))
    ensures Counted(h')
  {
    var c, a := h.arenas[p].cls, BlockAddr(p, h.arenas[p].cls, i);
    forall j: nat | j < TotalBlock(c) && j != i
      ensures BlockAddr(p, c, j) != a
    {
      if BlockAddr(p, c, j) == a {
        BlockAddrInjective(p, c, i, p, c, j);
      }
    }
    var before, after := FreeIdx(h, p, c), FreeIdx(h', p, c);
    if IsFree(h, a, c) {
      assert after == before - {i};
    } else {
      assert after == before + {i};
    }
    forall q | q in h'.arenas && h'.arenas[q].Small?
      ensures h'.arenas[q].count == |FreeIdx(h', q, h'.arenas[q].cls)| < TotalBlock(h'.arenas[q].cls)
    {
      if q != p {
        OthersCounted(h, h', p, q);
      }
    }
  }

  lemma PopMoves(h: Heap, c: nat) returns (i: nat)
    requires Placed(h) && Listed(h) && c < CLASSES && h.free[c] != []
    ensures Pop(h, c).Some?
    ensures var (h', a) := Pop(h, c).value; var p := PageOfAddr(a);
      && p in h.arenas && h.arenas[p].Small? && h.arenas[p].cls == c && i < TotalBlock(c) && a == BlockAddr(p, c, i)
      && BlockMoved(h, h', p, i, h.arenas[p].count - 1) && IsFree(h, a, c) && !IsFree(h', a, c)
      && Listed(h')
  {
    var a := h.free[c][0];
    var p := PageOfAddr(a);
    assert IsFree(h, a, c);
    i :| BlockOf(h, a, p, i) && h.arenas[p].cls == c;
    var h' := Pop(h, c).value.0;
    forall x, d
      ensures IsFree(h', x, d) <==> IsFree(h, x, d) && !(x == a && d == c)
    {}
    forall d, x | IsFree(h', x, d)
      ensures exists j: nat :: BlockOf(h', x, PageOfAddr(x), j) && h'.arenas[PageOfAddr(x)].cls == d
    {
      var j: nat :| BlockOf(h, x, PageOfAddr(x), j) && h.arenas[PageOfAddr(x)].cls == d;
      assert BlockOf(h', x, PageOfAddr(x), j);
    }
  }

  lemma PopComplete(h: Heap, h': Heap, p: nat, i: nat, n: int, live: Live, size: nat)
    requires Complete(h, live) && BlockMoved(h, h', p, i, n)
    ensures Complete(h', live[BlockAddr(p, h.arenas[p].cls, i) := size])
  {}

  /** kmalloc from a non-empty free list. */
  lemma PopKeeps(h: Heap, live: Live, start: seq<bool>, c: nat, size: nat)
    requires Inv(h, live, start) && c < CLASSES && h.free[c] != []
    ensures Pop(h, c).Some?
    ensures var (h', a) := Pop(h, c).value;
      Inv(h', live[a := size], start) && a !in live && Capacity(h', a) == BlockSize(c)
  {
    var i := PopMoves(h, c);
    var (h', a) := Pop(h, c).value;
    var p := PageOfAddr(a);
    BlockMovedPlaced(h, h', p, i, h.arenas[p].count - 1, start);
    BlockMovedCounted(h, h', p, i, h.arenas[p].count - 1);
    MovedBlockLive(h, h', p, i, h.arenas[p].count - 1);
    assert !LiveAt(h, a);
    forall b | b in live
      ensures LiveAt(h', b)
    {
      BlockMovedLive(h, h', p, i, h.arenas[p].count - 1, b);
    }
    PopComplete(h, h', p, i, h.arenas[p].count - 1, live, size);
  }

  // ---------------------------------------------------------------- kfree back to a free list

  lemma PushMoves(h: Heap, a: nat, i: nat)
    requires Placed(h) && Listed(h)
    requires var p := PageOfAddr(a);
      BlockOf(h, a, p, i) && !IsFree(h, a, h.arenas[p].cls) && h.arenas[p].count + 1 != TotalBlock(h.arenas[p].cls)
    ensures Kfree(h, a).Some?
    ensures var h', p := Kfree(h, a).value, PageOfAddr(a);
      BlockMoved(h, h', p, i, h.arenas[p].count + 1) && IsFree(h', a, h.arenas[p].cls) && Listed(h')
  {
    var p := PageOfAddr(a);
    var c := h.arenas[p].cls;
    var h' := Kfree(h, a).value;
    forall x, d
      ensures IsFree(h', x, d) <==> IsFree(h, x, d) || (x == a && d == c)
    {}
    forall d, x | IsFree(h', x, d)
      ensures exists j: nat :: BlockOf(h', x, PageOfAddr(x), j) && h'.arenas[PageOfAddr(x)].cls == d
    {
      if IsFree(h, x, d) {
        var j: nat :| BlockOf(h, x, PageOfAddr(x), j) && h.arenas[PageOfAddr(x)].cls == d;
        assert BlockOf(h', x, PageOfAddr(x), j);
      } else {
        assert BlockOf(h', x, PageOfAddr(x), i);
      }
    }
  }

  lemma PushComplete(h: Heap, h': Heap, p: nat, i: nat, n: int, live: Live)
    requires Placed(h) && Complete(h, live) && BlockMoved(h, h', p, i, n)
    requires IsFree(h', BlockAddr(p, h.arenas[p].cls, i), h.arenas[p].cls)
    ensures Complete(h', live - {BlockAddr(p, h.arenas[p].cls, i)})
  {
    forall q | q in h'.arenas && h'.arenas[q].Large?
      ensures q * PAGE_SIZE + HEADER in live - {BlockAddr(p, h.arenas[p].cls, i)}
    {
      assert q != p;
      LargeIsNoBlock(q, p, h.arenas[p].cls, i);
    }
    forall q, j: nat | q in h'.arenas && q != p && h'.arenas[q].Small? && j < TotalBlock(h'.arenas[q].cls)
      ensures BlockAddr(q, h'.arenas[q].cls, j) != BlockAddr(p, h.arenas[p].cls, i)
    {
      MaskFindsHeader(p, h.arenas[p].cls, i);
      MaskFindsHeader(q, h'.arenas[q].cls, j);
    }
    hide BlockAddr, TotalBlock;
  }

  lemma LargeIsNoBlock(q: nat, p: nat, c: nat, i: nat)
    requires q != p && c < CLASSES && i < TotalBlock(c)
    ensures q * PAGE_SIZE + HEADER != BlockAddr(p, c, i)
  {
    MaskFindsHeader(p, c, i);
  }

  /** kfree of a block whose arena keeps other live blocks. */
  lemma PushKeeps(h: Heap, live: Live, start: seq<bool>, a: nat, i: nat)
    requires Inv(h, live, start) && a in live
    requires var p := PageOfAddr(a); BlockOf(h, a, p, i) && h.arenas[p].count + 1 != TotalBlock(h.arenas[p].cls)
    ensures Kfree(h, a).Some? && Inv(Kfree(h, a).value, live - {a}, start)
  {
    var p := PageOfAddr(a);
    assert LiveAt(h, a);
    PushMoves(h, a, i);
    var h' := Kfree(h, a).value;
    var n := h.arenas[p].count + 1;
    BlockMovedPlaced(h, h', p, i, n, start);
    BlockMovedCounted(h, h', p, i, n);
    forall b | b in live && b != a
      ensures LiveAt(h', b)
    {
      BlockMovedLive(h, h', p, i, n, b);
    }
    PushComplete(h, h', p, i, n, live);
  }

  // ---------------------------------------------------------------- new arenas

  /** An arena appears at page p on `count` clear bits. */
  ghost predicate ArenaAdded(h: Heap, h': Heap, p: nat, arena: Arena) {
    && h'.base == h.base && h.base <= p && Span(arena) > 0 && (arena.Small? ==> arena.cls < CLASSES)
    && ClearRun(h.bits, p - h.base, Span(arena))
    && h'.bits == FillRun(h.bits, p - h.base, Span(arena), true)
    && h'.arenas == h.arenas[p := arena]
  }

  lemma AddedApart(h: Heap, h': Heap, p: nat, arena: Arena, q: nat)
    requires Placed(h) && ArenaAdded(h, h', p, arena) && q in h.arenas
    ensures q != p && (p + Span(arena) <= q || q + Span(h.arenas[q]) <= p)
  {
    var page := if p < q then q else p;
    assert InArena(h, q, page) ==> BitSet(h.bits, h.base, page);
    assert p <= page < p + Span(arena) ==> !BitSet(h.bits, h.base, page);
  }

  lemma AddedPlaced(h: Heap, h': Heap, p: nat, arena: Arena, start: seq<bool>)
    requires Placed(h) && OnTop(h, start) && ArenaAdded(h, h', p, arena)
    ensures Placed(h') && OnTop(h', start)
    ensures p !in h.arenas
  {
    forall q | q in h.arenas
      ensures q != p && (p + Span(arena) <= q || q + Span(h.arenas[q]) <= p)
    {
      AddedApart(h, h', p, arena, q);
    }
    forall q: nat, page: nat
      ensures InArena(h', q, page) <==> InArena(h, q, page) || (q == p && p <= page < p + Span(arena))
    {}
    forall page: nat
      ensures BitSet(h'.bits, h.base, page) <==> BitSet(h.bits, h.base, page) || p <= page < p + Span(arena)
      ensures p <= page < p + Span(arena) ==> !BitSet(h.bits, h.base, page)
    {}
    forall page: nat
      ensures Covered(h', page) <==> Covered(h, page) || p <= page < p + Span(arena)
    {
      if q: nat :| InArena(h, q, page) {
        assert InArena(h', q, page);
      }
      if p <= page < p + Span(arena) {
        assert InArena(h', p, page);
      }
    }
  }

  /** A large request adds one arena and leaves the free lists alone. */
  lemma LargeAdds(h: Heap, size: nat, p: nat)
    requires MallocLarge(h, size).Some? && p == h.base + FindRun(h.bits, LargePages(size), 0).value
    ensures var (h', a) := MallocLarge(h, size).value;
      && a == p * PAGE_SIZE + HEADER && PageOfAddr(a) == p
      && ArenaAdded(h, h', p, Large(LargePages(size))) && OthersKept(h, h', p) && h'.free == h.free
      && Capacity(h', a) == LargePages(size) * PAGE_SIZE - HEADER && LiveAt(h', a)
  {
    var (h', a) := MallocLarge(h, size).value;
    assert PageOfAddr(a) == p;
  }

  lemma LargeComplete(h: Heap, h': Heap, p: nat, live: Live, size: nat, n: nat)
    requires Complete(h, live) && h'.arenas == h.arenas[p := Large(n)] && h'.free == h.free
    ensures Complete(h', live[p * PAGE_SIZE + HEADER := size])
  {
    hide BlockAddr, TotalBlock;
  }

  lemma LargeListed(h: Heap, h': Heap, p: nat)
    requires Listed(h) && OthersKept(h, h', p) && h'.free == h.free && p !in h.arenas
    ensures Listed(h')
  {
    hide BlockAddr, TotalBlock, PageOfAddr;
    NothingAtFreshPage(h, p);
    OthersStayListed(h, h', p);
    assert forall a, c :: IsFree(h', a, c) <==> IsFree(h, a, c);
  }

  /** kmalloc of more than 1024 bytes. */
  lemma LargeKeeps(h: Heap, live: Live, start: seq<bool>, size: nat)
    requires Inv(h, live, start) && MallocLarge(h, size).Some?
    ensures var (h', a) := MallocLarge(h, size).value;
      && Inv(h', live[a := size], start) && a !in live
      && Capacity(h', a) == LargePages(size) * PAGE_SIZE - HEADER
  {
    var (h', a) := MallocLarge(h, size).value;
    var p := h.base + FindRun(h.bits, LargePages(size), 0).value;
    LargeAdds(h, size, p);
    hide MallocLarge, Listed, Placed, OnTop, ArenaAdded, Complete, LargePages, FindRun, FillRun, BlockAddr, BlockSize,
      TotalBlock, LiveAt, IsFree, FreeIdx, PageOfAddr, Capacity;
    AddedPlaced(h, h', p, Large(LargePages(size)), start);
    NothingAtFreshPage(h, p);
    forall b | b in live
      ensures LiveAt(h', b)
    {
      OthersLive(h, h', p, b);
    }
    assert a in live ==> LiveAt(h, a);
    OthersStayCounted(h, h', p);
    LargeListed(h, h', p);
    LargeComplete(h, h', p, live, size, LargePages(size));
  }

  lemma OthersStayCounted(h: Heap, h': Heap, p: nat)
    requires Placed(h) && Counted(h) && OthersKept(h, h', p)
    ensures forall q :: q != p && q in h'.arenas && h'.arenas[q].Small? ==>
      h'.arenas[q].count == |FreeIdx(h', q, h'.arenas[q].cls)| < TotalBlock(h'.arenas[q].cls)
  {
    forall q | q != p && q in h'.arenas && h'.arenas[q].Small?
      ensures h'.arenas[q].count == |FreeIdx(h', q, h'.arenas[q].cls)| < TotalBlock(h'.arenas[q].cls)
    {
      OthersCounted(h, h', p, q);
    }
  }

  lemma OthersStayListed(h: Heap, h': Heap, p: nat)
    requires Listed(h) && OthersKept(h, h', p)
    ensures forall c, a :: IsFree(h', a, c) && PageOfAddr(a) != p ==>
      exists i: nat :: BlockOf(h', a, PageOfAddr(a), i) && h'.arenas[PageOfAddr(a)].cls == c
  {
    forall c, a | IsFree(h', a, c) && PageOfAddr(a) != p
      ensures exists i: nat :: BlockOf(h', a, PageOfAddr(a), i) && h'.arenas[PageOfAddr(a)].cls == c
    {
      var i: nat :| BlockOf(h, a, PageOfAddr(a), i) && h.arenas[PageOfAddr(a)].cls == c;
      assert BlockOf(h', a, PageOfAddr(a), i);
    }
  }

  /** No free block and no live address has a page without an arena. */
  lemma NothingAtFreshPage(h: Heap, p: nat)
    requires Listed(h) && p !in h.arenas
    ensures forall a, c :: IsFree(h, a, c) ==> PageOfAddr(a) != p
    ensures forall a :: LiveAt(h, a) ==> PageOfAddr(a) != p
  {
    forall a, c | IsFree(h, a, c)
      ensures PageOfAddr(a) != p
    {
      var i: nat :| BlockOf(h, a, PageOfAddr(a), i);
    }
  }

  // ---------------------------------------------------------------- a new page of blocks

  /** a is one of the first n blocks of page p. */
  ghost predicate InFirst(a: nat, p: nat, c: nat, n: nat) {
    exists i: nat :: i < n && a == BlockAddr(p, c, i)
  }

  lemma InFirstNext(a: nat, p: nat, c: nat, n: nat)
    ensures !InFirst(a, p, c, 0)
    ensures InFirst(a, p, c, n + 1) <==> InFirst(a, p, c, n) || a == BlockAddr(p, c, n)
  {
    hide BlockAddr;
    if i: nat :| i < n + 1 && a == BlockAddr(p, c, i) {
      assert i < n || i == n;
    }
  }

  lemma {:induction false} PushBlocksMembers(list: seq<nat>, p: nat, c: nat, n: nat)
    ensures forall a :: a in PushBlocks(list, p, c, n) <==> a in list || InFirst(a, p, c, n)
  {
    hide BlockAddr, InFirst;
    forall a
      ensures a in PushBlocks(list, p, c, n) <==> a in list || InFirst(a, p, c, n)
    {
      if n == 0 {
        InFirstNext(a, p, c, 0);
      } else {
        PushBlocksMembers(list, p, c, n - 1);
        InFirstNext(a, p, c, n - 1);
        assert PushBlocks(list, p, c, n) == [BlockAddr(p, c, n - 1)] + PushBlocks(list, p, c, n - 1);
      }
    }
  }

  lemma {:induction false} PushBlocksDistinct(p: nat, c: nat, n: nat)
    requires c < CLASSES
    ensures Distinct(PushBlocks([], p, c, n))
  {
    hide BlockAddr;
    if n > 0 {
      PushBlocksDistinct(p, c, n - 1);
      PushBlocksMembers([], p, c, n - 1);
      forall i: nat | i < n - 1
        ensures BlockAddr(p, c, i) != BlockAddr(p, c, n - 1)
      {
        BlocksDiffer(p, c, i, n - 1);
      }
      assert BlockAddr(p, c, n - 1) !in PushBlocks([], p, c, n - 1);
      assert PushBlocks([], p, c, n) == [BlockAddr(p, c, n - 1)] + PushBlocks([], p, c, n - 1);
    }
  }

  lemma BlocksDiffer(p: nat, c: nat, i: nat, j: nat)
    requires c < CLASSES && i < j
    ensures BlockAddr(p, c, i) != BlockAddr(p, c, j)
  {
    BlocksApart(p, c, i, j);
  }

  /** The heap after kmalloc took the last block of a new page of class c. */
  ghost function Opened(h: Heap, c: nat, p: nat): Heap
    requires c < |h.free| && h.base <= p < h.base + |h.bits|
  {
    Heap(FillRun(h.bits, p - h.base, 1, true), h.base, h.arenas[p := Small(c, TotalBlock(c) - 1)],
         h.free[c := PushBlocks([], p, c, TotalBlock(c) - 1)])
  }

  lemma OpenedIsMalloc(h: Heap, c: nat, p: nat)
    requires c < CLASSES == |h.free| && h.free[c] == [] && FindRun(h.bits, 1, 0).Some?
    requires p == h.base + FindRun(h.bits, 1, 0).value
    ensures NewArena(h, c).Some? && |NewArena(h, c).value.free| == CLASSES
    ensures Pop(NewArena(h, c).value, c) == Some((Opened(h, c, p), BlockAddr(p, c, TotalBlock(c) - 1)))
  {
    MaskFindsHeader(p, c, TotalBlock(c) - 1);
    var h1 := NewArena(h, c).value;
    assert h1.free[c][1..] == PushBlocks([], p, c, TotalBlock(c) - 1);
    assert h1.free[c := h1.free[c][1..]] == Opened(h, c, p).free;
    assert h1.arenas[p := Small(c, TotalBlock(c) - 1)] == Opened(h, c, p).arenas;
  }

  lemma OpenedFree(h: Heap, c: nat, p: nat)
    requires Listed(h) && c < CLASSES && h.free[c] == [] && h.base <= p < h.base + |h.bits| && p !in h.arenas
    ensures forall a, d :: IsFree(Opened(h, c, p), a, d) <==>
      IsFree(h, a, d) || (d == c && InFirst(a, p, c, TotalBlock(c) - 1))
    ensures OthersKept(h, Opened(h, c, p), p)
  {
    PushBlocksMembers([], p, c, TotalBlock(c) - 1);
    forall a | InFirst(a, p, c, TotalBlock(c) - 1)
      ensures PageOfAddr(a) == p
    {
      var i: nat :| i < TotalBlock(c) - 1 && a == BlockAddr(p, c, i);
      MaskFindsHeader(p, c, i);
    }
    hide InFirst, BlockAddr, TotalBlock, PageOfAddr, FillRun, PushBlocks;
  }

  lemma OpenedFreeIdx(h: Heap, c: nat, p: nat)
    requires Listed(h) && c < CLASSES && h.free[c] == [] && h.base <= p < h.base + |h.bits| && p !in h.arenas
    ensures FreeIdx(Opened(h, c, p), p, c) == Indices(TotalBlock(c) - 1)
  {
    OpenedFree(h, c, p);
    NothingAtFreshPage(h, p);
    forall i: nat | i < TotalBlock(c)
      ensures PageOfAddr(BlockAddr(p, c, i)) == p
    {
      MaskFindsHeader(p, c, i);
    }
    forall i: nat | i < TotalBlock(c) - 1
      ensures BlockAddr(p, c, i) != BlockAddr(p, c, TotalBlock(c) - 1)
    {
      BlocksDiffer(p, c, i, TotalBlock(c) - 1);
    }
    hide BlockAddr, TotalBlock, PageOfAddr, Opened, Listed, IsFree;
  }

  lemma OpenedListed(h: Heap, c: nat, p: nat)
    requires Listed(h) && c < CLASSES && h.free[c] == [] && h.base <= p < h.base + |h.bits| && p !in h.arenas
    ensures Listed(Opened(h, c, p))
  {
    var h' := Opened(h, c, p);
    OpenedFree(h, c, p);
    PushBlocksDistinct(p, c, TotalBlock(c) - 1);
    OthersStayListed(h, h', p);
    forall d, a | IsFree(h', a, d) && PageOfAddr(a) == p
      ensures exists i: nat :: BlockOf(h', a, PageOfAddr(a), i) && h'.arenas[PageOfAddr(a)].cls == d
    {
      NothingAtFreshPage(h, p);
      var i: nat :| i < TotalBlock(c) - 1 && a == BlockAddr(p, c, i);
      assert BlockOf(h', a, p, i);
    }
  }

  /** A block other than the last of the new page is on the free list. */
  lemma OpenedOwnBlocks(h: Heap, c: nat, p: nat, i: nat)
    requires Listed(h) && c < CLASSES && h.free[c] == [] && p !in h.arenas
    requires h.base <= p < h.base + |h.bits| && i < TotalBlock(c)
    ensures IsFree(Opened(h, c, p), BlockAddr(p, c, i), c) <==> i != TotalBlock(c) - 1
  {
    OpenedFreeIdx(h, c, p);
    assert i in FreeIdx(Opened(h, c, p), p, c) <==> i < TotalBlock(c) - 1;
  }

  /** The blocks of the other arenas are free or not as before. */
  lemma OpenedOtherBlocks(h: Heap, c: nat, p: nat, q: nat, d: nat, i: nat)
    requires Listed(h) && c < CLASSES && h.free[c] == [] && p !in h.arenas
    requires h.base <= p < h.base + |h.bits| && d < CLASSES && i < TotalBlock(d) && q != p
    ensures IsFree(Opened(h, c, p), BlockAddr(q, d, i), d) <==> IsFree(h, BlockAddr(q, d, i), d)
  {
    OpenedFree(h, c, p);
    MaskFindsHeader(q, d, i);
    hide Opened, Listed, IsFree;
  }

  lemma OpenedComplete(h: Heap, live: Live, c: nat, p: nat, size: nat)
    requires Placed(h) && Listed(h) && Complete(h, live) && c < CLASSES && h.free[c] == [] && p !in h.arenas
    requires h.base <= p < h.base + |h.bits|
    ensures Complete(Opened(h, c, p), live[BlockAddr(p, c, TotalBlock(c) - 1) := size])
  {
    var h' := Opened(h, c, p);
    forall q, i: nat | q in h'.arenas && h'.arenas[q].Small? && i < TotalBlock(h'.arenas[q].cls)
      && !IsFree(h', BlockAddr(q, h'.arenas[q].cls, i), h'.arenas[q].cls)
      ensures BlockAddr(q, h'.arenas[q].cls, i) in live[BlockAddr(p, c, TotalBlock(c) - 1) := size]
    {
      hide BlockAddr, TotalBlock, Listed, FillRun, PushBlocks, IsFree;
      if q == p {
        OpenedOwnBlocks(h, c, p, i);
      } else {
        OpenedOtherBlocks(h, c, p, q, h.arenas[q].cls, i);
      }
    }
  }

  /** kmalloc that opens a new page. */
  lemma OpenKeeps(h: Heap, live: Live, start: seq<bool>, c: nat, p: nat, size: nat)
    requires Inv(h, live, start) && c < CLASSES && h.free[c] == [] && FindRun(h.bits, 1, 0).Some?
    requires p == h.base + FindRun(h.bits, 1, 0).value
    ensures var h', a := Opened(h, c, p), BlockAddr(p, c, TotalBlock(c) - 1);
      Inv(h', live[a := size], start) && a !in live && Capacity(h', a) == BlockSize(c)
  {
    var h', a := Opened(h, c, p), BlockAddr(p, c, TotalBlock(c) - 1);
    AddedPlaced(h, h', p, Small(c, TotalBlock(c) - 1), start);
    OpenedListed(h, c, p);
    OpenedFree(h, c, p);
    OpenedFreeIdx(h, c, p);
    OthersStayCounted(h, h', p);
    NothingAtFreshPage(h, p);
    OpenedComplete(h, live, c, p, size);
    MaskFindsHeader(p, c, TotalBlock(c) - 1);
    assert BlockOf(h', a, p, TotalBlock(c) - 1);
    assert TotalBlock(c) - 1 !in FreeIdx(h', p, c);
    assert LiveAt(h', a) && Capacity(h', a) == BlockSize(c);
    assert Counted(h');
    hide BlockAddr, BlockOf, TotalBlock, IsFree, FreeIdx, Complete, Placed, OnTop, Listed, Counted, FillRun, PushBlocks, InFirst;
    forall b | b in live
      ensures LiveAt(h', b)
    {
      OthersLive(h, h', p, b);
    }
  }
}
