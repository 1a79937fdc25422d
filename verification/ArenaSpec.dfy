/** The kernel heap of kernel/arena.c: pages of equal blocks in seven size classes, whole pages for
    larger requests, and a header at the start of every page that the pointer's high bits recover.

    Addresses are page numbers times 4096 plus an offset; page `base` is bit 0 of the page bitmap. */
module ArenaSpec {
  import opened Basics
  import opened Bitmaps
  import opened Sequences

  const HEADER := 16
  const CLASSES := 7
  const WORD := 0x1_0000_0000

  /** arena_t: the size class or the page count of a large arena. */
  datatype Arena = Small(cls: nat, count: int) | Large(pages: nat)

  datatype Heap = Heap(bits: seq<bool>, base: nat, arenas: map<nat, Arena>, free: seq<seq<nat>>)

  // ---------------------------------------------------------------- blocks of a page

  function BlockSize(c: nat): (r: nat)
    ensures r >= 16
  {
    if c == 0 then 16 else if c == 1 then 32 else if c == 2 then 64 else if c == 3 then 128
    else if c == 4 then 256 else if c == 5 then 512 else 1024
  }

  function TotalBlock(c: nat): (r: nat)
    ensures 0 < r <= 255
  {
    (PAGE_SIZE - HEADER) / BlockSize(c)
  }

  /** The classes are the powers of two from 16 to 1024, and a page holds as many blocks of one as fit behind its
      header: one more would not. */
  lemma PagesAreFull(c: nat)
    requires c < CLASSES
    ensures BlockSize(0) == 16 && BlockSize(CLASSES - 1) == 1024 && (c + 1 < CLASSES ==> BlockSize(c + 1) == 2 * BlockSize(c))
    ensures 16 + TotalBlock(c) * BlockSize(c) <= 4096 < 16 + (TotalBlock(c) + 1) * BlockSize(c)
  {
    assert TotalBlock(c) == [255, 127, 63, 31, 15, 7, 3][c];
  }

  /** get_arena_block */
  function BlockAddr(page: nat, c: nat, i: nat): nat {
    page * PAGE_SIZE + HEADER + i * BlockSize(c)
  }

  /** get_block_arena: the address with its low twelve bits masked off, as a page number. */
  function PageOfAddr(a: nat): nat {
    a / PAGE_SIZE
  }

  /** Blocks follow each other behind the header of sixteen bytes. */
  lemma BlockPlace(page: nat, c: nat, i: nat)
    ensures BlockAddr(page, c, 0) == page * 4096 + 16
    ensures BlockAddr(page, c, i + 1) == BlockAddr(page, c, i) + BlockSize(c)
  {
    assert (i + 1) * BlockSize(c) == i * BlockSize(c) + BlockSize(c);
  }

  /** i blocks of a class fit in front of block i + 1. */
  lemma BlockOffset(c: nat, i: nat)
    requires c < CLASSES && i < TotalBlock(c)
    ensures HEADER <= HEADER + i * BlockSize(c) && HEADER + i * BlockSize(c) + BlockSize(c) <= PAGE_SIZE
  {
    var n := TotalBlock(c);
    assert n == [255, 127, 63, 31, 15, 7, 3][c];
  }

  /** Masking the address of any block of any class yields the block's own page. */
  lemma MaskFindsHeader(page: nat, c: nat, i: nat)
    requires c < CLASSES && i < TotalBlock(c)
    ensures PageOfAddr(BlockAddr(page, c, i)) == page
    ensures PageOfAddr(page * PAGE_SIZE + HEADER) == page
  {
    BlockOffset(c, i);
  }

  /** Distinct blocks of one page do not overlap. */
  lemma BlocksApart(page: nat, c: nat, i: nat, j: nat)
    requires c < CLASSES && i < j
    ensures BlockAddr(page, c, i) + BlockSize(c) <= BlockAddr(page, c, j)
  {
    assert c == 0 || c == 1 || c == 2 || c == 3 || c == 4 || c == 5 || c == 6;
  }

  lemma BlockAddrInjective(p: nat, c: nat, i: nat, q: nat, d: nat, j: nat)
    requires c < CLASSES && d < CLASSES && i < TotalBlock(c) && j < TotalBlock(d)
    requires BlockAddr(p, c, i) == BlockAddr(q, d, j)
    ensures p == q && (c == d ==> i == j)
  {
    MaskFindsHeader(p, c, i);
    MaskFindsHeader(q, d, j);
    if c == d && i < j {
      BlocksApart(p, c, i, j);
    } else if c == d && j < i {
      BlocksApart(p, c, j, i);
    }
  }

  // ---------------------------------------------------------------- kmalloc

  /** The search for the smallest class that is large enough, from class c on. */
  function ClassFor(size: nat, c: nat): (r: nat)
    requires size <= 1024 && c < CLASSES
    ensures c <= r < CLASSES && BlockSize(r) >= size
    ensures forall d :: c <= d < r ==> BlockSize(d) < size
    decreases CLASSES - c
  {
    if BlockSize(c) >= size || c == CLASSES - 1 then c else ClassFor(size, c + 1)
  }

  /** The pages of a large request, div_round_up(size + 16, 4096) in 32-bit arithmetic. */
  function LargePages(size: nat): nat {
    ((size + HEADER) % WORD + PAGE_SIZE - 1) % WORD / PAGE_SIZE
  }

  /** A large request gets as many pages as it and the header need, and not one more. */
  lemma LargePagesExact(size: nat)
    requires size + HEADER + PAGE_SIZE - 1 < WORD
    ensures (LargePages(size) - 1) * 4096 < size + 16 <= LargePages(size) * 4096
  {}

  /** A free list after the first n blocks of a page were pushed on it. */
  function PushBlocks(list: seq<nat>, page: nat, c: nat, n: nat): (r: seq<nat>)
    ensures |r| == |list| + n
  {
    if n == 0 then list else [BlockAddr(page, c, n - 1)] + PushBlocks(list, page, c, n - 1)
  }

  /** A request of more than 1024 bytes; None where the kernel halts. */
  ghost function MallocLarge(h: Heap, size: nat): Option<(Heap, nat)> {
    var count := LargePages(size);
    if count == 0 then None
    else match FindRun(h.bits, count, 0)
      case None => None
      case Some(i) =>
        var page := h.base + i;
        Some((Heap(FillRun(h.bits, i, count, true), h.base, h.arenas[page := Large(count)], h.free),
              page * PAGE_SIZE + HEADER))
  }

  /** A new page of class c: every block is pushed on the empty free list. */
  ghost function NewArena(h: Heap, c: nat): Option<Heap>
    requires c < |h.free|
  {
    match FindRun(h.bits, 1, 0)
    case None => None
    case Some(i) =>
      var page := h.base + i;
      Some(Heap(FillRun(h.bits, i, 1, true), h.base, h.arenas[page := Small(c, TotalBlock(c))],
                h.free[c := PushBlocks(h.free[c], page, c, TotalBlock(c))]))
  }

  /** list_pop and the bookkeeping behind it, with the header assertion. */
  function Pop(h: Heap, c: nat): Option<(Heap, nat)>
    requires c < |h.free|
  {
    if h.free[c] == [] then None
    else
      var a := h.free[c][0];
      var page := PageOfAddr(a);
      if page !in h.arenas || h.arenas[page].Large? then None
      else
        var arena := h.arenas[page];
        Some((Heap(h.bits, h.base, h.arenas[page := Small(arena.cls, arena.count - 1)], h.free[c := h.free[c][1..]]), a))
  }

  /** kmalloc */
  ghost function Kmalloc(h: Heap, size: nat): Option<(Heap, nat)>
    requires |h.free| == CLASSES
  {
    if size > 1024 then MallocLarge(h, size)
    else
      var c := ClassFor(size, 0);
      if h.free[c] != [] then Pop(h, c)
      else match NewArena(h, c)
        case None => None
        case Some(h1) => if c < |h1.free| then Pop(h1, c) else None
  }

  // ---------------------------------------------------------------- kfree

  /** A free list after the first n blocks of a page were removed; None when one was not there. */
  function RemoveBlocks(list: seq<nat>, page: nat, c: nat, n: nat): Option<seq<nat>> {
    if n == 0 then Some(list)
    else match RemoveBlocks(list, page, c, n - 1)
      case None => None
      case Some(l) => if BlockAddr(page, c, n - 1) in l then Some(Without(l, BlockAddr(page, c, n - 1))) else None
  }

  /** free_kpage, whose assertions ask for set bits; the header goes with the pages. */
  ghost function FreePages(h: Heap, page: nat, count: nat): Option<Heap> {
    if page < h.base || page - h.base + count > |h.bits| || count == 0 then None
    else if exists i :: page - h.base <= i < page - h.base + count && !h.bits[i] then None
    else Some(Heap(FillRun(h.bits, page - h.base, count, false), h.base, h.arenas - {page}, h.free))
  }

  /** kfree; None where an assertion fails, or where the block already is on its free list. */
  ghost function Kfree(h: Heap, a: nat): Option<Heap>
    requires |h.free| == CLASSES
  {
    var page := PageOfAddr(a);
    if page !in h.arenas then None
    else match h.arenas[page]
      case Large(count) => FreePages(h, page, count)
      case Small(c, count) =>
        if c >= CLASSES || a in h.free[c] then None
        else
          var list := [a] + h.free[c];
          if count + 1 != TotalBlock(c)
          then Some(Heap(h.bits, h.base, h.arenas[page := Small(c, count + 1)], h.free[c := list]))
          else match RemoveBlocks(list, page, c, TotalBlock(c))
            case None => None
            case Some(rest) => FreePages(Heap(h.bits, h.base, h.arenas, h.free[c := rest]), page, 1)
  }
}
