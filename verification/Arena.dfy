/** The heap of kernel/arena.c as the kernel keeps it: descriptors filled by a loop, free lists and
    headers updated in place, pages taken from the kernel page bitmap. */
module Arenas {
  import opened Basics
  import opened Bitmaps
  import opened Sequences
  import opened ArenaSpec
  import Inv = ArenaInvariant
  import Runs = ArenaRuns

  class KernelHeap {
    const pages: Bitmap
    /** desc->block_size and desc->total_block of the seven descriptors */
    var blockSize: seq<nat>
    var totalBlock: seq<nat>
    var arenas: map<nat, Arena>
    var free: seq<seq<nat>>

    predicate Valid()
      reads this
    {
      && |free| == |blockSize| == |totalBlock| == CLASSES
      && forall c :: 0 <= c < CLASSES ==> blockSize[c] == BlockSize(c) && totalBlock[c] == TotalBlock(c)
    }

    ghost function View(): Heap
      reads this, pages.bits
    {
      Heap(pages.View(), pages.offset, arenas, free)
    }

    /** arena_init: the sizes double from 16. */
    constructor (pages: Bitmap)
      ensures Valid() && this.pages == pages
      ensures Runs.Fresh(View())
      ensures blockSize == [16, 32, 64, 128, 256, 512, 1024]
      ensures forall c :: 0 <= c < 7 ==> 16 + totalBlock[c] * blockSize[c] <= 4096 < 16 + (totalBlock[c] + 1) * blockSize[c]
    {
      this.pages := pages;
      arenas, free := map[], [];
      blockSize, totalBlock := [], [];
      new;
      var size := 16;
      var i := 0;
      while i < CLASSES
        invariant 0 <= i <= CLASSES && |free| == |blockSize| == |totalBlock| == i
        invariant size == if i < CLASSES then BlockSize(i) else 2048
        invariant forall c :: 0 <= c < i ==> blockSize[c] == BlockSize(c) && totalBlock[c] == TotalBlock(c) && free[c] == []
        invariant arenas == map[]
      {
        blockSize := blockSize + [size];
        totalBlock := totalBlock + [(PAGE_SIZE - HEADER) / size];
        free := free + [[]];
        size := 2 * size;
        i := i + 1;
      }
      assert free == seq(CLASSES, _ => []);
      forall c | 0 <= c < 7
        ensures blockSize[c] == [16, 32, 64, 128, 256, 512, 1024][c]
        ensures 16 + totalBlock[c] * blockSize[c] <= 4096 < 16 + (totalBlock[c] + 1) * blockSize[c]
      {
        PagesAreFull(c);
      }
    }

    /** The descriptor search of kmalloc. */
    method SearchClass(size: nat) returns (c: nat)
      requires Valid() && size <= 1024
      ensures c == ClassFor(size, 0)
    {
      c := 0;
      while c < CLASSES - 1 && blockSize[c] < size
        invariant c < CLASSES && ClassFor(size, 0) == ClassFor(size, c)
      {
        c := c + 1;
      }
    }

    /** The loop of kmalloc over a new page: each block is asserted absent, then pushed. */
    method PushAll(page: nat, c: nat)
      requires Valid() && c < CLASSES && free[c] == []
      modifies this`free
      ensures Valid() && free == old(free)[c := PushBlocks([], page, c, TotalBlock(c))]
    {
      hide TotalBlock, BlockSize, BlockAddr, Inv.InFirst;
      var i := 0;
      while i < totalBlock[c]
        invariant 0 <= i <= totalBlock[c] && Valid()
        invariant free == old(free)[c := PushBlocks([], page, c, i)]
      {
        var block := BlockAddr(page, c, i);
        Inv.PushBlocksMembers([], page, c, i);
        Runs.LastNotFirst(page, c, i);
        assert block !in free[c];
        free := free[c := [block] + free[c]];
        i := i + 1;
      }
    }

    /** The new page of kmalloc. */
    method OpenArena(c: nat) returns (ok: bool)
      requires Valid() && c < CLASSES && free[c] == []
      modifies this`arenas, this`free, pages.bits
      ensures Valid()
      ensures ok <==> NewArena(old(View()), c).Some?
      ensures ok ==> View() == NewArena(old(View()), c).value
      ensures !ok ==> View() == old(View())
    {
      hide TotalBlock, BlockSize, FillRun, PushBlocks, FindRun;
      FindRunIsFirstFit(pages.View(), 1);
      var page := AllocKPage(pages, 1);
      if page == EOF {
        return false;
      }
      assert FindRun(old(pages.View()), 1, 0) == Some(page - pages.offset);
      arenas := arenas[page := Small(c, totalBlock[c])];
      PushAll(page, c);
      return true;
    }

    /** The branch of kmalloc for more than 1024 bytes. */
    method AllocLarge(size: nat) returns (addr: Option<nat>)
      requires Valid()
      modifies this`arenas, pages.bits
      ensures Valid()
      ensures addr.None? <==> MallocLarge(old(View()), size).None?
      ensures addr.Some? ==> MallocLarge(old(View()), size) == Some((View(), addr.value))
    {
      var count := (((size + HEADER) % WORD) + PAGE_SIZE - 1) % WORD / PAGE_SIZE;
      assert count == LargePages(size);
      hide LargePages, FillRun, FirstFit, HasClearRun;
      if count == 0 {
        return None;
      }
      FindRunIsFirstFit(pages.View(), count);
      var page := AllocKPage(pages, count);
      if page == EOF {
        return None;
      }
      arenas := arenas[page := Large(count)];
      return Some(page * PAGE_SIZE + HEADER);
    }

    /** list_pop, the header assertion and the count. */
    method PopBlock(c: nat) returns (addr: Option<nat>)
      requires Valid() && c < CLASSES && free[c] != []
      modifies this`arenas, this`free
      ensures Valid()
      ensures addr.None? <==> Pop(old(View()), c).None?
      ensures addr.Some? ==> Pop(old(View()), c) == Some((View(), addr.value))
    {
      var block := free[c][0];
      free := free[c := free[c][1..]];
      var page := PageOfAddr(block);
      if page !in arenas || arenas[page].Large? {
        return None;
      }
      arenas := arenas[page := Small(arenas[page].cls, arenas[page].count - 1)];
      return Some(block);
    }

    /** kmalloc; None where the kernel halts. */
    method Kmalloc(size: nat) returns (addr: Option<nat>)
      requires Valid()
      modifies this`arenas, this`free, pages.bits
      ensures Valid()
      ensures addr.None? <==> ArenaSpec.Kmalloc(old(View()), size).None?
      ensures addr.Some? ==> ArenaSpec.Kmalloc(old(View()), size) == Some((View(), addr.value))
    {
      hide FillRun, TotalBlock, BlockSize, NewArena, ClassFor, Pop, MallocLarge;
      if size > 1024 {
        addr := AllocLarge(size);
        return;
      }
      var c := SearchClass(size);
      if free[c] == [] {
        var ok := OpenArena(c);
        if !ok {
          return None;
        }
        NewHasBlocks(old(View()), c);
      }
      addr := PopBlock(c);
    }

    /** list_remove of a block known to be on the list. */
    method Unlist(c: nat, block: nat)
      requires Valid() && c < CLASSES && block in free[c]
      modifies this`free
      ensures Valid() && free == old(free)[c := Without(old(free)[c], block)]
      ensures block !in free[c]
    {
      free := free[c := Without(free[c], block)];
    }

    /** kfree, called where none of its assertions fails: a live address qualifies. */
    method Kfree(addr: nat)
      requires Valid() && ArenaSpec.Kfree(View(), addr).Some?
      modifies this`arenas, this`free, pages.bits
      ensures Valid()
      ensures Some(View()) == ArenaSpec.Kfree(old(View()), addr)
    {
      hide FillRun, TotalBlock, BlockSize, BlockAddr, PageOfAddr, FreePages;
      var page := PageOfAddr(addr);
      match arenas[page] {
        case Large(count) =>
          GiveBack(page, count);
        case Small(c, n) =>
          free := free[c := [addr] + free[c]];
          if n + 1 != totalBlock[c] {
            arenas := arenas[page := Small(c, n + 1)];
            return;
          }
          assert free[c] == [addr] + old(free)[c];
          UnlistAll(page, c);
          assert free == old(free)[c := free[c]];
          GiveBack(page, 1);
      }
    }

    /** The loop of kfree: every block of the page is asserted on the list, and taken off it. */
    method UnlistAll(page: nat, c: nat)
      requires Valid() && c < CLASSES && RemoveBlocks(free[c], page, c, TotalBlock(c)).Some?
      modifies this`free
      ensures Valid() && free == old(free)[c := RemoveBlocks(old(free)[c], page, c, TotalBlock(c)).value]
    {
      hide TotalBlock, BlockSize, BlockAddr;
      ghost var before := free;
      var i := 0;
      while i < totalBlock[c]
        invariant 0 <= i <= totalBlock[c] && Valid()
        invariant RemoveBlocks(before[c], page, c, i).Some?
        invariant free == before[c := RemoveBlocks(before[c], page, c, i).value]
      {
        var block := BlockAddr(page, c, i);
        RemoveBlocksPrefix(before[c], page, c, i + 1, totalBlock[c]);
        assert block in free[c];
        Unlist(c, block);
        i := i + 1;
      }
    }

    /** free_kpage, with the header on the page. */
    method GiveBack(page: nat, count: nat)
      requires Valid() && FreePages(View(), page, count).Some?
      modifies this`arenas, pages.bits
      ensures Valid()
      ensures Some(View()) == FreePages(old(View()), page, count)
    {
      forall i | page <= i < page + count
        ensures pages.Test(i)
      {
        assert View().bits[i - pages.offset];
      }
      FreeKPage(pages, page, count);
      arenas := arenas - {page};
    }
  }

  lemma NewHasBlocks(h: Heap, c: nat)
    requires c < CLASSES && c < |h.free| && NewArena(h, c).Some?
    ensures |NewArena(h, c).value.free| == |h.free| && NewArena(h, c).value.free[c] != []
  {}

  lemma {:induction false} RemoveBlocksPrefix(list: seq<nat>, page: nat, c: nat, i: nat, n: nat)
    requires i <= n && RemoveBlocks(list, page, c, n).Some?
    ensures RemoveBlocks(list, page, c, i).Some?
  {
    if i < n {
      RemoveBlocksPrefix(list, page, c, i, n - 1);
    }
  }
}
