/** balloc, bfree and bmap of fs/bmap.c and the read, write and truncate loops of fs/inode.c, in place
    on the zone bitmap, the inode table and the disk blocks.  A method that returns false has stopped
    in an assertion. */
module FileSystem {
  import opened Basics
  import Bitmaps
  import opened FileTree
  import opened FileOwnership
  import opened FileContents
  import opened FileTruncate
  import opened FileLimits
  import opened FileSpace
  import opened FileLayout

  class Volume {
    const zmap: Bitmaps.Bitmap
    const inodes: array<Inode>
    const blocks: array<Block>
    const zones: nat

    constructor (zmap: Bitmaps.Bitmap, inodes: array<Inode>, blocks: array<Block>, zones: nat)
      ensures this.zmap == zmap && this.inodes == inodes && this.blocks == blocks && this.zones == zones
    {
      this.zmap, this.inodes, this.blocks, this.zones := zmap, inodes, blocks, zones;
    }

    /** The three arrays are different memory. */
    predicate Apart()
      reads zmap
    {
      zmap.bits as object != blocks && zmap.bits as object != inodes && blocks as object != inodes
    }

    ghost function View(): Fs
      reads zmap, zmap.bits, inodes, blocks
    {
      Fs(inodes[..], blocks[..], zmap.View(), zmap.offset, zones)
    }

    /** balloc over its one zone-map block; EOF where it halts. */
    method AllocZone() returns (z: int)
      requires Apart() && zones <= 0x1_0000
      modifies zmap.bits
      ensures z == Bitmaps.EOF <==> Balloc(old(View())).None?
      ensures z != Bitmaps.EOF ==> Balloc(old(View())) == Some(z)
      ensures z != Bitmaps.EOF ==> zmap.View() == old(zmap.View())[z - zmap.offset := true]
    {
      z := zmap.Scan(1);
      FirstFitIsFirstClear(old(zmap.View()));
      if z != Bitmaps.EOF && z >= zones {
        z := Bitmaps.EOF;
      }
    }

    /** bfree; its in-use assertion is the precondition. */
    method FreeZone(z: nat)
      requires zmap.InRange(z) && zmap.Test(z) && z < zones
      modifies zmap.bits
      ensures zmap.View() == old(zmap.View())[z - zmap.offset := false]
    {
      assert zmap.Test(z);
      zmap.Set(z, false);
    }

    /** The number in position `index` of an inode's zones, or of the index block in zone y. */
    function Entry(n: nat, inRoot: bool, y: nat, index: nat): nat
      requires n < inodes.Length
      reads inodes, blocks
    {
      if inRoot then (if index < |inodes[n].zone| then inodes[n].zone[index] else 0)
      else if y < blocks.Length then Index(blocks[y], index) else 0
    }

    method StoreEntry(n: nat, inRoot: bool, y: nat, index: nat, z: nat)
      requires n < inodes.Length && z < 0x1_0000
      requires if inRoot then index < |inodes[n].zone| else y < blocks.Length && 2 * index + 1 < |blocks[y]|
      modifies inodes, blocks
      ensures blocks[..] == if inRoot then old(blocks[..]) else old(blocks[..])[y := SetIndex(old(blocks[y]), index, z)]
      ensures inodes[..] ==
        if inRoot then old(inodes[..])[n := Inode(old(inodes[n]).mode, old(inodes[n]).size, old(inodes[n]).zone[index := z])]
        else old(inodes[..])
    {
      if inRoot {
        inodes[n] := Inode(inodes[n].mode, inodes[n].size, inodes[n].zone[index := z]);
      } else {
        blocks[y] := SetIndex(blocks[y], index, z);
      }
    }

    /** balloc, and its result stored in the empty slot s. */
    method Fill(n: nat, inRoot: bool, y: nat, index: nat, ghost s: Slot) returns (ok: bool, z: nat)
      requires Apart() && Shaped(View()) && n < inodes.Length && ValidSlot(s)
      requires if inRoot then s == Root(n, index) && index < ZONES_PER_INODE
               else s.Child? && s.i == index < BLOCK_INDEXES && y == At(View(), s.parent) && 0 < y < blocks.Length
      modifies zmap.bits, inodes, blocks
      ensures ok <==> Balloc(old(View())).Some?
      ensures ok ==> Balloc(old(View())) == Some(z) && z < 0x1_0000 && View() == PutZone(old(View()), s, z)
    {
      ghost var fs := View();
      assert !inRoot ==> fs.blocks[y] == blocks[y] && |blocks[y]| == BLOCK_SIZE;
      assert inRoot ==> fs.inodes[n] == inodes[n] && |inodes[n].zone| == ZONES_PER_INODE;
      hide At, Index, Bitmaps.Bitmap.View;
      var bit := AllocZone();
      if bit == Bitmaps.EOF {
        return false, 0;
      }
      z := bit;
      StoreEntry(n, inRoot, y, index, z);
      assert View() == PutZone(fs, s, z);
      return true, z;
    }

    /** One turn of bmap's loop at slot s: the entry, allocated and stored if missing and wanted. */
    method Turn(n: nat, inRoot: bool, y: nat, index: nat, create: bool, ghost s: Slot) returns (ok: bool, z: nat)
      requires Apart() && Shaped(View()) && n < inodes.Length && ValidSlot(s)
      requires if inRoot then s == Root(n, index) && index < ZONES_PER_INODE
               else s.Child? && s.i == index < BLOCK_INDEXES && y == At(View(), s.parent) && 0 < y < blocks.Length
      modifies zmap.bits, inodes, blocks
      ensures create ==> (ok <==> Ensure(old(View()), s).Some?)
      ensures create && ok ==> Ensure(old(View()), s) == Some(View()) && z != 0
      ensures !create ==> ok && View() == old(View())
      ensures ok ==> Shaped(View()) && z == At(View(), s)
    {
      z := Entry(n, inRoot, y, index);
      assert z == At(View(), s);
      ghost var fs := View();
      assert Present(fs, s) && OnDisk(fs, s);
      hide At, Shaped, Index, Bitmaps.Bitmap.View, PutZone;
      if z != 0 || !create {
        EnsureIs(fs, s);
        return true, z;
      }
      EnsureIs(fs, s);
      ok, z := Fill(n, inRoot, y, index, s);
    }

    /** bmap: the zone of a file's block, found where the layout says; with create, every missing zone on the way is
        allocated.  Whatever the index blocks hold, the walk is the specified one; it stops where an index block lies
        beyond the disk. */
    method Bmap(n: nat, block: nat, create: bool) returns (ok: bool, z: nat)
      requires Apart() && Shaped(View()) && n < inodes.Length
      modifies zmap.bits, inodes, blocks
      ensures block >= TOTAL_BLOCK ==> !ok
      ensures block >= TOTAL_BLOCK || !create ==> View() == old(View())
      ensures block < TOTAL_BLOCK && !create ==> (ok <==> Walkable(old(View()), SlotOf(n, block)))
      ensures block < TOTAL_BLOCK && create ==> (ok <==> EnsurePath(old(View()), SlotOf(n, block)).Some?)
      ensures ok ==> Shaped(View()) && z == At(View(), SlotOf(n, block)) == ZoneOnDisk(View(), n, block)
      ensures create && ok ==> EnsurePath(old(View()), SlotOf(n, block)) == Some(View()) && z != 0
    {
      hide At, Ensure, EnsurePath, Shaped, Walkable, ZoneOnDisk;
      if block >= TOTAL_BLOCK {
        return false, 0;
      }
      ghost var fs := View();
      var index: nat, level: nat, divider: nat, rest: nat := block, 0, 1, block;
      if block >= DIRECT_BLOCK {
        rest := block - DIRECT_BLOCK;
        if rest < BLOCK_INDEXES {
          index, level, divider := DIRECT_BLOCK, 1, 1;
        } else {
          rest := rest - BLOCK_INDEXES;
          index, level, divider := DIRECT_BLOCK + 1, 2, BLOCK_INDEXES;
        }
      }
      var inRoot, y: nat := true, 0;
      ghost var s := Root(n, index);
      WalkStarts(fs, s);
      while true
        invariant 0 <= level <= 2 && ValidSlot(s) && Level(s) == level
        invariant (level == 2 ==> divider == BLOCK_INDEXES) && (level == 1 ==> divider == 1)
        invariant Target(s, level, rest) == SlotOf(n, block)
        invariant level == 1 ==> rest < BLOCK_INDEXES
        invariant level == 2 ==> rest < BLOCK_INDEXES * BLOCK_INDEXES
        invariant Shaped(View())
        invariant if inRoot then s == Root(n, index) && index < ZONES_PER_INODE
                  else s.Child? && s.i == index < BLOCK_INDEXES && y == At(View(), s.parent) && 0 < y
        invariant !create ==> View() == fs && (s.Child? ==> Walkable(fs, s.parent))
        invariant create ==> if inRoot then View() == fs else EnsurePath(fs, s.parent) == Some(View())
        decreases level
      {
        WalkStep(fs, View(), s, level, rest);
        if !inRoot && y >= blocks.Length {
          return false, 0;
        }
        ok, z := Turn(n, inRoot, y, index, create, s);
        if !ok {
          return;
        }
        if level == 0 || z == 0 {
          if z == 0 {
            TargetAt(fs, s, level, rest);
          }
          LayoutOnDisk(View(), n, block);
          return;
        }
        inRoot, y := false, z;
        index, rest := rest / divider, rest % divider;
        s := Child(s, index);
        divider := divider / BLOCK_INDEXES;
        level := level - 1;
      }
    }

    /** The loop body of inode_read: `chars` bytes of one block; false where bmap finds none. */
    method ChunkRead(n: nat, offset: nat, chars: nat) returns (ok: bool, data: seq<Byte>)
      requires Apart() && Wf(View()) && n < inodes.Length
      requires chars > 0 && offset + chars <= inodes[n].size && offset % BLOCK_SIZE + chars <= BLOCK_SIZE
      modifies zmap.bits, inodes, blocks
      ensures View() == old(View()) && (ok <==> HasBlock(View(), n, offset / BLOCK_SIZE))
      ensures ok ==> data == Contents(View(), n)[offset..offset + chars]
    {
      ghost var fs := View();
      if offset / BLOCK_SIZE < TOTAL_BLOCK {
        WfIsWalkable(fs, SlotOf(n, offset / BLOCK_SIZE));
      }
      var found, nr := Bmap(n, offset / BLOCK_SIZE, false);
      if !found || nr == 0 {
        return false, [];
      }
      AtInDisk(fs, SlotOf(n, offset / BLOCK_SIZE));
      BlockBytes(fs, n, offset, chars);
      assert fs.blocks[nr] == blocks[nr];
      var start := offset % BLOCK_SIZE;
      return true, blocks[nr][start..start + chars];
    }

    /** inode_read, which gives None for EOF; false where an assertion on the mode or on a hole fails. */
    method InodeRead(n: nat, len: nat, off: nat) returns (ok: bool, data: Option<seq<Byte>>)
      requires Apart() && Wf(View()) && n < inodes.Length
      modifies zmap.bits, inodes, blocks
      ensures View() == old(View())
      ensures ok <==> FileOrDirectory(old(inodes[n]).mode) && CanRead(old(View()), n, off, len)
      ensures ok ==> data == Read(old(View()), n, off, len)
    {
      hide Wf, HasBlock, Read, CanRead, Contents, FileOrDirectory;
      if !FileOrDirectory(inodes[n].mode) {
        return false, None;
      }
      ghost var fs := View();
      ReadStarts(fs, n, off, len);
      if off >= inodes[n].size {
        return true, None;
      }
      ghost var total := Min(len, inodes[n].size - off);
      var offset: nat, left: nat := off, Min(len, inodes[n].size - off);
      var buf: seq<Byte> := [];
      while left > 0
        invariant View() == fs && off <= offset && offset + left == off + total
        invariant Read(fs, n, off, offset - off) == Some(buf) && CanRead(fs, n, off, offset - off)
        decreases left
      {
        var chars := Chars(offset, left);
        var found, data := ChunkRead(n, offset, chars);
        if !found {
          ReadStops(fs, n, off, offset, len);
          return false, None;
        }
        ReadOn(fs, n, off, offset, chars, buf);
        buf := buf + data;
        offset, left := offset + chars, left - chars;
      }
      return true, Some(buf);
    }

    /** inode_write; false where its assertion on the mode fails or bmap halts.  The second clause says when that is. */
    method InodeWrite(n: nat, data: seq<Byte>, off: nat) returns (ok: bool)
      requires Apart() && Shaped(View()) && n < inodes.Length
      modifies zmap.bits, inodes, blocks
      ensures ok <==> old(inodes[n]).mode != 0 && Write(old(View()), n, off, data).Some?
      ensures ok ==> Write(old(View()), n, off, data) == Some(View())
      ensures Wf(old(View())) && CleanWrite(old(View()), n, off, data) ==>
        (ok <==> old(inodes[n]).mode != 0 && !NoRoom(old(View()), n, off, |data|))
    {
      hide WriteChunk, Shaped, Wf, CleanWrite, NoRoom;
      ghost var fs := View();
      if Wf(fs) && CleanWrite(fs, n, off, data) {
        WriteHalts(fs, n, off, data);
      }
      if inodes[n].mode == 0 {
        return false;
      }
      var offset: nat, buf := off, data;
      while |buf| > 0
        invariant Shaped(View()) && Write(fs, n, off, data) == Write(View(), n, offset, buf)
        decreases |buf|
      {
        var chars := Chars(offset, |buf|);
        ok := ChunkWrite(n, buf[..chars], offset);
        if !ok {
          return;
        }
        offset, buf := offset + chars, buf[chars..];
      }
      return true;
    }

    /** The copy into block nr, and the new size if the file grows. */
    method PutChunk(n: nat, nr: nat, chunk: seq<Byte>, offset: nat)
      requires Apart() && n < inodes.Length && nr < blocks.Length && |blocks[nr]| == BLOCK_SIZE
      modifies inodes, blocks
      ensures View() == PutBytes(old(View()), n, nr, offset, chunk)
    {
      var end := offset + |chunk|;
      if end > inodes[n].size {
        inodes[n] := Inode(inodes[n].mode, end, inodes[n].zone);
      }
      blocks[nr] := Overlay(blocks[nr], offset % BLOCK_SIZE, chunk);
    }

    /** The loop body of inode_write. */
    method ChunkWrite(n: nat, chunk: seq<Byte>, offset: nat) returns (ok: bool)
      requires Apart() && Shaped(View()) && n < inodes.Length && offset % BLOCK_SIZE + |chunk| <= BLOCK_SIZE
      modifies zmap.bits, inodes, blocks
      ensures ok <==> WriteChunk(old(View()), n, offset, chunk).Some?
      ensures ok ==> WriteChunk(old(View()), n, offset, chunk) == Some(View()) && Shaped(View())
    {
      hide EnsurePath, At, Bitmaps.Bitmap.View;
      var nr;
      ok, nr := Bmap(n, offset / BLOCK_SIZE, true);
      if !ok || nr >= blocks.Length {
        return false;
      }
      ghost var fs1 := View();
      assert fs1.blocks[nr] == blocks[nr];
      PutChunk(n, nr, chunk, offset);
      PutBytesKeepsShape(fs1, n, nr, offset, chunk);
    }

    /** inode_bfree on the entry z of slot s: frees exactly the zones the slot reaches.  Each of them is
        still in use when its turn comes, so the assertion of bfree holds. */
    method FreeTree(z: nat, level: int, ghost s: Slot, ghost fs: Fs)
      requires Apart() && Shaped(fs) && Owned(fs) && Backed(fs)
      requires ValidSlot(s) && Level(s) == level && At(fs, s) == z
      requires forall y :: Reaches(fs, s, y) ==> InUse(y)
      modifies zmap.bits
      ensures forall i :: 0 <= i < |zmap.View()| ==>
        (zmap.View()[i] <==> old(zmap.View())[i] && !Reaches(fs, s, fs.base + i))
      decreases level, 1
    {
      hide Owned, Reaches, ReachedBelow, At, ValidSlot, Level, Shaped, Bitmaps.Bitmap.View;
      LevelBound(s);
      ReachesAll(fs, s);
      if z == 0 {
        return;
      }
      AtInDisk(fs, s);
      assert Reaches(fs, s, z) && InUse(z);
      OwnZoneApart(fs, s);
      ghost var before := zmap.View();
      if level > 0 {
        FreeChildren(z, level, s, fs);
      }
      ghost var mid := zmap.View();
      assert zmap.Test(z);
      FreeZone(z);
      FreedAll(fs, s, before, mid, zmap.View());
    }

    /** The loop of inode_bfree over the entries of an index block. */
    method FreeChildren(z: nat, level: int, ghost s: Slot, ghost fs: Fs)
      requires Apart() && Shaped(fs) && Owned(fs) && Backed(fs)
      requires ValidSlot(s) && Level(s) == level > 0 && At(fs, s) == z && 0 < z < blocks.Length
      requires forall y :: ReachedBelow(fs, s, BLOCK_INDEXES, y) ==> InUse(y)
      modifies zmap.bits
      ensures forall i :: 0 <= i < |zmap.View()| ==>
        (zmap.View()[i] <==> old(zmap.View())[i] && !ReachedBelow(fs, s, BLOCK_INDEXES, fs.base + i))
      decreases level, 0
    {
      hide Owned, Reaches;
      NoneBelowYet(fs, s);
      assert blocks[z] == fs.blocks[z];
      var i := 0;
      while i < BLOCK_INDEXES
        invariant 0 <= i <= BLOCK_INDEXES && Backed(fs)
        invariant forall j :: 0 <= j < |zmap.View()| ==>
          (zmap.View()[j] <==> old(zmap.View())[j] && !ReachedBelow(fs, s, i, fs.base + j))
      {
        ghost var c := Child(s, i);
        ChildStillInUse(fs, s, i);
        assert ValidSlot(c) && Level(c) == level - 1 && At(fs, c) == Index(blocks[z], i);
        forall y: nat | Reaches(fs, c, y)
          ensures InUse(y)
        {
          assert ReachedBelow(fs, s, BLOCK_INDEXES, y);
          assert fs.base + (y - fs.base) == y;
        }
        FreeTree(Index(blocks[z], i), level - 1, c, fs);
        forall y
          ensures ReachedBelow(fs, s, i + 1, y) <==> ReachedBelow(fs, s, i, y) || Reaches(fs, c, y)
        {
          ReachedBelowNext(fs, s, i, y);
        }
        i := i + 1;
      }
    }

    /** inode_bfree on the inode's entry k, which is then cleared. */
    method FreeRoot(n: nat, k: nat, ghost fs: Fs)
      requires Apart() && Shaped(fs) && Owned(fs) && Backed(fs) && n < inodes.Length == |fs.inodes| && k < ZONES_PER_INODE
      requires |inodes[n].zone| == ZONES_PER_INODE && inodes[n].zone[k] == fs.inodes[n].zone[k]
      requires forall y :: Reaches(fs, Root(n, k), y) ==> InUse(y)
      modifies zmap.bits, inodes
      ensures Backed(fs)
      ensures inodes[..] == old(inodes[..])[n := Inode(old(inodes[n]).mode, old(inodes[n]).size, old(inodes[n]).zone[k := 0])]
      ensures forall i :: 0 <= i < |zmap.View()| ==>
        (zmap.View()[i] <==> old(zmap.View())[i] && !Reaches(fs, Root(n, k), fs.base + i))
    {
      FreeTree(inodes[n].zone[k], Level(Root(n, k)), Root(n, k), fs);
      inodes[n] := Inode(inodes[n].mode, inodes[n].size, inodes[n].zone[k := 0]);
    }

    /** inode_truncate, whose last two turns, for the index entries, the source writes out; nothing happens
        to what is neither a file nor a directory. */
    method InodeTruncate(n: nat)
      requires Apart() && Wf(View()) && n < inodes.Length
      modifies zmap.bits, inodes
      ensures View() == Truncate(old(View()), n)
      ensures FileOrDirectory(old(inodes[n]).mode) ==> Truncated(old(View()), View(), n)
    {
      if !FileOrDirectory(inodes[n].mode) {
        return;
      }
      hide Reaches, Owned, RootsReach;
      ghost var fs := View();
      var k := 0;
      NoRootsYet(fs, n);
      assert ZeroedTo(fs.inodes[n].zone, 0) == fs.inodes[n].zone;
      while k < ZONES_PER_INODE
        invariant 0 <= k <= ZONES_PER_INODE && Backed(fs)
        invariant inodes[..] == fs.inodes[n := Inode(fs.inodes[n].mode, fs.inodes[n].size, ZeroedTo(fs.inodes[n].zone, k))]
        invariant forall i :: 0 <= i < |zmap.View()| ==>
          (zmap.View()[i] <==> fs.zmap[i] && !RootsReach(fs, n, k, fs.base + i))
      {
        RootStillInUse(fs, n, k);
        FreeRoot(n, k, fs);
        forall y
          ensures RootsReach(fs, n, k + 1, y) <==> RootsReach(fs, n, k, y) || Reaches(fs, Root(n, k), y)
        {
          RootsReachNext(fs, n, k, y);
        }
        ZeroedNext(fs.inodes[n].zone, k);
        k := k + 1;
      }
      inodes[n] := Inode(inodes[n].mode, 0, inodes[n].zone);
      RootsReachAll(fs, n);
      assert ZeroedTo(fs.inodes[n].zone, ZONES_PER_INODE) == EmptyInode(fs.inodes[n]).zone;
      TruncatedUnique(fs, View(), Truncate(fs, n), n);
    }

    /** The disk and the bitmap's extent are still those of fs. */
    ghost predicate Backed(fs: Fs)
      reads zmap, zmap.bits, blocks
    {
      blocks[..] == fs.blocks && zmap.offset == fs.base && |zmap.View()| == |fs.zmap| && zones == fs.zones
    }

    ghost predicate InUse(y: nat)
      reads zmap, zmap.bits
    {
      zmap.offset <= y < zmap.offset + |zmap.View()| && zmap.View()[y - zmap.offset]
    }
  }

  // ---------------------------------------------------------------- proof helpers

  /** The slot that bmap's loop reaches from slot s when `level` levels and `rest` remain. */
  function Target(s: Slot, level: int, rest: nat): Slot {
    if level == 1 then Child(s, rest)
    else if level == 2 then Child(Child(s, rest / BLOCK_INDEXES), rest % BLOCK_INDEXES)
    else s
  }

  /** A turn leaves the slot as it is if it holds a zone, and stores what balloc hands out if it does not. */
  lemma EnsureIs(fs: Fs, s: Slot)
    requires Shaped(fs) && ValidSlot(s) && Present(fs, s) && OnDisk(fs, s)
    ensures At(fs, s) != 0 ==> Ensure(fs, s) == Some(fs)
    ensures At(fs, s) == 0 ==>
      match Balloc(fs)
      case None => Ensure(fs, s).None?
      case Some(z) =>
        && 0 < z < 0x1_0000 && z < fs.base + |fs.zmap|
        && Ensure(fs, s) == Some(PutZone(fs, s, z)) && Shaped(PutZone(fs, s, z)) && At(PutZone(fs, s, z), s) == z
  {
    if At(fs, s) == 0 && Balloc(fs).Some? {
      var z := Balloc(fs).value;
      BallocIsFree(fs, z);
      PutZoneShaped(fs, s, z);
      PutZoneChanges(fs, s, z);
      StoredZone(fs, s, z);
    }
  }

  lemma PutZoneChanges(fs: Fs, s: Slot, z: nat)
    requires Shaped(fs) && ValidSlot(s) && Present(fs, s) && OnDisk(fs, s)
    requires fs.base < z < fs.zones && !Allocated(fs, z)
    ensures PutZone(fs, s, z) != fs
  {
    assert PutZone(fs, s, z).zmap[z - fs.base] && !fs.zmap[z - fs.base];
  }

  /** No index block on the way down to s lies beyond the disk. */
  predicate Walkable(fs: Fs, s: Slot) {
    match s
    case Root(_, _) => true
    case Child(p, _) => Walkable(fs, p) && (At(fs, p) != 0 ==> At(fs, p) < |fs.blocks|)
  }

  lemma {:induction false} WfIsWalkable(fs: Fs, s: Slot)
    requires Wf(fs) && ValidSlot(s)
    ensures Walkable(fs, s)
  {
    if s.Child? {
      WfIsWalkable(fs, s.parent);
      if At(fs, s.parent) != 0 {
        AtInDisk(fs, s.parent);
      }
    }
  }

  lemma WalkStarts(fs: Fs, s: Slot)
    requires s.Root?
    ensures Walkable(fs, s) && EnsurePath(fs, s) == Ensure(fs, s)
  {}

  /** What a turn at slot s, in the state now of a walk from fs, means for the walk to the target. */
  lemma WalkStep(fs: Fs, now: Fs, s: Slot, level: int, rest: nat)
    ensures s.Root? ==> EnsurePath(fs, s) == Ensure(fs, s) && Walkable(fs, s)
    ensures s.Child? && EnsurePath(fs, s.parent) == Some(now) ==> EnsurePath(fs, s) == Ensure(now, s)
    ensures s.Child? && At(now, s.parent) >= |now.blocks| ==> Ensure(now, s).None?
    ensures s.Child? && Walkable(fs, s.parent) && At(fs, s.parent) != 0 ==>
      (Walkable(fs, s) <==> At(fs, s.parent) < |fs.blocks|)
    ensures EnsurePath(fs, s).None? ==> EnsurePath(fs, Target(s, level, rest)).None?
    ensures !Walkable(fs, s) ==> !Walkable(fs, Target(s, level, rest))
    ensures Walkable(fs, s) && At(fs, s) == 0 ==> Walkable(fs, Target(s, level, rest))
  {
    hide Ensure;
    assert EnsurePath(fs, s).None? ==> EnsurePath(fs, Child(s, rest / BLOCK_INDEXES)).None?;
    assert At(fs, s) == 0 ==> At(fs, Child(s, rest / BLOCK_INDEXES)) == 0;
    assert !Walkable(fs, s) ==> !Walkable(fs, Child(s, rest / BLOCK_INDEXES));
    assert Walkable(fs, s) && At(fs, s) == 0 ==> Walkable(fs, Child(s, rest / BLOCK_INDEXES));
    assert s.Child? && At(now, s.parent) >= |now.blocks| ==> !OnDisk(now, s);
    if !OnDisk(now, s) {
      EnsureOffDisk(now, s);
    }
  }

  lemma EnsureOffDisk(fs: Fs, s: Slot)
    requires !OnDisk(fs, s)
    ensures Ensure(fs, s).None?
  {}

  lemma PutBytesKeepsShape(fs: Fs, n: nat, z: nat, off: nat, chunk: seq<Byte>)
    requires Shaped(fs) && n < |fs.inodes| && off % BLOCK_SIZE + |chunk| <= BLOCK_SIZE
    ensures Shaped(PutBytes(fs, n, z, off, chunk))
  {}

  lemma SameBlock(fs: Fs, n: nat, off: nat, chars: nat)
    requires off % BLOCK_SIZE + chars <= BLOCK_SIZE && HasBlock(fs, n, off / BLOCK_SIZE)
    ensures forall x: nat :: off <= x < off + chars ==> HasBlock(fs, n, x / BLOCK_SIZE)
  {
    forall x: nat | off <= x < off + chars
      ensures x / BLOCK_SIZE == off / BLOCK_SIZE
    {}
    hide HasBlock;
  }

  /** From the end of the file on nothing is read; before it a read stops at the end. */
  lemma ReadStarts(fs: Fs, n: nat, off: nat, len: nat)
    requires n < |fs.inodes|
    ensures off >= fs.inodes[n].size ==> Read(fs, n, off, len) == None && CanRead(fs, n, off, len)
    ensures off < fs.inodes[n].size ==>
      var total := Min(len, fs.inodes[n].size - off);
      && Read(fs, n, off, 0) == Some([]) && CanRead(fs, n, off, 0)
      && Read(fs, n, off, total) == Read(fs, n, off, len)
      && (CanRead(fs, n, off, total) <==> CanRead(fs, n, off, len))
  {
    hide Contents, HasBlock;
    var size := fs.inodes[n].size;
    assert off < size ==> Contents(fs, n)[off..off + Min(0, size - off)] == [];
    if off < size && CanRead(fs, n, off, Min(len, size - off)) {
      forall x: nat | off <= x < size && x < off + len
        ensures HasBlock(fs, n, x / BLOCK_SIZE)
      {
        assert x < off + Min(len, size - off);
      }
    }
  }

  /** The bytes of one more block. */
  lemma ReadOn(fs: Fs, n: nat, off: nat, offset: nat, chars: nat, buf: seq<Byte>)
    requires n < |fs.inodes| && off <= offset < offset + chars <= fs.inodes[n].size
    requires offset % BLOCK_SIZE + chars <= BLOCK_SIZE && HasBlock(fs, n, offset / BLOCK_SIZE)
    requires Read(fs, n, off, offset - off) == Some(buf) && CanRead(fs, n, off, offset - off)
    ensures Read(fs, n, off, offset + chars - off) == Some(buf + Contents(fs, n)[offset..offset + chars])
    ensures CanRead(fs, n, off, offset + chars - off)
  {
    SameBlock(fs, n, offset, chars);
    hide Contents, HasBlock;
    var c := Contents(fs, n);
    assert c[off..offset] + c[offset..offset + chars] == c[off..offset + chars];
  }

  lemma ReadStops(fs: Fs, n: nat, off: nat, offset: nat, len: nat)
    requires n < |fs.inodes| && off <= offset < fs.inodes[n].size && offset < off + len
    requires !HasBlock(fs, n, offset / BLOCK_SIZE)
    ensures !CanRead(fs, n, off, len)
  {
    hide HasBlock;
  }

  lemma TargetAt(fs: Fs, s: Slot, level: int, rest: nat)
    requires At(fs, s) == 0
    ensures At(fs, Target(s, level, rest)) == 0
  {
    assert At(fs, Child(s, rest / BLOCK_INDEXES)) == 0;
  }

  /** A stretch of a file inside one block is that stretch of the block. */
  lemma BlockBytes(fs: Fs, n: nat, off: nat, chars: nat)
    requires Shaped(fs) && n < |fs.inodes| && off + chars <= fs.inodes[n].size && off % BLOCK_SIZE + chars <= BLOCK_SIZE
    requires chars > 0 && HasBlock(fs, n, off / BLOCK_SIZE) && At(fs, SlotOf(n, off / BLOCK_SIZE)) < |fs.blocks|
    ensures var start := off % BLOCK_SIZE;
      fs.blocks[At(fs, SlotOf(n, off / BLOCK_SIZE))][start..start + chars] == Contents(fs, n)[off..off + chars]
  {
    var z, start := At(fs, SlotOf(n, off / BLOCK_SIZE)), off % BLOCK_SIZE;
    forall x | off <= x < off + chars
      ensures Contents(fs, n)[x] == fs.blocks[z][start + (x - off)]
    {
      assert x / BLOCK_SIZE == off / BLOCK_SIZE && x % BLOCK_SIZE == start + (x - off);
    }
  }

  function ZeroedTo(zone: seq<nat>, k: nat): (r: seq<nat>)
    ensures |r| == |zone| && forall i :: 0 <= i < |zone| ==> r[i] == if i < k then 0 else zone[i]
  {
    seq(|zone|, i requires 0 <= i < |zone| => if i < k then 0 else zone[i])
  }

  lemma ZeroedNext(zone: seq<nat>, k: nat)
    requires k < |zone|
    ensures ZeroedTo(zone, k)[k := 0] == ZeroedTo(zone, k + 1)
  {}

  ghost predicate RootsReach(fs: Fs, n: nat, k: nat, z: nat) {
    exists j: nat :: j < k && Reaches(fs, Root(n, j), z)
  }

  lemma NoRootsYet(fs: Fs, n: nat)
    ensures forall z :: !RootsReach(fs, n, 0, z)
  {}

  lemma RootsReachNext(fs: Fs, n: nat, k: nat, z: nat)
    ensures RootsReach(fs, n, k + 1, z) <==> RootsReach(fs, n, k, z) || Reaches(fs, Root(n, k), z)
  {
    hide Reaches;
    if j: nat :| j < k + 1 && Reaches(fs, Root(n, j), z) {
      assert j < k || j == k;
    }
  }

  lemma RootsReachAll(fs: Fs, n: nat)
    ensures forall z :: Belongs(fs, n, z) <==> RootsReach(fs, n, ZONES_PER_INODE, z)
  {
    forall z: nat
      ensures Belongs(fs, n, z) <==> RootsReach(fs, n, ZONES_PER_INODE, z)
    {
      BelongsByRoot(fs, n, z);
    }
  }

  /** What root entry k reaches is allocated and reached by no other entry. */
  lemma RootStillInUse(fs: Fs, n: nat, k: nat)
    requires Shaped(fs) && Owned(fs) && k < ZONES_PER_INODE
    ensures forall z :: Reaches(fs, Root(n, k), z) ==> !RootsReach(fs, n, k, z) && Allocated(fs, z)
  {
    forall z, j: nat | Reaches(fs, Root(n, k), z) && Reaches(fs, Root(n, j), z)
      ensures j == k
    {
      var t :| ValidSlot(t) && Under(t, Root(n, k)) && At(fs, t) == z && z != 0;
      var u :| ValidSlot(u) && Under(u, Root(n, j)) && At(fs, u) == z && z != 0;
      assert t == u;
      UnderOneRoot(t, n, k, j);
    }
  }

  lemma {:induction false} UnderOneRoot(t: Slot, n: nat, k: nat, j: nat)
    requires Under(t, Root(n, k)) && Under(t, Root(n, j))
    ensures j == k
    decreases t
  {
    if t.Child? {
      UnderOneRoot(t.parent, n, k, j);
    }
  }

  ghost predicate ReachedBelow(fs: Fs, s: Slot, n: nat, z: nat) {
    exists i: nat :: i < n && Reaches(fs, Child(s, i), z)
  }

  lemma NoneBelowYet(fs: Fs, s: Slot)
    ensures forall z :: !ReachedBelow(fs, s, 0, z)
  {}

  lemma ReachedBelowNext(fs: Fs, s: Slot, n: nat, z: nat)
    ensures ReachedBelow(fs, s, n + 1, z) <==> ReachedBelow(fs, s, n, z) || Reaches(fs, Child(s, n), z)
  {
    hide Reaches;
    if i: nat :| i < n + 1 && Reaches(fs, Child(s, i), z) {
      assert i < n || i == n;
    }
  }

  lemma ReachesAll(fs: Fs, s: Slot)
    requires ValidSlot(s)
    ensures At(fs, s) == 0 ==> forall z :: !Reaches(fs, s, z)
    ensures At(fs, s) != 0 && Level(s) == 0 ==> forall z :: Reaches(fs, s, z) <==> z == At(fs, s)
    ensures At(fs, s) != 0 && Level(s) > 0 ==>
      forall z :: Reaches(fs, s, z) <==> z == At(fs, s) || ReachedBelow(fs, s, BLOCK_INDEXES, z)
  {
    forall z: nat
      ensures At(fs, s) == 0 ==> !Reaches(fs, s, z)
      ensures At(fs, s) != 0 && Level(s) == 0 ==> (Reaches(fs, s, z) <==> z == At(fs, s))
      ensures At(fs, s) != 0 && Level(s) > 0 ==>
        (Reaches(fs, s, z) <==> z == At(fs, s) || ReachedBelow(fs, s, BLOCK_INDEXES, z))
    {
      ReachesSplit(fs, s, z);
    }
  }

  /** What child i reaches no earlier child reached. */
  lemma ChildStillInUse(fs: Fs, s: Slot, i: nat)
    requires Owned(fs)
    ensures forall z :: Reaches(fs, Child(s, i), z) ==> !ReachedBelow(fs, s, i, z)
    ensures i < BLOCK_INDEXES ==> forall z :: Reaches(fs, Child(s, i), z) ==> ReachedBelow(fs, s, BLOCK_INDEXES, z)
  {
    forall z, j: nat | Reaches(fs, Child(s, i), z) && Reaches(fs, Child(s, j), z)
      ensures i == j
    {
      SubtreesApart(fs, s, i, j, z);
    }
  }

  /** The bits of what a slot reaches: those below it first, then its own zone. */
  lemma FreedAll(fs: Fs, s: Slot, before: seq<bool>, mid: seq<bool>, after: seq<bool>)
    requires ValidSlot(s) && |before| == |mid| == |after| && fs.base <= At(fs, s) < fs.base + |mid| && At(fs, s) != 0
    requires forall i :: 0 <= i < |mid| ==>
      (mid[i] <==> before[i] && !(Level(s) > 0 && ReachedBelow(fs, s, BLOCK_INDEXES, fs.base + i)))
    requires after == mid[At(fs, s) - fs.base := false]
    ensures forall i :: 0 <= i < |after| ==> (after[i] <==> before[i] && !Reaches(fs, s, fs.base + i))
  {
    LevelBound(s);
    ReachesAll(fs, s);
    hide Reaches, ReachedBelow, At, ValidSlot;
  }

  /** An index zone is not among the zones below it. */
  lemma OwnZoneApart(fs: Fs, s: Slot)
    requires Owned(fs) && ValidSlot(s) && At(fs, s) != 0
    ensures !ReachedBelow(fs, s, BLOCK_INDEXES, At(fs, s))
  {
    forall i: nat, t | ValidSlot(t) && Under(t, Child(s, i))
      ensures At(fs, t) != At(fs, s)
    {
      NotUnderOwnSubtree(s, Child(s, i));
    }
  }

  lemma FirstFitIsFirstClear(s: seq<bool>)
    ensures FirstClear(s, 0).None? <==> !Bitmaps.HasClearRun(s, 1)
    ensures forall i: int :: Bitmaps.FirstFit(s, 1, i) ==> i >= 0 && FirstClear(s, 0) == Some(i)
  {
    if i: int :| Bitmaps.ClearRun(s, i, 1) {
      assert !s[i];
    }
    match FirstClear(s, 0)
    case None =>
    case Some(j) =>
      assert Bitmaps.ClearRun(s, j, 1);
      forall i: int | Bitmaps.FirstFit(s, 1, i)
        ensures i == j
      {
        assert i >= 0 ==> !s[i];
      }
  }
}
