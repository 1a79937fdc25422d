/** Where the promises of fs/bmap.c and fs/inode.c end: index blocks taken from zones that still hold
    old bytes, and writes that start beyond the end of a file. */
module FileLimits {
  import opened Basics
  import opened FileTree
  import opened FileOwnership
  import opened FileContents

  ghost predicate Consistent(fs: Fs) {
    Shaped(fs) && Owned(fs) && NoLeaks(fs)
  }

  // ---------------------------------------------------------------- stale index blocks

  /** Storing a zone in an empty slot never moves what the other slots hold. */
  lemma {:induction false} PutZoneKeepsAt(fs: Fs, s: Slot, z: nat, t: Slot)
    requires Shaped(fs) && ValidSlot(t) && At(fs, s) == 0
    requires fs.base < z < fs.zones && At(fs, t) != 0
    ensures At(PutZone(fs, s, z), t) == At(fs, t)
    decreases t
  {
    if t.Child? {
      PutZoneKeepsAt(fs, s, z, t.parent);
    }
  }

  lemma StaleEntryShows(fs: Fs, s: Slot, z: nat, i: nat)
    requires Shaped(fs) && Owned(fs) && ValidSlot(s) && Level(s) > 0 && At(fs, s) == 0 && Present(fs, s)
    requires fs.base < z < fs.zones && !Allocated(fs, z) && i < BLOCK_INDEXES
    ensures At(PutZone(fs, s, z), s) == z
    ensures At(PutZone(fs, s, z), Child(s, i)) == Index(fs.blocks[z], i)
  {
    if s.Child? {
      AtInDisk(fs, s.parent);
      if s.parent.Child? {
        LevelBound(s);
      }
    }
  }

  /** One turn of bmap keeps a consistent file system consistent when, and only when, the zone it takes
      for an index block names no zone; for a data block any zone will do. */
  lemma TurnNeedsBlankIndex(fs: Fs, fs': Fs, s: Slot)
    requires Consistent(fs) && ValidSlot(s) && Present(fs, s) && Ensure(fs, s) == Some(fs')
    ensures CleanTurn(fs, s) ==> Consistent(fs') && At(fs', s) != 0
    ensures !CleanTurn(fs, s) ==> Shaped(fs') && !Owned(fs')
  {
    LevelBound(s);
    if At(fs, s) == 0 {
      var z := Balloc(fs).value;
      BallocIsFree(fs, z);
      PutZoneShaped(fs, s, z);
      if CleanTurn(fs, s) {
        PutZoneOwned(fs, s, z);
        PutZoneLeaksNothing(fs, fs', s, z);
        PutZoneAt(fs, s, z, s);
      } else {
        var i: nat :| Index(fs.blocks[z], i) != 0;
        StaleIndexBreaksOwnership(fs, fs', s, z, i);
      }
    }
  }

  /** A broken tree stays broken: an allocation never moves what a slot held, so two slots with one zone
      keep it, and a zone that was reached without its bit is at best handed out a second time. */
  lemma TurnNeverRepairs(fs: Fs, fs': Fs, s: Slot)
    requires Shaped(fs) && !Owned(fs) && ValidSlot(s) && Ensure(fs, s) == Some(fs')
    ensures Shaped(fs') && !Owned(fs')
  {
    if At(fs, s) == 0 {
      var z := Balloc(fs).value;
      BallocIsFree(fs, z);
      PutZoneShaped(fs, s, z);
      if fs' != fs {
        StoredZone(fs, s, z);
        forall t | ValidSlot(t) && At(fs, t) != 0
          ensures At(fs', t) == At(fs, t)
        {
          PutZoneKeepsAt(fs, s, z, t);
        }
        hide At, Level, ValidSlot, PutZone;
        if t :| ValidSlot(t) && At(fs, t) != 0 && !Allocated(fs, At(fs, t)) {
          LostZone(fs, fs', s, z, t);
        } else {
          var t, u :| ValidSlot(t) && ValidSlot(u) && At(fs, t) != 0 && At(fs, t) == At(fs, u) && t != u;
          TwoHolders(fs', t, u);
        }
      }
    }
  }

  /** The slot holds the zone just stored there. */
  lemma StoredZone(fs: Fs, s: Slot, z: nat)
    requires Shaped(fs) && ValidSlot(s) && At(fs, s) == 0 && fs.base < z < fs.zones && PutZone(fs, s, z) != fs
    ensures At(PutZone(fs, s, z), s) == z
  {
    if s.Child? {
      PutZoneKeepsAt(fs, s, z, s.parent);
    }
  }

  lemma LostZone(fs: Fs, fs': Fs, s: Slot, z: nat, t: Slot)
    requires Shaped(fs) && ValidSlot(s) && At(fs, s) == 0 && fs.base < z < fs.zones && fs' == PutZone(fs, s, z)
    requires At(fs', s) == z && ValidSlot(t) && At(fs, t) != 0 && At(fs', t) == At(fs, t) && !Allocated(fs, At(fs, t))
    ensures !Owned(fs')
  {
    var e := At(fs, t);
    if e == z {
      TwoHolders(fs', s, t);
    } else {
      NotAllocatedAfter(fs, s, z, e);
    }
  }

  /** bmap with create keeps a consistent file system consistent if and only if every zone it takes for
      an index block on its way, at either level, names no zone. */
  lemma {:induction false} BmapNeedsBlankIndex(fs: Fs, fs': Fs, s: Slot)
    requires Consistent(fs) && ValidSlot(s) && Owner(s) < |fs.inodes| && EnsurePath(fs, s) == Some(fs')
    ensures Consistent(fs') <==> CleanPath(fs, s)
    ensures CleanPath(fs, s) ==> At(fs', s) != 0
    ensures !CleanPath(fs, s) ==> Shaped(fs') && !Owned(fs')
    decreases s
  {
    hide Consistent, Ensure, Owned, CleanTurn, At;
    if s.Root? {
      RootIsPresent(fs, s);
      TurnNeedsBlankIndex(fs, fs', s);
    } else {
      var fs1 := EnsurePath(fs, s.parent).value;
      BmapNeedsBlankIndex(fs, fs1, s.parent);
      if CleanPath(fs, s.parent) {
        TurnNeedsBlankIndex(fs1, fs', s);
      } else {
        TurnNeverRepairs(fs1, fs', s);
      }
    }
    BrokenIsInconsistent(fs');
  }

  lemma RootIsPresent(fs: Fs, s: Slot)
    requires s.Root? && Owner(s) < |fs.inodes|
    ensures Present(fs, s)
  {}

  lemma BrokenIsInconsistent(fs: Fs)
    ensures Consistent(fs) ==> Owned(fs)
  {}

  lemma AllocatedBefore(fs: Fs, s: Slot, z: nat, y: nat)
    requires fs.base <= z < fs.base + |fs.zmap| && z < 0x1_0000 && Allocated(PutZone(fs, s, z), y) && y != z
    ensures Allocated(fs, y)
  {}

  lemma PutZoneLeaksNothing(fs: Fs, fs': Fs, s: Slot, z: nat)
    requires Consistent(fs) && ValidSlot(s) && Present(fs, s) && At(fs, s) == 0
    requires fs.base < z < fs.zones && !Allocated(fs, z) && fs' == PutZone(fs, s, z)
    requires Level(s) > 0 ==> NoIndex(fs.blocks[z])
    ensures NoLeaks(fs')
  {
    PutZoneAt(fs, s, z, s);
    forall y: nat | Allocated(fs', y)
      ensures exists t :: ValidSlot(t) && At(fs', t) == y
    {
      if y != z {
        AllocatedBefore(fs, s, z, y);
        var t := HolderOf(fs, y);
        PutZoneAt(fs, s, z, t);
      }
    }
  }

  lemma StaleIndexBreaksOwnership(fs: Fs, fs': Fs, s: Slot, z: nat, i: nat)
    requires Consistent(fs) && ValidSlot(s) && Level(s) > 0 && Present(fs, s) && At(fs, s) == 0
    requires fs.base < z < fs.zones && !Allocated(fs, z) && fs' == PutZone(fs, s, z)
    requires Index(fs.blocks[z], i) != 0
    ensures !Owned(fs')
  {
    var e := Index(fs.blocks[z], i);
    var c := Child(s, i);
    StaleEntryShows(fs, s, z, i);
    assert ValidSlot(c);
    if e != z && Allocated(fs, e) {
      var u := HolderOf(fs, e);
      PutZoneKeepsAt(fs, s, z, u);
      EmptyAbove(fs, s, i);
      TwoHolders(fs', u, c);
    } else if e == z {
      TwoHolders(fs', s, c);
    } else {
      NotAllocatedAfter(fs, s, z, e);
    }
  }

  lemma HolderOf(fs: Fs, e: nat) returns (u: Slot)
    requires NoLeaks(fs) && Allocated(fs, e)
    ensures ValidSlot(u) && At(fs, u) == e
  {
    u :| ValidSlot(u) && At(fs, u) == e;
  }

  lemma EmptyAbove(fs: Fs, s: Slot, i: nat)
    requires At(fs, s) == 0
    ensures At(fs, Child(s, i)) == 0
  {}

  lemma TwoHolders(fs: Fs, u: Slot, c: Slot)
    requires ValidSlot(u) && ValidSlot(c) && u != c && At(fs, u) == At(fs, c) != 0
    ensures !Owned(fs)
  {}

  lemma NotAllocatedAfter(fs: Fs, s: Slot, z: nat, e: nat)
    requires fs.base <= z < fs.base + |fs.zmap| && z < 0x1_0000 && e != z && !Allocated(fs, e)
    ensures !Allocated(PutZone(fs, s, z), e)
  {}

  // ---------------------------------------------------------------- whole writes

  /** After every bmap of the write the tree is consistent. */
  ghost predicate StaysConsistent(fs: Fs, n: nat, off: nat, data: seq<Byte>)
    requires n < |fs.inodes|
    decreases |data|
  {
    data == [] || off / BLOCK_SIZE >= TOTAL_BLOCK ||
    match EnsurePath(fs, SlotOf(n, off / BLOCK_SIZE))
    case None => true
    case Some(fs1) =>
      && Consistent(fs1)
      && match WriteChunk(fs, n, off, data[..Chars(off, |data|)])
         case None => true
         case Some(fs2) =>
           n < |fs2.inodes| ==> StaysConsistent(fs2, n, off + Chars(off, |data|), data[Chars(off, |data|)..])
  }

  /** Copying bytes into a data zone frees and leaks nothing. */
  lemma ChunkConsistent(fs: Fs, fs': Fs, n: nat, off: nat, chunk: seq<Byte>)
    requires Consistent(fs) && n < |fs.inodes| && chunk != [] && off % BLOCK_SIZE + |chunk| <= BLOCK_SIZE
    requires off / BLOCK_SIZE < TOTAL_BLOCK && CleanPath(fs, SlotOf(n, off / BLOCK_SIZE))
    requires WriteChunk(fs, n, off, chunk) == Some(fs')
    ensures Consistent(fs') && |fs'.inodes| == |fs.inodes|
  {
    var s := SlotOf(n, off / BLOCK_SIZE);
    var fs1 := EnsurePath(fs, s).value;
    BmapNeedsBlankIndex(fs, fs1, s);
    EnsurePathKeeps(fs, fs1, s);
    AtInDisk(fs1, s);
    PutBytesSound(fs1, fs', n, s, off, chunk);
    SameTreeLeaksNothing(fs1, fs');
  }

  lemma SameTreeLeaksNothing(fs: Fs, fs': Fs)
    requires NoLeaks(fs) && fs'.zmap == fs.zmap && fs'.base == fs.base && fs'.zones == fs.zones
    requires forall t :: ValidSlot(t) ==> At(fs', t) == At(fs, t)
    ensures NoLeaks(fs')
  {
    hide At, ValidSlot;
    forall z | Allocated(fs', z)
      ensures exists t :: ValidSlot(t) && At(fs', t) == z
    {
      assert Allocated(fs, z);
      var t :| ValidSlot(t) && At(fs, t) == z;
      assert At(fs', t) == z;
    }
  }

  /** A write keeps the tree consistent all along if and only if no zone that it takes for an index block names
      a zone when it is taken. */
  lemma {:induction false} WriteNeedsBlankIndex(fs: Fs, fs': Fs, n: nat, off: nat, data: seq<Byte>)
    requires Consistent(fs) && n < |fs.inodes| && Write(fs, n, off, data) == Some(fs')
    ensures StaysConsistent(fs, n, off, data) <==> CleanWrite(fs, n, off, data)
    ensures CleanWrite(fs, n, off, data) ==> Consistent(fs')
    decreases |data|
  {
    hide Consistent, WriteChunk, CleanPath;
    if data != [] {
      var chars := Chars(off, |data|);
      if off / BLOCK_SIZE >= TOTAL_BLOCK {
        ChunkHalts(fs, n, off, data[..chars]);
      }
      var a, b := data[..chars], data[chars..];
      var s := SlotOf(n, off / BLOCK_SIZE);
      var fs2 := WriteChunk(fs, n, off, a).value;
      ChunkMapsFirst(fs, n, off, a);
      BmapNeedsBlankIndex(fs, EnsurePath(fs, s).value, s);
      if CleanPath(fs, s) {
        ChunkConsistent(fs, fs2, n, off, a);
        WriteNeedsBlankIndex(fs2, fs', n, off + chars, b);
      }
    }
  }

  lemma ChunkMapsFirst(fs: Fs, n: nat, off: nat, chunk: seq<Byte>)
    requires n < |fs.inodes| && WriteChunk(fs, n, off, chunk).Some?
    ensures off / BLOCK_SIZE < TOTAL_BLOCK && EnsurePath(fs, SlotOf(n, off / BLOCK_SIZE)).Some?
  {}

  /** Any write that does not halt, from any offset: either it does what a write should, or one of its allocations
      leaves a tree that names a zone twice or names a free one. */
  lemma WriteIsRightExactly(fs: Fs, fs': Fs, n: nat, off: nat, data: seq<Byte>)
    requires Consistent(fs) && n < |fs.inodes| && Write(fs, n, off, data) == Some(fs')
    ensures CleanWrite(fs, n, off, data) ==> Consistent(fs') && Stored(fs, fs', n, off, data)
    ensures !CleanWrite(fs, n, off, data) ==> !StaysConsistent(fs, n, off, data)
  {
    WriteNeedsBlankIndex(fs, fs', n, off, data);
    if CleanWrite(fs, n, off, data) {
      WriteStored(fs, fs', n, off, data);
    }
  }

  lemma {:induction false} FirstClearIs(zmap: seq<bool>, i: nat, j: nat)
    requires i <= j < |zmap| && !zmap[j] && forall k :: i <= k < j ==> zmap[k]
    ensures FirstClear(zmap, i) == Some(j)
    decreases j - i
  {
    if i < j {
      FirstClearIs(zmap, i + 1, j);
    }
  }

  /** A file of seven blocks on a disk whose next free zone, 9, still holds an old index block that
      begins with the number of the file's own first zone. */
  function StaleDisk(): Fs {
    var blank: Block := seq(BLOCK_SIZE, _ => 0);
    Fs([Inode(0x8000, 7 * BLOCK_SIZE, [2, 3, 4, 5, 6, 7, 8, 0, 0])],
       seq(10, z => if z == 9 then blank[0 := 2] else blank),
       seq(BLOCK_BITS, i => i != 8), 1, 10)
  }

  lemma {:induction false} StaleDiskAt(s: Slot)
    requires ValidSlot(s)
    ensures At(StaleDisk(), s) == if s.Root? && s.n == 0 && s.k < 7 then 2 + s.k else 0
    decreases s
  {
    if s.Child? {
      StaleDiskAt(s.parent);
    }
  }

  /** bmap of block 7 hands out the zone of block 0. */
  lemma StaleDiskMaps(fs: Fs, fs1: Fs)
    requires fs == StaleDisk() && fs1 == PutZone(fs, Root(0, DIRECT_BLOCK), 9)
    requires Shaped(fs) && Owned(fs)
    ensures EnsurePath(fs, SlotOf(0, 7)) == Some(fs1) && At(fs1, SlotOf(0, 7)) == 2
    ensures |fs1.inodes| == 1 && |fs1.inodes[0].zone| == ZONES_PER_INODE && fs1.inodes[0].zone[0] == 2
    ensures fs1.blocks == fs.blocks
  {
    var r := Root(0, DIRECT_BLOCK);
    FirstClearIs(fs.zmap, 0, 8);
    StaleDiskAt(r);
    assert !Allocated(fs, 9);
    StaleEntryShows(fs, r, 9, 0);
    assert Index(fs.blocks[9], 0) == 2;
    assert SlotOf(0, 7) == Child(r, 0);
    assert EnsurePath(fs, r) == Some(fs1);
  }

  lemma WriteOneByte(fs: Fs, fs1: Fs, n: nat, off: nat, b: Byte)
    requires n < |fs.inodes| == |fs1.inodes| && off / BLOCK_SIZE < TOTAL_BLOCK
    requires EnsurePath(fs, SlotOf(n, off / BLOCK_SIZE)) == Some(fs1)
    requires 0 < At(fs1, SlotOf(n, off / BLOCK_SIZE)) < |fs1.blocks|
    ensures Write(fs, n, off, [b]) == Some(PutBytes(fs1, n, At(fs1, SlotOf(n, off / BLOCK_SIZE)), off, [b]))
  {
    var data: seq<Byte> := [b];
    assert Chars(off, 1) == 1 && data[..1] == data && data[1..] == [];
  }

  /** Reusing a stale index block loses data: appending one byte overwrites the file's first one. */
  lemma StaleIndexOverwrites() returns (fs': Fs)
    ensures Consistent(StaleDisk()) && NoHoles(StaleDisk(), 0)
    ensures Write(StaleDisk(), 0, 7 * BLOCK_SIZE, [1]) == Some(fs')
    ensures ByteOf(StaleDisk(), 0, 0) == 0 && ByteOf(fs', 0, 0) == 1
  {
    var fs := StaleDisk();
    var fs1 := PutZone(fs, Root(0, DIRECT_BLOCK), 9);
    StaleDiskIsConsistent();
    StaleDiskMaps(fs, fs1);
    WriteOneByte(fs, fs1, 0, 7 * BLOCK_SIZE, 1);
    fs' := PutBytes(fs1, 0, 2, 7 * BLOCK_SIZE, [1]);
    StaleDiskFirstByte(fs, fs1, fs', [1]);
  }

  lemma StaleDiskFirstByte(fs: Fs, fs1: Fs, fs': Fs, data: seq<Byte>)
    requires fs == StaleDisk() && |fs1.inodes| == 1 && |fs1.inodes[0].zone| == ZONES_PER_INODE && fs1.inodes[0].zone[0] == 2
    requires fs1.blocks == fs.blocks && data == [1] && fs' == PutBytes(fs1, 0, 2, 7 * BLOCK_SIZE, data)
    ensures |fs'.inodes| == 1 && fs'.inodes[0].size > 0
    ensures ByteOf(fs, 0, 0) == 0 && ByteOf(fs', 0, 0) == 1
  {
    assert SlotOf(0, 0) == Root(0, 0);
    assert At(fs', Root(0, 0)) == 2 && At(fs, Root(0, 0)) == 2;
  }

  lemma StaleDiskIsConsistent()
    ensures Consistent(StaleDisk()) && NoHoles(StaleDisk(), 0)
  {
    var fs := StaleDisk();
    forall s | ValidSlot(s)
      ensures At(fs, s) == if s.Root? && s.n == 0 && s.k < 7 then 2 + s.k else 0
    {
      StaleDiskAt(s);
    }
    forall z: nat | Allocated(fs, z)
      ensures exists s :: ValidSlot(s) && At(fs, s) == z
    {
      assert ValidSlot(Root(0, z - 2)) && At(fs, Root(0, z - 2)) == z;
    }
    forall b: nat | b * BLOCK_SIZE < fs.inodes[0].size
      ensures b < TOTAL_BLOCK && At(fs, SlotOf(0, b)) != 0
    {
      assert SlotOf(0, b) == Root(0, b);
    }
  }

  // ---------------------------------------------------------------- writes beyond the end

  /** A write leaves the file readable from end to end exactly when every block before its first one
      was mapped already; a write at or before the end always does. */
  lemma HoleExactly(fs: Fs, fs': Fs, n: nat, off: nat, data: seq<Byte>)
    requires Wf(fs) && NoHoles(fs, n) && data != [] && Write(fs, n, off, data) == Some(fs')
    requires CleanWrite(fs, n, off, data)
    ensures NoHoles(fs', n) <==> forall b: nat :: b < off / BLOCK_SIZE ==> HasBlock(fs, n, b)
    ensures off <= fs.inodes[n].size ==> NoHoles(fs', n)
  {
    WriteStored(fs, fs', n, off, data);
    if off <= fs.inodes[n].size {
      StoredLeavesNoHole(fs, fs', n, off, data, n);
    }
    HoleBefore(fs, fs', n, off, data);
  }

  lemma HoleBefore(fs: Fs, fs': Fs, n: nat, off: nat, data: seq<Byte>)
    requires Stored(fs, fs', n, off, data) && NoHoles(fs, n) && data != []
    ensures NoHoles(fs', n) <==> forall b: nat :: b < off / BLOCK_SIZE ==> HasBlock(fs, n, b)
  {
    hide HasBlock, ByteOf;
    forall b: nat
      ensures b * BLOCK_SIZE < fs'.inodes[n].size <==>
        b * BLOCK_SIZE < fs.inodes[n].size || b < off / BLOCK_SIZE || Touched(off, |data|, b)
      ensures b * BLOCK_SIZE < fs.inodes[n].size ==> HasBlock(fs, n, b)
      ensures b < off / BLOCK_SIZE ==> !Touched(off, |data|, b)
    {}
  }

  /** Every write into an empty, unmapped file that starts behind its first block leaves a hole, on
      which the assertion of inode_read fails. */
  lemma GapLeavesHole(fs: Fs, fs': Fs, n: nat, off: nat, data: seq<Byte>)
    requires Wf(fs) && n < |fs.inodes| && fs.inodes[n].size == 0 && !HasBlock(fs, n, 0) && off >= BLOCK_SIZE
    requires data != [] && Write(fs, n, off, data) == Some(fs') && CleanWrite(fs, n, off, data)
    ensures !NoHoles(fs', n)
  {
    hide HasBlock, Write, CleanWrite;
    HoleExactly(fs, fs', n, off, data);
    assert 0 < off / BLOCK_SIZE;
  }

  /** One empty file on a disk of eight free, blank zones. */
  function EmptyDisk(): Fs {
    var blank: Block := seq(BLOCK_SIZE, _ => 0);
    Fs([Inode(0x8000, 0, seq(ZONES_PER_INODE, _ => 0))], seq(10, _ => blank), seq(BLOCK_BITS, i => i == 0), 1, 10)
  }

  lemma {:induction false} EmptyDiskAt(s: Slot)
    ensures At(EmptyDisk(), s) == 0
    decreases s
  {
    if s.Child? {
      EmptyDiskAt(s.parent);
    }
  }

  lemma EmptyDiskIsWf()
    ensures Wf(EmptyDisk()) && NoHoles(EmptyDisk(), 0) && FreeBlank(EmptyDisk()) && !HasBlock(EmptyDisk(), 0, 0)
  {
    forall s
      ensures At(EmptyDisk(), s) == 0
    {
      EmptyDiskAt(s);
    }
    hide At;
  }

  /** A byte written at offset 1024 of that file makes its first block unreadable. */
  lemma HoleAppears() returns (fs': Fs)
    ensures Wf(EmptyDisk()) && NoHoles(EmptyDisk(), 0)
    ensures Write(EmptyDisk(), 0, BLOCK_SIZE, [1]) == Some(fs') && !NoHoles(fs', 0)
  {
    var fs := EmptyDisk();
    EmptyDiskIsWf();
    FirstClearIs(fs.zmap, 0, 1);
    var s := Root(0, 1);
    assert SlotOf(0, 1) == s;
    EmptyDiskAt(s);
    var fs1 := PutZone(fs, s, 2);
    assert EnsurePath(fs, s) == Some(fs1);
    StoredZone(fs, s, 2);
    WriteOneByte(fs, fs1, 0, BLOCK_SIZE, 1);
    fs' := Write(fs, 0, BLOCK_SIZE, [1]).value;
    BlankWrite(fs, 0, BLOCK_SIZE, [1]);
    GapLeavesHole(fs, fs', 0, BLOCK_SIZE, [1]);
  }
}
