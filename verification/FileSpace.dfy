/** When a write runs out of room: the kernel halts exactly if a block number is too large or there are fewer
    free zones than the tree lacks entries. */
module FileSpace {
  import opened Basics
  import opened FileTree
  import opened FileOwnership
  import opened FileContents

  // ---------------------------------------------------------------- free zones

  /** The clear bits among the first k. */
  function Clear(zmap: seq<bool>, k: nat): nat
    requires k <= |zmap|
  {
    if k == 0 then 0 else Clear(zmap, k - 1) + if zmap[k - 1] then 0 else 1
  }

  lemma {:induction false} ClearSet(zmap: seq<bool>, k: nat, i: nat)
    requires k <= |zmap| && i < |zmap| && !zmap[i]
    ensures Clear(zmap[i := true], k) == Clear(zmap, k) - if i < k then 1 else 0
  {
    if k > 0 {
      ClearSet(zmap, k - 1, i);
    }
  }

  lemma {:induction false} ClearNone(zmap: seq<bool>, k: nat)
    requires k <= |zmap|
    ensures Clear(zmap, k) == 0 <==> forall j :: 0 <= j < k ==> zmap[j]
  {
    if k > 0 {
      ClearNone(zmap, k - 1);
    }
  }

  /** The bits of the map that stand for zones of the volume. */
  function Usable(fs: Fs): (r: nat)
    requires Shaped(fs)
    ensures r <= |fs.zmap|
  {
    if fs.zones > fs.base then fs.zones - fs.base else 0
  }

  function FreeZones(fs: Fs): nat
    requires Shaped(fs)
  {
    Clear(fs.zmap, Usable(fs))
  }

  /** balloc halts exactly when no zone is free. */
  lemma BallocHalts(fs: Fs)
    requires Shaped(fs)
    ensures Balloc(fs).None? <==> FreeZones(fs) == 0
  {
    ClearNone(fs.zmap, Usable(fs));
  }

  // ---------------------------------------------------------------- missing entries

  /** The slots on the way from the inode down to s. */
  function PathSlots(s: Slot): set<Slot> {
    if s.Root? then {s} else PathSlots(s.parent) + {s}
  }

  /** Those of the k blocks from b on. */
  function BlockSlots(n: nat, b: nat, k: nat): set<Slot>
    requires b + k <= TOTAL_BLOCK
    decreases k
  {
    if k == 0 then {} else PathSlots(SlotOf(n, b)) + BlockSlots(n, b + 1, k - 1)
  }

  function Missing(fs: Fs, slots: set<Slot>): set<Slot> {
    set s | s in slots && At(fs, s) == 0
  }

  lemma {:induction false} PathIsValid(s: Slot, t: Slot)
    requires ValidSlot(s) && t in PathSlots(s)
    ensures ValidSlot(t) && Owner(t) == Owner(s) && (t == s || Level(t) > Level(s))
  {
    if s.Child? && t != s {
      PathIsValid(s.parent, t);
    }
  }

  lemma {:induction false} BlocksAreValid(n: nat, b: nat, k: nat, t: Slot)
    requires b + k <= TOTAL_BLOCK && t in BlockSlots(n, b, k)
    ensures ValidSlot(t)
    decreases k
  {
    if t in PathSlots(SlotOf(n, b)) {
      PathIsValid(SlotOf(n, b), t);
    } else {
      BlocksAreValid(n, b + 1, k - 1, t);
    }
  }

  /** One round of bmap takes one zone if its entry is missing, and halts exactly if there is none. */
  lemma TurnSpace(fs: Fs, s: Slot)
    requires Wf(fs) && ValidSlot(s) && Present(fs, s) && CleanTurn(fs, s)
    ensures Ensure(fs, s).None? <==> At(fs, s) == 0 && FreeZones(fs) == 0
    ensures Ensure(fs, s).Some? ==>
      var fs' := Ensure(fs, s).value;
      && Wf(fs') && FreeZones(fs') == FreeZones(fs) - (if At(fs, s) == 0 then 1 else 0)
      && forall t :: ValidSlot(t) ==> (At(fs', t) == 0 <==> At(fs, t) == 0 && t != s)
  {
    BallocHalts(fs);
    if Ensure(fs, s).Some? {
      var fs' := Ensure(fs, s).value;
      EnsureKeeps(fs, fs', s);
      if At(fs, s) == 0 {
        var i := Balloc(fs).value - fs.base;
        ClearSet(fs.zmap, Usable(fs), i);
        PutZoneMap(fs, s, Balloc(fs).value);
      }
    }
  }

  lemma PutZoneMap(fs: Fs, s: Slot, z: nat)
    requires Wf(fs) && ValidSlot(s) && Present(fs, s) && fs.base <= z < fs.zones
    ensures PutZone(fs, s, z).zmap == fs.zmap[z - fs.base := true]
    ensures PutZone(fs, s, z).base == fs.base && PutZone(fs, s, z).zones == fs.zones
  {
    if s.Child? {
      AtInDisk(fs, s.parent);
    }
  }

  lemma PathGrows(fs: Fs, s: Slot)
    requires ValidSlot(s) && s.Child?
    ensures s !in PathSlots(s.parent)
    ensures |Missing(fs, PathSlots(s))| == |Missing(fs, PathSlots(s.parent))| + if At(fs, s) == 0 then 1 else 0
  {
    if s in PathSlots(s.parent) {
      PathIsValid(s.parent, s);
    }
    var up := Missing(fs, PathSlots(s.parent));
    assert Missing(fs, PathSlots(s)) == if At(fs, s) == 0 then up + {s} else up;
  }

  /** bmap with create takes one zone for each missing entry on its way, and halts exactly if they are too few. */
  lemma {:induction false} PathSpace(fs: Fs, s: Slot)
    requires Wf(fs) && ValidSlot(s) && Owner(s) < |fs.inodes| && CleanPath(fs, s)
    ensures EnsurePath(fs, s).None? <==> FreeZones(fs) < |Missing(fs, PathSlots(s))|
    ensures EnsurePath(fs, s).Some? ==>
      var fs' := EnsurePath(fs, s).value;
      && Wf(fs') && FreeZones(fs') == FreeZones(fs) - |Missing(fs, PathSlots(s))|
      && forall t :: ValidSlot(t) ==> (At(fs', t) == 0 <==> At(fs, t) == 0 && t !in PathSlots(s))
    decreases s
  {
    hide Ensure, CleanTurn, At, Wf;
    if s.Root? {
      TurnSpace(fs, s) by { RootPresent(fs, s); }
      assert Missing(fs, PathSlots(s)) == if At(fs, s) == 0 then {s} else {};
    } else {
      PathSpace(fs, s.parent);
      PathGrows(fs, s);
      if EnsurePath(fs, s.parent).Some? {
        var fs1 := EnsurePath(fs, s.parent).value;
        assert s.parent in PathSlots(s.parent) && ValidSlot(s.parent);
        TurnSpace(fs1, s);
      }
    }
  }

  lemma RootPresent(fs: Fs, s: Slot)
    requires s.Root? && Owner(s) < |fs.inodes|
    ensures Present(fs, s)
  {}

  // ---------------------------------------------------------------- whole writes

  /** Copying bytes takes no zone. */
  lemma PutBytesSpace(fs: Fs, fs': Fs, n: nat, s: Slot, off: nat, chunk: seq<Byte>)
    requires Wf(fs) && n < |fs.inodes| && ValidSlot(s) && Level(s) == 0 && At(fs, s) != 0
    requires off % BLOCK_SIZE + |chunk| <= BLOCK_SIZE && fs' == PutBytes(fs, n, At(fs, s), off, chunk)
    ensures Wf(fs') && |fs'.inodes| == |fs.inodes| && FreeZones(fs') == FreeZones(fs)
    ensures forall t :: ValidSlot(t) ==> At(fs', t) == At(fs, t)
  {
    hide *;
    PutBytesSound(fs, fs', n, s, off, chunk);
    PutBytesMap(fs, n, At(fs, s), off, chunk);
    SameMap(fs, fs');
  }

  lemma SameMap(fs: Fs, fs': Fs)
    requires Wf(fs) && Wf(fs') && fs'.zmap == fs.zmap && fs'.base == fs.base && fs'.zones == fs.zones
    ensures Shaped(fs) && Shaped(fs') && FreeZones(fs') == FreeZones(fs)
  {
    hide Clear, Owned;
  }

  lemma PutBytesMap(fs: Fs, n: nat, z: nat, off: nat, chunk: seq<Byte>)
    requires n < |fs.inodes|
    ensures var fs' := PutBytes(fs, n, z, off, chunk);
      && fs'.zmap == fs.zmap && fs'.base == fs.base && fs'.zones == fs.zones && |fs'.inodes| == |fs.inodes|
  {}

  lemma ChunkIs(fs: Fs, n: nat, off: nat, chunk: seq<Byte>)
    requires n < |fs.inodes| && off / BLOCK_SIZE < TOTAL_BLOCK
    ensures var s := SlotOf(n, off / BLOCK_SIZE);
      match EnsurePath(fs, s)
      case None => WriteChunk(fs, n, off, chunk).None?
      case Some(fs1) => 0 < At(fs1, s) < |fs1.blocks| && n < |fs1.inodes| ==>
        WriteChunk(fs, n, off, chunk) == Some(PutBytes(fs1, n, At(fs1, s), off, chunk))
  {
    hide EnsurePath, SlotOf, PutBytes, At;
  }

  /** The first chunk of a write: its own entries are there afterwards. */
  lemma ChunkSpace(fs: Fs, n: nat, off: nat, chunk: seq<Byte>)
    requires Wf(fs) && n < |fs.inodes| && chunk != [] && off % BLOCK_SIZE + |chunk| <= BLOCK_SIZE
    requires off / BLOCK_SIZE < TOTAL_BLOCK && CleanPath(fs, SlotOf(n, off / BLOCK_SIZE))
    ensures var path := PathSlots(SlotOf(n, off / BLOCK_SIZE));
      && (WriteChunk(fs, n, off, chunk).None? <==> FreeZones(fs) < |Missing(fs, path)|)
      && (WriteChunk(fs, n, off, chunk).Some? ==>
            var fs' := WriteChunk(fs, n, off, chunk).value;
            && Wf(fs') && |fs'.inodes| == |fs.inodes| && FreeZones(fs') == FreeZones(fs) - |Missing(fs, path)|
            && forall t :: ValidSlot(t) ==> (At(fs', t) == 0 <==> At(fs, t) == 0 && t !in path))
  {
    hide EnsurePath, CleanPath, Missing, PathSlots, SlotOf, At, WriteChunk, FreeZones, PutBytes, Owned, Level, ValidSlot;
    var s := SlotOf(n, off / BLOCK_SIZE);
    PathSpace(fs, s);
    ChunkIs(fs, n, off, chunk);
    if EnsurePath(fs, s).Some? {
      var fs1 := EnsurePath(fs, s).value;
      EnsurePathKeeps(fs, fs1, s);
      AtInDisk(fs1, s);
      PutBytesSpace(fs1, PutBytes(fs1, n, At(fs1, s), off, chunk), n, s, off, chunk);
    }
  }

  /** What the first block lacks and what the others lack besides. */
  lemma MissingSplits(fs: Fs, fs': Fs, n: nat, b: nat, k: nat)
    requires k > 0 && b + k <= TOTAL_BLOCK
    requires forall t :: ValidSlot(t) ==> (At(fs', t) == 0 <==> At(fs, t) == 0 && t !in PathSlots(SlotOf(n, b)))
    ensures |Missing(fs, BlockSlots(n, b, k))|
         == |Missing(fs, PathSlots(SlotOf(n, b)))| + |Missing(fs', BlockSlots(n, b + 1, k - 1))|
  {
    var first, rest := Missing(fs, PathSlots(SlotOf(n, b))), Missing(fs', BlockSlots(n, b + 1, k - 1));
    forall t | t in BlockSlots(n, b + 1, k - 1)
      ensures ValidSlot(t)
    {
      BlocksAreValid(n, b + 1, k - 1, t);
    }
    assert Missing(fs, BlockSlots(n, b, k)) == first + rest;
    assert first !! rest;
  }

  lemma FirstIsSubset(fs: Fs, n: nat, b: nat, k: nat)
    requires k > 0 && b + k <= TOTAL_BLOCK
    ensures |Missing(fs, PathSlots(SlotOf(n, b)))| <= |Missing(fs, BlockSlots(n, b, k))|
  {
    var first, all := Missing(fs, PathSlots(SlotOf(n, b))), Missing(fs, BlockSlots(n, b, k));
    assert all == first + (all - first);
  }

  /** The blocks that `len` bytes from off on fall into. */
  function Span(off: nat, len: nat): (k: nat)
    ensures len > 0 ==> k > 0 && off / BLOCK_SIZE + k == (off + len - 1) / BLOCK_SIZE + 1
  {
    if len == 0 then 0 else (off + len - 1) / BLOCK_SIZE - off / BLOCK_SIZE + 1
  }

  /** The entries that a write of `len` bytes from off on lacks, data and index zones alike. */
  function Lacking(fs: Fs, n: nat, off: nat, len: nat): nat
    requires off / BLOCK_SIZE + Span(off, len) <= TOTAL_BLOCK
  {
    |Missing(fs, BlockSlots(n, off / BLOCK_SIZE, Span(off, len)))|
  }

  lemma SpanStep(off: nat, k: nat, len: nat)
    requires 0 < k < len && off % BLOCK_SIZE + k == BLOCK_SIZE
    ensures (off + k) / BLOCK_SIZE == off / BLOCK_SIZE + 1 && Span(off, len) == Span(off + k, len - k) + 1
  {}

  /** The last of `len` bytes from off on lies beyond the largest file, or the free zones are fewer than the entries
      that the blocks of these bytes lack. */
  predicate NoRoom(fs: Fs, n: nat, off: nat, len: nat)
    requires Shaped(fs)
  {
    len > 0 && (off / BLOCK_SIZE + Span(off, len) > TOTAL_BLOCK || FreeZones(fs) < Lacking(fs, n, off, len))
  }

  /** inode_write halts for lack of room if and only if there is none. */
  lemma {:induction false} WriteHalts(fs: Fs, n: nat, off: nat, data: seq<Byte>)
    requires Wf(fs) && n < |fs.inodes| && CleanWrite(fs, n, off, data)
    ensures Write(fs, n, off, data).None? <==> NoRoom(fs, n, off, |data|)
    decreases |data|
  {
    hide Wf, WriteChunk, CleanPath, Missing, BlockSlots, FreeZones, PathSlots, SlotOf, Span;
    if data != [] {
      var chars := Chars(off, |data|);
      var a, b := data[..chars], data[chars..];
      if off / BLOCK_SIZE >= TOTAL_BLOCK {
        ChunkHalts(fs, n, off, a);
      } else {
        ChunkSpace(fs, n, off, a);
        if b == [] {
          OneBlock(fs, n, off, chars);
          assert chars == |data|;
          if WriteChunk(fs, n, off, a).Some? {
            assert Write(WriteChunk(fs, n, off, a).value, n, off + chars, b).Some?;
          }
        } else {
          SpanStep(off, chars, |data|);
          if off / BLOCK_SIZE + Span(off, |data|) <= TOTAL_BLOCK {
            FirstIsSubset(fs, n, off / BLOCK_SIZE, Span(off, |data|));
          }
          if WriteChunk(fs, n, off, a).Some? {
            var fs1 := WriteChunk(fs, n, off, a).value;
            WriteHalts(fs1, n, off + chars, b);
            if off / BLOCK_SIZE + Span(off, |data|) <= TOTAL_BLOCK {
              MissingSplits(fs, fs1, n, off / BLOCK_SIZE, Span(off, |data|));
            }
          }
        }
      }
    }
  }

  lemma OneBlock(fs: Fs, n: nat, off: nat, len: nat)
    requires len > 0 && off % BLOCK_SIZE + len <= BLOCK_SIZE && off / BLOCK_SIZE < TOTAL_BLOCK
    ensures Span(off, len) == 1 && Lacking(fs, n, off, len) == |Missing(fs, PathSlots(SlotOf(n, off / BLOCK_SIZE)))|
  {
    assert (off + len - 1) / BLOCK_SIZE == off / BLOCK_SIZE;
    assert BlockSlots(n, off / BLOCK_SIZE + 1, 0) == {};
    assert BlockSlots(n, off / BLOCK_SIZE, 1) == PathSlots(SlotOf(n, off / BLOCK_SIZE));
  }
}
