/** Reading and writing files (fs/inode.c): over the block tree, a file is a sequence of bytes. */
module FileContents {
  import opened Basics
  import opened FileTree
  import opened FileOwnership

  // ---------------------------------------------------------------- what a file holds

  /** Block b of file n has a zone. */
  predicate HasBlock(fs: Fs, n: nat, b: nat) {
    b < TOTAL_BLOCK && At(fs, SlotOf(n, b)) != 0
  }

  /** Every block below the file's size is mapped, which is what inode_read asserts. */
  ghost predicate NoHoles(fs: Fs, n: nat) {
    n < |fs.inodes| && forall b: nat :: b * BLOCK_SIZE < fs.inodes[n].size ==> HasBlock(fs, n, b)
  }

  function ByteOf(fs: Fs, n: nat, x: nat): Byte {
    var b := x / BLOCK_SIZE;
    if b >= TOTAL_BLOCK then 0
    else
      var z := At(fs, SlotOf(n, b));
      if z < |fs.blocks| && x % BLOCK_SIZE < |fs.blocks[z]| then fs.blocks[z][x % BLOCK_SIZE] else 0
  }

  function Contents(fs: Fs, n: nat): (c: seq<Byte>)
    requires n < |fs.inodes|
    ensures |c| == fs.inodes[n].size
    ensures forall x :: 0 <= x < |c| ==> c[x] == ByteOf(fs, n, x)
  {
    seq(fs.inodes[n].size, x requires x >= 0 => ByteOf(fs, n, x))
  }

  /** A consistent file system whose files have no holes. */
  ghost predicate Sound(fs: Fs) {
    Wf(fs) && forall n :: 0 <= n < |fs.inodes| ==> NoHoles(fs, n)
  }

  /** The bytes of c with data put over them from off on, extending c if need be. */
  function Splice(c: seq<Byte>, off: nat, data: seq<Byte>): (r: seq<Byte>)
    requires off <= |c|
    ensures |r| == if off + |data| < |c| then |c| else off + |data|
    ensures forall x :: 0 <= x < |r| ==> r[x] == if off <= x < off + |data| then data[x - off] else c[x]
  {
    c[..off] + data + if off + |data| < |c| then c[off + |data|..] else []
  }

  // ---------------------------------------------------------------- inode_write

  function Min(a: nat, b: nat): nat {
    if a < b then a else b
  }

  /** How much of `left` bytes at offset off fits in its block. */
  function Chars(off: nat, left: nat): (r: nat)
    ensures left > 0 ==> 0 < r <= left
    ensures off % BLOCK_SIZE + r <= BLOCK_SIZE
  {
    Min(BLOCK_SIZE - off % BLOCK_SIZE, left)
  }

  /** The copy into block zone z at `start`, and the new size if the file grows. */
  function PutBytes(fs: Fs, n: nat, z: nat, off: nat, chunk: seq<Byte>): Fs
    requires n < |fs.inodes|
  {
    var end := off + |chunk|;
    var inode := Inode(fs.inodes[n].mode, if end > fs.inodes[n].size then end else fs.inodes[n].size, fs.inodes[n].zone);
    if z < |fs.blocks| && off % BLOCK_SIZE <= |fs.blocks[z]|
    then Fs(fs.inodes[n := inode], fs.blocks[z := Overlay(fs.blocks[z], off % BLOCK_SIZE, chunk)], fs.zmap, fs.base, fs.zones)
    else fs
  }

  /** The block with the chunk copied over it from `start` on. */
  function Overlay(b: Block, start: nat, chunk: seq<Byte>): (r: Block)
    requires start <= |b|
    ensures start + |chunk| <= |b| ==> |r| == |b|
    ensures start + |chunk| <= |b| ==>
      forall x :: 0 <= x < |b| ==> r[x] == if start <= x < start + |chunk| then chunk[x - start] else b[x]
  {
    b[..start] + chunk + if start + |chunk| <= |b| then b[start + |chunk|..] else []
  }

  /** One turn of inode_write's loop; halts beyond the last block, when no zone is free, or
      at a zone number beyond the disk. */
  function WriteChunk(fs: Fs, n: nat, off: nat, chunk: seq<Byte>): Option<Fs>
    requires n < |fs.inodes|
  {
    if off / BLOCK_SIZE >= TOTAL_BLOCK then None
    else match EnsurePath(fs, SlotOf(n, off / BLOCK_SIZE))
      case None => None
      case Some(fs1) =>
        var z := At(fs1, SlotOf(n, off / BLOCK_SIZE));
        if z == 0 || z >= |fs1.blocks| || n >= |fs1.inodes| then None else Some(PutBytes(fs1, n, z, off, chunk))
  }

  function Write(fs: Fs, n: nat, off: nat, data: seq<Byte>): Option<Fs>
    requires n < |fs.inodes|
    decreases |data|
  {
    if data == [] then Some(fs)
    else
      var chars := Chars(off, |data|);
      match WriteChunk(fs, n, off, data[..chars])
      case None => None
      case Some(fs1) => if n >= |fs1.inodes| then None else Write(fs1, n, off + chars, data[chars..])
  }

  /** Every zone that the write takes for an index block names no zone. */
  ghost predicate CleanWrite(fs: Fs, n: nat, off: nat, data: seq<Byte>)
    requires n < |fs.inodes|
    decreases |data|
  {
    data == [] || off / BLOCK_SIZE >= TOTAL_BLOCK ||
    (CleanPath(fs, SlotOf(n, off / BLOCK_SIZE)) &&
     var chars := Chars(off, |data|);
     match WriteChunk(fs, n, off, data[..chars])
     case None => true
     case Some(fs1) => n < |fs1.inodes| ==> CleanWrite(fs1, n, off + chars, data[chars..]))
  }

  /** inode_read: EOF (None) from the end of the file on, else the bytes up to there. */
  function Read(fs: Fs, n: nat, off: nat, len: nat): Option<seq<Byte>>
    requires n < |fs.inodes|
  {
    var size := fs.inodes[n].size;
    if off >= size then None else Some(Contents(fs, n)[off..off + Min(len, size - off)])
  }

  /** The blocks that a read of `len` bytes from off on touches are mapped, as inode_read asserts. */
  ghost predicate CanRead(fs: Fs, n: nat, off: nat, len: nat)
    requires n < |fs.inodes|
  {
    forall x: nat :: off <= x < fs.inodes[n].size && x < off + len ==> HasBlock(fs, n, x / BLOCK_SIZE)
  }

  lemma NoHolesCanRead(fs: Fs, n: nat, off: nat, len: nat)
    requires NoHoles(fs, n)
    ensures CanRead(fs, n, off, len)
  {
    forall x: nat | x < fs.inodes[n].size
      ensures HasBlock(fs, n, x / BLOCK_SIZE)
    {
      Readable(fs, n, x);
    }
  }

  // ---------------------------------------------------------------- one chunk

  /** Writing bytes into a data zone leaves the tree as it is. */
  lemma {:induction false} PutBytesAt(fs: Fs, n: nat, s: Slot, off: nat, chunk: seq<Byte>, t: Slot)
    requires Shaped(fs) && Owned(fs) && n < |fs.inodes| && ValidSlot(s) && Level(s) == 0 && At(fs, s) != 0
    requires ValidSlot(t)
    ensures At(PutBytes(fs, n, At(fs, s), off, chunk), t) == At(fs, t)
  {
    if t.Child? {
      PutBytesAt(fs, n, s, off, chunk, t.parent);
      DataIsNotIndex(fs, t, s);
    }
  }

  lemma PutBytesTree(fs: Fs, fs': Fs, n: nat, s: Slot, off: nat, chunk: seq<Byte>)
    requires Shaped(fs) && Owned(fs) && n < |fs.inodes| && ValidSlot(s) && Level(s) == 0 && At(fs, s) != 0
    requires fs' == PutBytes(fs, n, At(fs, s), off, chunk)
    ensures forall t :: ValidSlot(t) ==> At(fs', t) == At(fs, t)
  {
    forall t | ValidSlot(t)
      ensures At(fs', t) == At(fs, t)
    {
      PutBytesAt(fs, n, s, off, chunk, t);
    }
  }

  lemma SameTreeOwned(fs: Fs, fs': Fs)
    requires Owned(fs) && fs'.zmap == fs.zmap && fs'.base == fs.base && fs'.zones == fs.zones
    requires forall t :: ValidSlot(t) ==> At(fs', t) == At(fs, t)
    ensures Owned(fs')
  {
    hide At, Level, ValidSlot;
  }

  lemma PutBytesSound(fs: Fs, fs': Fs, n: nat, s: Slot, off: nat, chunk: seq<Byte>)
    requires Wf(fs) && n < |fs.inodes| && ValidSlot(s) && Level(s) == 0 && At(fs, s) != 0
    requires off % BLOCK_SIZE + |chunk| <= BLOCK_SIZE && fs' == PutBytes(fs, n, At(fs, s), off, chunk)
    ensures Wf(fs')
    ensures forall t :: ValidSlot(t) ==> At(fs', t) == At(fs, t)
  {
    AtInDisk(fs, s);
    PutBytesTree(fs, fs', n, s, off, chunk);
    SameTreeOwned(fs, fs');
    PutBytesShaped(fs, fs', n, At(fs, s), off, chunk);
  }

  lemma PutBytesShaped(fs: Fs, fs': Fs, n: nat, z: nat, off: nat, chunk: seq<Byte>)
    requires Shaped(fs) && n < |fs.inodes| && Allocated(fs, z)
    requires off % BLOCK_SIZE + |chunk| <= BLOCK_SIZE && fs' == PutBytes(fs, n, z, off, chunk)
    ensures Shaped(fs')
    ensures FreeBlank(fs) ==> FreeBlank(fs')
  {}

  /** The bytes of every file after a chunk was put into block b of file n. */
  lemma PutBytesBytes(fs: Fs, fs': Fs, n: nat, b: nat, off: nat, chunk: seq<Byte>, m: nat, x: nat)
    requires Wf(fs) && n < |fs.inodes| && b == off / BLOCK_SIZE < TOTAL_BLOCK && At(fs, SlotOf(n, b)) != 0
    requires off % BLOCK_SIZE + |chunk| <= BLOCK_SIZE && fs' == PutBytes(fs, n, At(fs, SlotOf(n, b)), off, chunk)
    requires forall t :: ValidSlot(t) ==> At(fs', t) == At(fs, t)
    requires x / BLOCK_SIZE < TOTAL_BLOCK && At(fs, SlotOf(m, x / BLOCK_SIZE)) != 0
    ensures ByteOf(fs', m, x) == if m == n && off <= x < off + |chunk| then chunk[x - off] else ByteOf(fs, m, x)
  {
    hide At, Level;
    var s, t := SlotOf(n, b), SlotOf(m, x / BLOCK_SIZE);
    AtInDisk(fs, s);
    AtInDisk(fs, t);
    if At(fs, t) == At(fs, s) {
      SlotOfInjective(n, b, m, x / BLOCK_SIZE);
    }
  }

  lemma Readable(fs: Fs, n: nat, x: nat)
    requires NoHoles(fs, n) && x < fs.inodes[n].size
    ensures HasBlock(fs, n, x / BLOCK_SIZE)
  {
    assert x / BLOCK_SIZE * BLOCK_SIZE < fs.inodes[n].size;
  }

  /** bmap with create leaves every byte that was mapped where it is. */
  lemma EnsureKeepsByte(fs: Fs, fs1: Fs, m: nat, x: nat)
    requires Kept(fs, fs1) && Shaped(fs) && Owned(fs)
    requires forall t :: ValidSlot(t) && At(fs, t) != 0 ==> At(fs1, t) == At(fs, t)
    requires x / BLOCK_SIZE < TOTAL_BLOCK && At(fs, SlotOf(m, x / BLOCK_SIZE)) != 0
    ensures ByteOf(fs1, m, x) == ByteOf(fs, m, x)
  {
    AtInDisk(fs, SlotOf(m, x / BLOCK_SIZE));
  }

  // ---------------------------------------------------------------- what a write does

  function Grown(size: nat, off: nat, len: nat): nat {
    if len > 0 && off + len > size then off + len else size
  }

  /** Byte x of file m is one of `len` bytes from off on in file n. */
  predicate Within(m: nat, x: nat, n: nat, off: nat, len: nat) {
    m == n && off <= x < off + len
  }

  /** Block b holds one of `len` bytes from off on. */
  predicate Touched(off: nat, len: nat, b: nat) {
    len > 0 && off / BLOCK_SIZE <= b <= (off + len - 1) / BLOCK_SIZE
  }

  /** What a write does, wherever it starts: its bytes are in the file, which has grown if need be; just the blocks
      they fall into are mapped besides those that were; every other byte of a block that was mapped stays, in
      this file and in all others. */
  ghost predicate Stored(fs: Fs, fs': Fs, n: nat, off: nat, data: seq<Byte>) {
    && |fs'.inodes| == |fs.inodes|
    && (forall m :: 0 <= m < |fs.inodes| ==> fs'.inodes[m].mode == fs.inodes[m].mode)
    && (forall m :: 0 <= m < |fs.inodes| ==>
          fs'.inodes[m].size == if m == n then Grown(fs.inodes[m].size, off, |data|) else fs.inodes[m].size)
    && (forall m: nat, b: nat :: HasBlock(fs', m, b) <==> HasBlock(fs, m, b) || (m == n && Touched(off, |data|, b)))
    && (forall m: nat, x: nat :: Within(m, x, n, off, |data|) ==> ByteOf(fs', m, x) == data[x - off])
    && (forall m: nat, x: nat :: !Within(m, x, n, off, |data|) && HasBlock(fs, m, x / BLOCK_SIZE) ==>
          ByteOf(fs', m, x) == ByteOf(fs, m, x))
  }

  lemma ChunkMaps(fs: Fs, fs1: Fs, fs': Fs, n: nat, off: nat, chunk: seq<Byte>, m: nat, b: nat)
    requires off / BLOCK_SIZE < TOTAL_BLOCK && chunk != [] && off % BLOCK_SIZE + |chunk| <= BLOCK_SIZE
    requires forall t :: ValidSlot(t) ==> At(fs', t) == At(fs1, t)
    requires At(fs1, SlotOf(n, off / BLOCK_SIZE)) != 0
    requires forall t :: ValidSlot(t) && Level(t) == 0 && t != SlotOf(n, off / BLOCK_SIZE) ==> At(fs1, t) == At(fs, t)
    ensures HasBlock(fs', m, b) <==> HasBlock(fs, m, b) || (m == n && Touched(off, |chunk|, b))
  {
    assert Touched(off, |chunk|, b) <==> b == off / BLOCK_SIZE;
    hide At, Touched, Level, ValidSlot;
    if b < TOTAL_BLOCK && SlotOf(m, b) == SlotOf(n, off / BLOCK_SIZE) {
      SlotOfInjective(m, b, n, off / BLOCK_SIZE);
    }
  }

  lemma ChunkByte(fs: Fs, fs1: Fs, fs': Fs, n: nat, off: nat, chunk: seq<Byte>, m: nat, x: nat)
    requires Wf(fs) && Wf(fs1) && Kept(fs, fs1) && n < |fs1.inodes| && off % BLOCK_SIZE + |chunk| <= BLOCK_SIZE
    requires forall t :: ValidSlot(t) && At(fs, t) != 0 ==> At(fs1, t) == At(fs, t)
    requires off / BLOCK_SIZE < TOTAL_BLOCK && At(fs1, SlotOf(n, off / BLOCK_SIZE)) != 0
    requires fs' == PutBytes(fs1, n, At(fs1, SlotOf(n, off / BLOCK_SIZE)), off, chunk)
    requires forall t :: ValidSlot(t) ==> At(fs', t) == At(fs1, t)
    ensures Within(m, x, n, off, |chunk|) ==> ByteOf(fs', m, x) == chunk[x - off]
    ensures !Within(m, x, n, off, |chunk|) && HasBlock(fs, m, x / BLOCK_SIZE) ==> ByteOf(fs', m, x) == ByteOf(fs, m, x)
  {
    hide At, Level, ByteOf, PutBytes, Owned, Shaped;
    if Within(m, x, n, off, |chunk|) {
      assert x / BLOCK_SIZE == off / BLOCK_SIZE;
      PutBytesBytes(fs1, fs', n, off / BLOCK_SIZE, off, chunk, m, x);
    } else if HasBlock(fs, m, x / BLOCK_SIZE) {
      EnsureKeepsByte(fs, fs1, m, x);
      PutBytesBytes(fs1, fs', n, off / BLOCK_SIZE, off, chunk, m, x);
    }
  }

  /** A turn of the loop maps a block and then copies into it. */
  lemma ChunkParts(fs: Fs, fs': Fs, n: nat, off: nat, chunk: seq<Byte>) returns (fs1: Fs)
    requires Wf(fs) && n < |fs.inodes| && off % BLOCK_SIZE + |chunk| <= BLOCK_SIZE
    requires off / BLOCK_SIZE < TOTAL_BLOCK && CleanPath(fs, SlotOf(n, off / BLOCK_SIZE))
    requires WriteChunk(fs, n, off, chunk) == Some(fs')
    ensures Wf(fs1) && Wf(fs') && Kept(fs, fs1) && |fs1.inodes| == |fs.inodes|
    ensures forall t :: ValidSlot(t) && At(fs, t) != 0 ==> At(fs1, t) == At(fs, t)
    ensures forall t :: ValidSlot(t) && Level(t) == 0 && t != SlotOf(n, off / BLOCK_SIZE) ==> At(fs1, t) == At(fs, t)
    ensures At(fs1, SlotOf(n, off / BLOCK_SIZE)) != 0
    ensures fs' == PutBytes(fs1, n, At(fs1, SlotOf(n, off / BLOCK_SIZE)), off, chunk)
    ensures forall t :: ValidSlot(t) ==> At(fs', t) == At(fs1, t)
  {
    hide At, Level, EnsurePath, CleanPath, PutBytes, Owned;
    var s := SlotOf(n, off / BLOCK_SIZE);
    fs1 := EnsurePath(fs, s).value;
    EnsurePathKeeps(fs, fs1, s);
    PutBytesSound(fs1, fs', n, s, off, chunk);
  }

  /** Modes and sizes after it. */
  lemma ChunkInodes(fs: Fs, fs1: Fs, fs': Fs, n: nat, z: nat, off: nat, chunk: seq<Byte>)
    requires Kept(fs, fs1) && n < |fs.inodes| && chunk != [] && fs' == PutBytes(fs1, n, z, off, chunk)
    requires z < |fs1.blocks| && |fs1.blocks[z]| == BLOCK_SIZE
    ensures |fs'.inodes| == |fs.inodes|
    ensures forall m :: 0 <= m < |fs.inodes| ==> fs'.inodes[m].mode == fs.inodes[m].mode
    ensures forall m :: 0 <= m < |fs.inodes| ==>
      fs'.inodes[m].size == if m == n then Grown(fs.inodes[m].size, off, |chunk|) else fs.inodes[m].size
  {
    hide At, Level, Overlay;
  }

  /** One turn of the loop. */
  lemma ChunkStored(fs: Fs, fs': Fs, n: nat, off: nat, chunk: seq<Byte>)
    requires Wf(fs) && n < |fs.inodes| && chunk != [] && off % BLOCK_SIZE + |chunk| <= BLOCK_SIZE
    requires off / BLOCK_SIZE < TOTAL_BLOCK && CleanPath(fs, SlotOf(n, off / BLOCK_SIZE))
    requires WriteChunk(fs, n, off, chunk) == Some(fs')
    ensures Wf(fs') && Stored(fs, fs', n, off, chunk)
  {
    hide At, Level, ValidSlot, ByteOf, HasBlock, Touched, SlotOf, Owned, Kept, PutBytes, CleanPath, WriteChunk;
    var fs1 := ChunkParts(fs, fs', n, off, chunk);
    AtInDisk(fs1, SlotOf(n, off / BLOCK_SIZE));
    ChunkInodes(fs, fs1, fs', n, At(fs1, SlotOf(n, off / BLOCK_SIZE)), off, chunk);
    forall m: nat, b: nat
      ensures HasBlock(fs', m, b) <==> HasBlock(fs, m, b) || (m == n && Touched(off, |chunk|, b))
    {
      ChunkMaps(fs, fs1, fs', n, off, chunk, m, b);
    }
    forall m: nat, x: nat
      ensures Within(m, x, n, off, |chunk|) ==> ByteOf(fs', m, x) == chunk[x - off]
      ensures !Within(m, x, n, off, |chunk|) && HasBlock(fs, m, x / BLOCK_SIZE) ==> ByteOf(fs', m, x) == ByteOf(fs, m, x)
    {
      ChunkByte(fs, fs1, fs', n, off, chunk, m, x);
    }
  }

  lemma TouchedTwice(off: nat, k: nat, len: nat, b: nat)
    requires k > 0
    ensures Touched(off, k + len, b) <==> Touched(off, k, b) || Touched(off + k, len, b)
  {}

  lemma StoredTwice(fs: Fs, fs1: Fs, fs': Fs, n: nat, off: nat, a: seq<Byte>, b: seq<Byte>)
    requires a != [] && Stored(fs, fs1, n, off, a) && Stored(fs1, fs', n, off + |a|, b)
    ensures Stored(fs, fs', n, off, a + b)
  {
    hide HasBlock, ByteOf;
    forall m: nat, c: nat
      ensures HasBlock(fs', m, c) <==> HasBlock(fs, m, c) || (m == n && Touched(off, |a + b|, c))
    {
      TouchedTwice(off, |a|, |b|, c);
    }
    hide Touched;
    forall m: nat, x: nat | Within(m, x, n, off, |a + b|)
      ensures ByteOf(fs', m, x) == (a + b)[x - off]
    {
      if !Within(m, x, n, off + |a|, |b|) {
        InTouched(off, |a|, x);
        assert Within(m, x, n, off, |a|) && HasBlock(fs1, m, x / BLOCK_SIZE);
      }
    }
    forall m: nat, x: nat | !Within(m, x, n, off, |a + b|) && HasBlock(fs, m, x / BLOCK_SIZE)
      ensures ByteOf(fs', m, x) == ByteOf(fs, m, x)
    {
      assert HasBlock(fs1, m, x / BLOCK_SIZE);
      assert !Within(m, x, n, off, |a|) && !Within(m, x, n, off + |a|, |b|);
    }
  }

  lemma InTouched(off: nat, len: nat, x: nat)
    requires off <= x < off + len
    ensures Touched(off, len, x / BLOCK_SIZE)
  {}

  // ---------------------------------------------------------------- whole writes

  lemma ChunkHalts(fs: Fs, n: nat, off: nat, chunk: seq<Byte>)
    requires n < |fs.inodes| && off / BLOCK_SIZE >= TOTAL_BLOCK
    ensures WriteChunk(fs, n, off, chunk).None?
  {}

  /** A write is a chunk a followed by the write of the rest b. */
  lemma WriteStarts(fs: Fs, fs': Fs, n: nat, off: nat, data: seq<Byte>)
    returns (fs1: Fs, a: seq<Byte>, b: seq<Byte>)
    requires n < |fs.inodes| && data != [] && Write(fs, n, off, data) == Some(fs')
    ensures off / BLOCK_SIZE < TOTAL_BLOCK
    ensures a + b == data && 0 < |a| && |b| < |data| && off % BLOCK_SIZE + |a| <= BLOCK_SIZE
    ensures b != [] ==> off % BLOCK_SIZE + |a| == BLOCK_SIZE
    ensures WriteChunk(fs, n, off, a) == Some(fs1) && n < |fs1.inodes| && Write(fs1, n, off + |a|, b) == Some(fs')
    ensures CleanWrite(fs, n, off, data) ==>
      CleanPath(fs, SlotOf(n, off / BLOCK_SIZE)) && CleanWrite(fs1, n, off + |a|, b)
  {
    hide WriteChunk, CleanPath, EnsurePath;
    var chars := Chars(off, |data|);
    if off / BLOCK_SIZE >= TOTAL_BLOCK {
      ChunkHalts(fs, n, off, data[..chars]);
    }
    a, b := data[..chars], data[chars..];
    fs1 := WriteChunk(fs, n, off, a).value;
  }

  /** inode_write, from any offset, across any number of blocks and all three regimes of the tree. */
  lemma {:induction false} WriteStored(fs: Fs, fs': Fs, n: nat, off: nat, data: seq<Byte>)
    requires Wf(fs) && n < |fs.inodes| && Write(fs, n, off, data) == Some(fs') && CleanWrite(fs, n, off, data)
    ensures Wf(fs') && Stored(fs, fs', n, off, data)
    decreases |data|
  {
    hide WriteChunk, CleanPath, CleanWrite, Wf, Stored;
    if data == [] {
      NothingStored(fs, n, off);
    } else {
      var fs1, a, b := WriteStarts(fs, fs', n, off, data);
      ChunkStored(fs, fs1, n, off, a);
      WriteStored(fs1, fs', n, off + |a|, b);
      StoredTwice(fs, fs1, fs', n, off, a, b);
    }
  }

  lemma NothingStored(fs: Fs, n: nat, off: nat)
    ensures Stored(fs, fs, n, off, [])
  {}

  // ---------------------------------------------------------------- files without holes

  /** File n is spliced, every other file is as it was. */
  ghost predicate Spliced(fs: Fs, fs': Fs, n: nat, off: nat, data: seq<Byte>)
    requires n < |fs.inodes| && off <= fs.inodes[n].size
  {
    && |fs'.inodes| == |fs.inodes|
    && Contents(fs', n) == Splice(Contents(fs, n), off, data)
    && (forall m :: 0 <= m < |fs.inodes| && m != n ==> Contents(fs', m) == Contents(fs, m))
    && (forall m :: 0 <= m < |fs.inodes| ==> fs'.inodes[m].mode == fs.inodes[m].mode)
  }

  /** A write at or before the end leaves no hole. */
  lemma StoredLeavesNoHole(fs: Fs, fs': Fs, n: nat, off: nat, data: seq<Byte>, m: nat)
    requires Stored(fs, fs', n, off, data) && NoHoles(fs, m) && (m == n ==> off <= fs.inodes[n].size)
    ensures NoHoles(fs', m)
  {
    hide HasBlock, ByteOf;
    forall b: nat | b * BLOCK_SIZE < fs'.inodes[m].size
      ensures HasBlock(fs', m, b)
    {
      assert b * BLOCK_SIZE < fs.inodes[m].size ==> HasBlock(fs, m, b);
      if b * BLOCK_SIZE >= fs.inodes[m].size {
        InTouched(off, |data|, b * BLOCK_SIZE);
      }
    }
  }

  lemma StoredContents(fs: Fs, fs': Fs, n: nat, off: nat, data: seq<Byte>, m: nat)
    requires Stored(fs, fs', n, off, data) && NoHoles(fs, m) && (m == n ==> off <= fs.inodes[n].size)
    ensures Contents(fs', m) == if m == n then Splice(Contents(fs, n), off, data) else Contents(fs, m)
  {
    hide HasBlock, ByteOf, Touched;
    forall x | 0 <= x < fs.inodes[m].size
      ensures HasBlock(fs, m, x / BLOCK_SIZE)
    {
      Readable(fs, m, x);
    }
    assert forall x: nat :: x < |Contents(fs', m)| ==> (x < fs.inodes[m].size || Within(m, x, n, off, |data|));
  }

  /** inode_write from an offset inside the file or at its end: the file is spliced, every other file is
      unchanged. */
  lemma WriteSplices(fs: Fs, fs': Fs, n: nat, off: nat, data: seq<Byte>)
    requires Sound(fs) && n < |fs.inodes| && off <= fs.inodes[n].size && Write(fs, n, off, data) == Some(fs')
    requires CleanWrite(fs, n, off, data)
    ensures Sound(fs') && Spliced(fs, fs', n, off, data)
  {
    WriteStored(fs, fs', n, off, data);
    hide Write, CleanWrite, Stored, NoHoles, Wf, HasBlock;
    forall m: nat | m < |fs.inodes|
      ensures m < |fs'.inodes| && NoHoles(fs', m) && fs'.inodes[m].mode == fs.inodes[m].mode
      ensures Contents(fs', m) == if m == n then Splice(Contents(fs, n), off, data) else Contents(fs, m)
    {
      StoredLeavesNoHole(fs, fs', n, off, data, m);
      StoredContents(fs, fs', n, off, data, m);
      StoredModes(fs, fs', n, off, data);
    }
    StoredModes(fs, fs', n, off, data);
  }

  lemma StoredModes(fs: Fs, fs': Fs, n: nat, off: nat, data: seq<Byte>)
    requires Stored(fs, fs', n, off, data)
    ensures |fs'.inodes| == |fs.inodes| && forall m :: 0 <= m < |fs.inodes| ==> fs'.inodes[m].mode == fs.inodes[m].mode
  {}

  /** While the free zones are blank every write is clean, and they stay blank. */
  lemma {:induction false} BlankWrite(fs: Fs, n: nat, off: nat, data: seq<Byte>)
    requires Wf(fs) && FreeBlank(fs) && n < |fs.inodes|
    ensures CleanWrite(fs, n, off, data)
    ensures Write(fs, n, off, data).Some? ==> FreeBlank(Write(fs, n, off, data).value)
    decreases |data|
  {
    hide FreeBlank, Wf, WriteChunk, CleanPath, EnsurePath;
    if data != [] && off / BLOCK_SIZE < TOTAL_BLOCK {
      var chars := Chars(off, |data|);
      BlankPath(fs, SlotOf(n, off / BLOCK_SIZE));
      if WriteChunk(fs, n, off, data[..chars]).Some? {
        BlankChunk(fs, n, off, data[..chars]);
        BlankWrite(WriteChunk(fs, n, off, data[..chars]).value, n, off + chars, data[chars..]);
      }
    } else if data != [] {
      ChunkHalts(fs, n, off, data[..Chars(off, |data|)]);
    }
  }

  lemma BlankChunk(fs: Fs, n: nat, off: nat, chunk: seq<Byte>)
    requires Wf(fs) && FreeBlank(fs) && n < |fs.inodes| && off % BLOCK_SIZE + |chunk| <= BLOCK_SIZE
    requires WriteChunk(fs, n, off, chunk).Some?
    ensures var fs' := WriteChunk(fs, n, off, chunk).value; Wf(fs') && FreeBlank(fs') && |fs'.inodes| == |fs.inodes|
  {
    var s := SlotOf(n, off / BLOCK_SIZE);
    BlankPath(fs, s);
    var fs1 := EnsurePath(fs, s).value;
    hide FreeBlank, CleanPath, EnsurePath;
    EnsurePathKeeps(fs, fs1, s);
    AtInDisk(fs1, s);
    var fs' := PutBytes(fs1, n, At(fs1, s), off, chunk);
    PutBytesSound(fs1, fs', n, s, off, chunk);
    PutBytesShaped(fs1, fs', n, At(fs1, s), off, chunk);
  }

  /** What was written can be read back, wherever the write started; and if it left no gap, any other range of the
      file reads as the spliced bytes. */
  lemma ReadAfterWrite(fs: Fs, fs': Fs, n: nat, off: nat, data: seq<Byte>, at: nat, len: nat)
    requires Wf(fs) && n < |fs.inodes| && Write(fs, n, off, data) == Some(fs') && CleanWrite(fs, n, off, data)
    ensures n < |fs'.inodes|
    ensures data != [] ==> CanRead(fs', n, off, |data|) && Read(fs', n, off, |data|) == Some(data)
    ensures Sound(fs) && off <= fs.inodes[n].size ==>
      var c := Splice(Contents(fs, n), off, data);
      && CanRead(fs', n, at, len)
      && Read(fs', n, at, len) == if at >= |c| then None else Some(c[at..at + Min(len, |c| - at)])
  {
    WriteStored(fs, fs', n, off, data);
    StoredModes(fs, fs', n, off, data);
    if data != [] {
      ReadsStored(fs, fs', n, off, data);
    }
    if Sound(fs) && off <= fs.inodes[n].size {
      WriteSplices(fs, fs', n, off, data);
      NoHolesCanRead(fs', n, at, len);
    }
  }

  lemma ReadsStored(fs: Fs, fs': Fs, n: nat, off: nat, data: seq<Byte>)
    requires Stored(fs, fs', n, off, data) && n < |fs.inodes| && data != []
    ensures CanRead(fs', n, off, |data|) && Read(fs', n, off, |data|) == Some(data)
  {
    hide HasBlock, ByteOf, Touched;
    forall x: nat | off <= x < off + |data|
      ensures HasBlock(fs', n, x / BLOCK_SIZE) && ByteOf(fs', n, x) == data[x - off]
    {
      InTouched(off, |data|, x);
      assert Within(n, x, n, off, |data|);
    }
    assert Contents(fs', n)[off..off + |data|] == data;
  }
}
