/** Where a file's blocks and bytes are on the disk, in words of the inode and bytes of the index blocks. */
module FileLayout {
  import opened Basics
  import opened FileTree
  import opened FileContents
  import opened FileTruncate

  /** The k-th 16-bit word of zone z, low byte first; 0 if there is no such zone. */
  function Word(fs: Fs, z: nat, k: nat): nat {
    if z == 0 || z >= |fs.blocks| || 2 * k + 1 >= |fs.blocks[z]| then 0
    else fs.blocks[z][2 * k] as int + 256 * (fs.blocks[z][2 * k + 1] as int)
  }

  /** The zone of block b: one of the first seven numbers of the inode, a word of the block that the eighth names, or
      a word of a block named by a word of the block that the ninth names. */
  function ZoneOnDisk(fs: Fs, n: nat, b: nat): nat
    requires n < |fs.inodes| && |fs.inodes[n].zone| == 9
  {
    if b < 7 then fs.inodes[n].zone[b]
    else if b < 519 then Word(fs, fs.inodes[n].zone[7], b - 7)
    else Word(fs, Word(fs, fs.inodes[n].zone[8], (b - 519) / 512), (b - 519) % 512)
  }

  /** The tree gives every block the zone it has on the disk. */
  lemma LayoutOnDisk(fs: Fs, n: nat, b: nat)
    requires Shaped(fs) && n < |fs.inodes| && b < TOTAL_BLOCK
    ensures At(fs, SlotOf(n, b)) == ZoneOnDisk(fs, n, b)
  {
    var zone := fs.inodes[n].zone;
    assert At(fs, Root(n, 7)) == zone[7] && At(fs, Root(n, 8)) == zone[8];
    if b >= 519 {
      var mid := Child(Root(n, 8), (b - 519) / 512);
      assert At(fs, mid) == Word(fs, zone[8], (b - 519) / 512);
      assert SlotOf(n, b) == Child(mid, (b - 519) % 512);
    } else if b >= 7 {
      assert SlotOf(n, b) == Child(Root(n, 7), b - 7);
    }
  }

  /** The largest file has 7 + 512 + 512 * 512 blocks of 1024 bytes. */
  lemma LargestFile()
    ensures TOTAL_BLOCK == 262_663 && BLOCK_SIZE == 1024
  {}

  /** Byte x of a file is byte x % 1024 of the zone of its block x / 1024. */
  lemma ByteOnDisk(fs: Fs, n: nat, x: nat)
    requires Shaped(fs) && n < |fs.inodes| && HasBlock(fs, n, x / 1024)
    ensures 0 < ZoneOnDisk(fs, n, x / 1024)
    ensures ZoneOnDisk(fs, n, x / 1024) < |fs.blocks| ==>
      x % 1024 < |fs.blocks[ZoneOnDisk(fs, n, x / 1024)]|
      && ByteOf(fs, n, x) == fs.blocks[ZoneOnDisk(fs, n, x / 1024)][x % 1024]
  {
    LayoutOnDisk(fs, n, x / 1024);
  }

  /** A read returns the bytes at those places. */
  lemma ReadOnDisk(fs: Fs, n: nat, off: nat, len: nat)
    requires Wf(fs) && n < |fs.inodes| && CanRead(fs, n, off, len)
    ensures off >= fs.inodes[n].size ==> Read(fs, n, off, len) == None
    ensures off < fs.inodes[n].size ==>
      && Read(fs, n, off, len).Some?
      && var data := Read(fs, n, off, len).value;
      && |data| == (if off + len < fs.inodes[n].size then len else fs.inodes[n].size - off)
      && forall i :: 0 <= i < |data| ==> InPlace(fs, n, off + i, data[i])
  {
    if off < fs.inodes[n].size {
      var data := Read(fs, n, off, len).value;
      forall i | 0 <= i < |data|
        ensures InPlace(fs, n, off + i, data[i])
      {
        assert data[i] == Contents(fs, n)[off + i];
        MappedInPlace(fs, n, off + i);
      }
    }
  }

  /** Byte x of file n is this one, at its place on the disk. */
  predicate InPlace(fs: Fs, n: nat, x: nat, byte: Byte)
    requires n < |fs.inodes| && |fs.inodes[n].zone| == 9
  {
    var z := ZoneOnDisk(fs, n, x / 1024);
    0 < z < |fs.blocks| && x % 1024 < |fs.blocks[z]| && byte == fs.blocks[z][x % 1024]
  }

  lemma MappedInPlace(fs: Fs, n: nat, x: nat)
    requires Wf(fs) && n < |fs.inodes| && HasBlock(fs, n, x / 1024)
    ensures InPlace(fs, n, x, ByteOf(fs, n, x))
  {
    LayoutOnDisk(fs, n, x / 1024);
    ByteOnDisk(fs, n, x);
    assert Allocated(fs, At(fs, SlotOf(n, x / 1024)));
  }

  /** A write puts its bytes at those places. */
  lemma WriteOnDisk(fs: Fs, fs': Fs, n: nat, off: nat, data: seq<Byte>)
    requires Wf(fs) && n < |fs.inodes| && Write(fs, n, off, data) == Some(fs') && CleanWrite(fs, n, off, data)
    ensures Shaped(fs') && n < |fs'.inodes| && forall i :: 0 <= i < |data| ==> InPlace(fs', n, off + i, data[i])
  {
    hide Write, CleanWrite, InPlace, HasBlock, ByteOf, Touched, Stored, Owned;
    WriteStored(fs, fs', n, off, data);
    StoredModes(fs, fs', n, off, data);
    forall i | 0 <= i < |data|
      ensures InPlace(fs', n, off + i, data[i])
    {
      StoredByte(fs, fs', n, off, data, i);
      MappedInPlace(fs', n, off + i);
    }
  }

  lemma StoredByte(fs: Fs, fs': Fs, n: nat, off: nat, data: seq<Byte>, i: nat)
    requires Stored(fs, fs', n, off, data) && i < |data|
    ensures HasBlock(fs', n, (off + i) / 1024) && ByteOf(fs', n, off + i) == data[i]
  {
    hide HasBlock, ByteOf, Touched;
    InTouched(off, |data|, off + i);
    assert Within(n, off + i, n, off, |data|);
  }

  /** A mode word is one of a regular file or a directory exactly if its upper four bits are 8 or 4, the type bits
      0100000 and 0040000 of the octal mode. */
  lemma FileModes(mode: bv16)
    ensures FileOrDirectory(mode as nat) <==> mode & 0xF000 == 0x8000 || mode & 0xF000 == 0x4000
  {
    assert (mode as nat) / 0x1000 == (mode >> 12) as nat;
    assert mode & 0xF000 == (mode >> 12) << 12;
  }
}
