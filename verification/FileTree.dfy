/** The block tree of a file (fs/bmap.c): seven direct zones, a single and a double indirect one, over
    a zone bitmap of one block.

    A slot is a place that can hold a zone number: one of the nine numbers in an inode, or one of the
    512 numbers in an index block that another slot names. */
module FileTree {
  import opened Basics

  const BLOCK_SIZE := 1024
  const BLOCK_INDEXES := 512
  const DIRECT_BLOCK := 7
  const TOTAL_BLOCK := DIRECT_BLOCK + BLOCK_INDEXES + BLOCK_INDEXES * BLOCK_INDEXES
  const ZONES_PER_INODE := 9
  /** The bits of one zone-map block. */
  const BLOCK_BITS := 8192

  type Block = seq<Byte>

  datatype Inode = Inode(mode: nat, size: nat, zone: seq<nat>)

  /** inodes: the inode table; blocks: the disk, by zone number; zmap: the zone bitmap, whose bit i
      stands for zone base + i; zones: the number of zones of the file system. */
  datatype Fs = Fs(inodes: seq<Inode>, blocks: seq<Block>, zmap: seq<bool>, base: nat, zones: nat)

  datatype Slot = Root(n: nat, k: nat) | Child(parent: Slot, i: nat)

  // ---------------------------------------------------------------- index blocks

  /** The i-th 16-bit little-endian number of a block. */
  function Index(b: Block, i: nat): (z: nat)
    ensures z < 0x1_0000
  {
    if 2 * i + 1 < |b| then b[2 * i] as int + 0x100 * b[2 * i + 1] as int else 0
  }

  function SetIndex(b: Block, i: nat, z: nat): (r: Block)
    requires 2 * i + 1 < |b| && z < 0x1_0000
    ensures |r| == |b|
    ensures forall j: nat :: Index(r, j) == if j == i then z else Index(b, j)
  {
    b[2 * i := z % 0x100][2 * i + 1 := z / 0x100]
  }

  predicate Blank(b: Block) {
    forall i :: 0 <= i < |b| ==> b[i] == 0
  }

  /** Read as an index block, the block names no zone. */
  ghost predicate NoIndex(b: Block) {
    forall i: nat :: Index(b, i) == 0
  }

  lemma BlankHasNoIndex(b: Block)
    requires |b| == BLOCK_SIZE
    ensures Blank(b) <==> NoIndex(b)
  {
    if NoIndex(b) {
      forall j | 0 <= j < |b|
        ensures b[j] == 0
      {
        assert Index(b, j / 2) == 0;
      }
    }
  }

  // ---------------------------------------------------------------- slots

  /** How many levels of index blocks lie below a slot. */
  function Level(s: Slot): int {
    match s
    case Root(_, k) => if k < DIRECT_BLOCK then 0 else k - DIRECT_BLOCK + 1
    case Child(p, _) => Level(p) - 1
  }

  predicate ValidSlot(s: Slot) {
    match s
    case Root(_, k) => k < ZONES_PER_INODE
    case Child(p, i) => ValidSlot(p) && Level(p) > 0 && i < BLOCK_INDEXES
  }

  function Owner(s: Slot): nat {
    match s
    case Root(n, _) => n
    case Child(p, _) => Owner(p)
  }

  /** The slot of a file's b-th data block. */
  function SlotOf(n: nat, b: nat): (s: Slot)
    requires b < TOTAL_BLOCK
    ensures ValidSlot(s) && Level(s) == 0 && Owner(s) == n
  {
    if b < DIRECT_BLOCK then Root(n, b)
    else
      var b1 := b - DIRECT_BLOCK;
      if b1 < BLOCK_INDEXES then Child(Root(n, DIRECT_BLOCK), b1)
      else
        var b2 := b1 - BLOCK_INDEXES;
        var root := Root(n, DIRECT_BLOCK + 1);
        assert ValidSlot(root) && Level(root) == 2 && Owner(root) == n;
        var mid := Child(root, b2 / BLOCK_INDEXES);
        assert ValidSlot(mid) && Level(mid) == 1 && Owner(mid) == n;
        Child(mid, b2 % BLOCK_INDEXES)
  }

  lemma LevelBound(s: Slot)
    requires ValidSlot(s)
    ensures 0 <= Level(s) <= 2
    ensures s.Child? ==> Level(s) <= 1 && Level(s.parent) == Level(s) + 1
    ensures s.Child? && s.parent.Child? ==> Level(s) == 0 && s.parent.parent.Root?
  {
    if s.Child? {
      LevelBound(s.parent);
    }
  }

  /** Every level-0 slot of an inode is the slot of exactly one data block. */
  function BlockOf(s: Slot): (b: nat)
    requires ValidSlot(s) && Level(s) == 0
    ensures b < TOTAL_BLOCK && SlotOf(Owner(s), b) == s
  {
    LevelBound(s);
    if s.Root? then s.k
    else if s.parent.Root? then DIRECT_BLOCK + s.i
    else
      assert ValidSlot(s.parent) && ValidSlot(s.parent.parent) && Level(s.parent) == 1 && Level(s.parent.parent) == 2;
      assert s.parent.parent.k == DIRECT_BLOCK + 1 && Owner(s.parent) == s.parent.parent.n;
      var b2 := s.parent.i * BLOCK_INDEXES + s.i;
      assert b2 / BLOCK_INDEXES == s.parent.i && b2 % BLOCK_INDEXES == s.i;
      DIRECT_BLOCK + BLOCK_INDEXES + b2
  }

  lemma SlotOfInjective(n: nat, b: nat, m: nat, c: nat)
    requires b < TOTAL_BLOCK && c < TOTAL_BLOCK && SlotOf(n, b) == SlotOf(m, c)
    ensures n == m && b == c
  {}

  // ---------------------------------------------------------------- reading the tree

  /** Sizes of the tables; there is one zone-map block, whose bit 0 is set. */
  ghost predicate Shaped(fs: Fs) {
    && (forall n :: 0 <= n < |fs.inodes| ==> |fs.inodes[n].zone| == ZONES_PER_INODE)
    && (forall z :: 0 <= z < |fs.blocks| ==> |fs.blocks[z]| == BLOCK_SIZE)
    && fs.zones <= |fs.blocks| && fs.zones <= BLOCK_BITS && fs.zones <= fs.base + |fs.zmap|
    && 0 < |fs.zmap| <= BLOCK_BITS && fs.zmap[0]
  }

  /** The zone number a slot holds; 0 where there is none, or no block to hold it. */
  function At(fs: Fs, s: Slot): nat {
    match s
    case Root(n, k) => if n < |fs.inodes| && k < |fs.inodes[n].zone| then fs.inodes[n].zone[k] else 0
    case Child(p, i) =>
      var z := At(fs, p);
      if z == 0 || z >= |fs.blocks| then 0 else Index(fs.blocks[z], i)
  }

  /** z is a data zone whose bit is set. */
  predicate Allocated(fs: Fs, z: nat) {
    fs.base < z < fs.zones && z - fs.base < |fs.zmap| && fs.zmap[z - fs.base]
  }

  /** Every zone reached is allocated, and no zone is reached along two paths, within a file or
      across files, as data or as an index block. */
  ghost predicate Owned(fs: Fs) {
    && (forall s :: ValidSlot(s) && At(fs, s) != 0 ==> Allocated(fs, At(fs, s)))
    && (forall s, t :: ValidSlot(s) && ValidSlot(t) && At(fs, s) != 0 && At(fs, s) == At(fs, t) ==> s == t)
  }

  /** Free zones read as zeroes, as on a fresh disk. */
  ghost predicate FreeBlank(fs: Fs) {
    forall z :: fs.base < z < fs.zones && !Allocated(fs, z) ==> z < |fs.blocks| && Blank(fs.blocks[z])
  }

  /** Every allocated zone is reached by some slot. */
  ghost predicate NoLeaks(fs: Fs) {
    forall z :: Allocated(fs, z) ==> exists s :: ValidSlot(s) && At(fs, s) == z
  }

  ghost predicate Wf(fs: Fs) {
    Shaped(fs) && Owned(fs)
  }

  // ---------------------------------------------------------------- allocating

  /** The first clear bit from i on. */
  function FirstClear(zmap: seq<bool>, i: nat): (r: Option<nat>)
    ensures r.Some? ==> i <= r.value < |zmap| && !zmap[r.value]
    ensures r.Some? ==> forall j :: i <= j < r.value ==> zmap[j]
    ensures r.None? ==> forall j :: i <= j < |zmap| ==> zmap[j]
    decreases |zmap| - i
  {
    if i >= |zmap| then None else if !zmap[i] then Some(i) else FirstClear(zmap, i + 1)
  }

  /** balloc: the lowest free zone; halts when the map is full or the zone lies beyond the disk. */
  function Balloc(fs: Fs): (r: Option<nat>)
    ensures r.Some? ==> fs.base <= r.value < fs.zones && r.value - fs.base < |fs.zmap| && !fs.zmap[r.value - fs.base]
  {
    match FirstClear(fs.zmap, 0)
    case None => None
    case Some(i) => if fs.base + i < fs.zones then Some(fs.base + i) else None
  }

  /** Stores zone number z, just marked allocated, in slot s. */
  function PutZone(fs: Fs, s: Slot, z: nat): Fs
    requires z < 0x1_0000 && fs.base <= z < fs.base + |fs.zmap|
  {
    var zmap := fs.zmap[z - fs.base := true];
    match s
    case Root(n, k) =>
      if n < |fs.inodes| && k < |fs.inodes[n].zone|
      then Fs(fs.inodes[n := Inode(fs.inodes[n].mode, fs.inodes[n].size, fs.inodes[n].zone[k := z])],
              fs.blocks, zmap, fs.base, fs.zones)
      else fs
    case Child(p, i) =>
      var y := At(fs, p);
      if 0 < y < |fs.blocks| && 2 * i + 1 < |fs.blocks[y]|
      then Fs(fs.inodes, fs.blocks[y := SetIndex(fs.blocks[y], i, z)], zmap, fs.base, fs.zones)
      else fs
  }

  /** The index block that holds s, if it is one, lies on the disk. */
  predicate OnDisk(fs: Fs, s: Slot) {
    s.Child? ==> At(fs, s.parent) < |fs.blocks|
  }

  /** One round of bmap with create: a missing zone is allocated and stored. */
  function Ensure(fs: Fs, s: Slot): Option<Fs> {
    if !OnDisk(fs, s) then None
    else if At(fs, s) != 0 then Some(fs)
    else match Balloc(fs)
      case None => None
      case Some(z) => if z < 0x1_0000 then Some(PutZone(fs, s, z)) else None
  }

  /** bmap with create: from the inode down to slot s. */
  function EnsurePath(fs: Fs, s: Slot): Option<Fs> {
    match s
    case Root(_, _) => Ensure(fs, s)
    case Child(p, _) =>
      match EnsurePath(fs, p)
      case None => None
      case Some(fs1) => Ensure(fs1, s)
  }

  /** If this round takes a zone for an index block, that zone names no zone.  balloc does not clear
      what it hands out, so this is a condition on the bytes the zone was left with. */
  ghost predicate CleanTurn(fs: Fs, s: Slot) {
    At(fs, s) == 0 && Level(s) > 0 && Balloc(fs).Some? && Balloc(fs).value < |fs.blocks| ==>
      NoIndex(fs.blocks[Balloc(fs).value])
  }

  /** Every zone that bmap takes for an index block on the way to slot s names no zone. */
  ghost predicate CleanPath(fs: Fs, s: Slot) {
    match s
    case Root(_, _) => CleanTurn(fs, s)
    case Child(p, _) =>
      CleanPath(fs, p) && (EnsurePath(fs, p).Some? ==> CleanTurn(EnsurePath(fs, p).value, s))
  }
}
