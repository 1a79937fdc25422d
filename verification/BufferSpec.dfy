/** The block cache of kernel/buffer.c: buffers found through 31 hash chains, counted references,
    least-recently-released reuse and write-back on release.  Each call is one step; a caller that
    would sleep for a free buffer gets None and leaves the cache as it was.

    A buffer is named by its index in the header area, which buffer_ptr fills upwards. */
module BufferSpec {
  import opened Basics
  import opened Sequences

  const HASH_COUNT := 31
  const BLOCK_SIZE := 1024
  const HEADER_SIZE := 64
  const BUFFER_MEM := 0x80_0000
  const BUFFER_MEM_SIZE := 0x40_0000

  type Block = s: seq<Byte> | |s| == BLOCK_SIZE witness seq(BLOCK_SIZE, i => 0)

  function Blank(): Block {
    seq(BLOCK_SIZE, i => 0)
  }

  /** A device number and a block number, as 32-bit words. */
  datatype Key = Key(dev: bv32, block: bv32)

  type Disk = map<Key, Block>

  function At(d: Disk, k: Key): Block {
    if k in d then d[k] else Blank()
  }

  datatype Buffer = Buffer(key: Key, data: Block, count: nat, dirty: bool, valid: bool)

  /** `free` is front first, and brelse pushes at the front. */
  datatype Cache = Cache(disk: Disk, bufs: seq<Buffer>, free: seq<nat>, chains: seq<seq<nat>>)

  /** hash */
  function Hash(k: Key): (r: nat)
    ensures r < HASH_COUNT
  {
    ((k.dev ^ k.block) as nat) % HASH_COUNT
  }

  /** The first buffer of a chain with the key. */
  function FindIn(bufs: seq<Buffer>, chain: seq<nat>, k: Key): (r: Option<nat>)
    ensures r.Some? ==> r.value in chain && r.value < |bufs| && bufs[r.value].key == k
    ensures r.None? ==> forall id :: id in chain && id < |bufs| ==> bufs[id].key != k
  {
    if chain == [] then None
    else if chain[0] < |bufs| && bufs[chain[0]].key == k then Some(chain[0])
    else FindIn(bufs, chain[1..], k)
  }

  // ---------------------------------------------------------------- memory

  function HeaderAddr(id: nat): nat {
    BUFFER_MEM + HEADER_SIZE * id
  }

  function DataAddr(id: nat): int {
    BUFFER_MEM + BUFFER_MEM_SIZE - BLOCK_SIZE * (id + 1)
  }

  /** The test of get_new_buffer when n buffers exist. */
  predicate RoomFor(n: nat) {
    HeaderAddr(n) + HEADER_SIZE < DataAddr(n)
  }

  /** Headers grow up, data areas grow down, and the test stops them before they meet. */
  lemma AreasNeverMeet(n: nat, i: nat, j: nat)
    requires RoomFor(n) && i <= n && j <= n
    ensures HeaderAddr(i) + HEADER_SIZE <= DataAddr(j)
    ensures DataAddr(j) + BLOCK_SIZE <= BUFFER_MEM + BUFFER_MEM_SIZE
    ensures i < j ==> HeaderAddr(i) + HEADER_SIZE <= HeaderAddr(j) && DataAddr(j) + BLOCK_SIZE <= DataAddr(i)
  {}

  /** Exactly 3855 buffers fit. */
  lemma HowManyFit(n: nat)
    ensures RoomFor(n) <==> n < 3855
  {}

  // ---------------------------------------------------------------- getblk

  /** get_from_hash_table found buffer id: off the free list, one more reference. */
  function Hit(c: Cache, id: nat): Cache
    requires id < |c.bufs|
  {
    var b := c.bufs[id];
    Cache(c.disk, c.bufs[id := Buffer(b.key, b.data, b.count + 1, b.dirty, b.valid)], Without(c.free, id), c.chains)
  }

  /** get_new_buffer and hash_locate */
  function Create(c: Cache, k: Key): Cache
    requires |c.chains| == HASH_COUNT
  {
    Cache(c.disk, c.bufs + [Buffer(k, Blank(), 1, false, false)], c.free,
          c.chains[Hash(k) := [|c.bufs|] + c.chains[Hash(k)]])
  }

  /** The chains after buffer id left the chain of key `from` and was pushed on that of key `to`. */
  function Rehash(chains: seq<seq<nat>>, id: nat, from: Key, to: Key): (r: seq<seq<nat>>)
    requires |chains| == HASH_COUNT
    ensures |r| == HASH_COUNT
  {
    var without := chains[Hash(from) := Without(chains[Hash(from)], id)];
    without[Hash(to) := [id] + without[Hash(to)]]
  }

  /** The last buffer of the free list is taken for key k. */
  function Evict(c: Cache, k: Key): Cache
    requires |c.chains| == HASH_COUNT && c.free != [] && c.free[|c.free| - 1] < |c.bufs|
  {
    var id := c.free[|c.free| - 1];
    var b := c.bufs[id];
    Cache(c.disk, c.bufs[id := Buffer(k, b.data, 1, b.dirty, false)], c.free[..|c.free| - 1],
          Rehash(c.chains, id, b.key, k))
  }

  /** getblk of a block without a buffer: a new one while there is memory, else the oldest free one. */
  function Miss(c: Cache, k: Key): (Cache, Option<nat>)
    requires |c.chains| == HASH_COUNT
    requires c.free != [] ==> c.free[|c.free| - 1] < |c.bufs|
  {
    if RoomFor(|c.bufs|) then (Create(c, k), Some(|c.bufs|))
    else if c.free != [] then (Evict(c, k), Some(c.free[|c.free| - 1]))
    else (c, None)
  }

  /** getblk; no buffer where the caller would sleep. */
  function Getblk(c: Cache, k: Key): (Cache, Option<nat>)
    requires |c.chains| == HASH_COUNT
    requires c.free != [] ==> c.free[|c.free| - 1] < |c.bufs|
  {
    match FindIn(c.bufs, c.chains[Hash(k)], k)
    case Some(id) => (Hit(c, id), Some(id))
    case None => Miss(c, k)
  }

  /** The read of bread, on the buffer getblk returned. */
  function Fill(c: Cache, id: nat): Cache
    requires id < |c.bufs|
  {
    var b := c.bufs[id];
    if b.valid then c
    else Cache(c.disk, c.bufs[id := Buffer(b.key, At(c.disk, b.key), b.count, false, true)], c.free, c.chains)
  }

  /** bread */
  function Bread(c: Cache, k: Key): (Cache, Option<nat>)
    requires |c.chains| == HASH_COUNT
    requires c.free != [] ==> c.free[|c.free| - 1] < |c.bufs|
  {
    var (c1, id) := Getblk(c, k);
    if id.Some? && id.value < |c1.bufs| then (Fill(c1, id.value), id) else (c1, id)
  }

  // ---------------------------------------------------------------- clients, bwrite, brelse

  /** A client stores new bytes in a buffer it holds. */
  function Modify(c: Cache, id: nat, data: Block): Cache
    requires id < |c.bufs|
  {
    var b := c.bufs[id];
    Cache(c.disk, c.bufs[id := Buffer(b.key, data, b.count, b.dirty, b.valid)], c.free, c.chains)
  }

  /** A client sets bf->dirty. */
  function Mark(c: Cache, id: nat): Cache
    requires id < |c.bufs|
  {
    var b := c.bufs[id];
    Cache(c.disk, c.bufs[id := Buffer(b.key, b.data, b.count, true, b.valid)], c.free, c.chains)
  }

  /** bwrite */
  function Bwrite(c: Cache, id: nat): Cache
    requires id < |c.bufs|
  {
    var b := c.bufs[id];
    if !b.dirty then c
    else Cache(c.disk[b.key := b.data], c.bufs[id := Buffer(b.key, b.data, b.count, false, true)], c.free, c.chains)
  }

  /** The part of brelse behind the write-back. */
  function Drop(c: Cache, id: nat): Cache
    requires id < |c.bufs| && c.bufs[id].count > 0
  {
    var b := c.bufs[id];
    Cache(c.disk, c.bufs[id := Buffer(b.key, b.data, b.count - 1, b.dirty, b.valid)],
          if b.count == 1 then [id] + c.free else c.free, c.chains)
  }

  /** brelse */
  function Brelse(c: Cache, id: nat): Cache
    requires id < |c.bufs| && c.bufs[id].count > 0
  {
    Drop(Bwrite(c, id), id)
  }

  // ---------------------------------------------------------------- the structural invariant

  /** Every buffer is in the chain of its key and no other, no two buffers share a key, and the
      free list holds just the unreferenced ones. */
  ghost predicate Wired(c: Cache) {
    && |c.chains| == HASH_COUNT && |c.bufs| <= 3855 && Distinct(c.free)
    && (forall h :: 0 <= h < HASH_COUNT ==> Distinct(c.chains[h]))
    && (forall id: nat :: id in c.free ==> id < |c.bufs| && c.bufs[id].count == 0)
    && (forall id: nat :: id < |c.bufs| && c.bufs[id].count == 0 ==> id in c.free)
    && (forall h: nat, id: nat {:trigger id in c.chains[h]} :: h < HASH_COUNT && id in c.chains[h] ==> id < |c.bufs| && Hash(c.bufs[id].key) == h)
    && (forall id: nat :: id < |c.bufs| ==> id in c.chains[Hash(c.bufs[id].key)])
    && (forall i, j :: 0 <= i < |c.bufs| && 0 <= j < |c.bufs| && c.bufs[i].key == c.bufs[j].key ==> i == j)
  }

  /** The hash chain search finds the buffer of a key exactly when there is one. */
  lemma SearchIsExact(c: Cache, k: Key)
    requires Wired(c)
    ensures var r := FindIn(c.bufs, c.chains[Hash(k)], k);
      && (r.None? <==> forall id :: 0 <= id < |c.bufs| ==> c.bufs[id].key != k)
      && forall id :: 0 <= id < |c.bufs| && c.bufs[id].key == k ==> r == Some(id)
  {}

  lemma HitWired(c: Cache, id: nat)
    requires Wired(c) && id < |c.bufs|
    ensures Wired(Hit(c, id))
  {
    WithoutDistinct(c.free, id);
    hide Without, Distinct;
  }

  lemma CreateWired(c: Cache, k: Key)
    requires Wired(c) && RoomFor(|c.bufs|) && forall id :: 0 <= id < |c.bufs| ==> c.bufs[id].key != k
    ensures Wired(Create(c, k))
  {
    HowManyFit(|c.bufs|);
    hide RoomFor;
    assert |c.bufs| !in c.chains[Hash(k)];
  }

  /** Buffer id is in the chain of key `to` and nowhere else; the other buffers are where they were. */
  ghost predicate Rehashed(chains: seq<seq<nat>>, after: seq<seq<nat>>, id: nat, to: Key) {
    && |chains| == HASH_COUNT == |after|
    && (forall h :: 0 <= h < HASH_COUNT ==> Distinct(after[h]))
    && (forall h: nat, x: nat {:trigger x in after[h]} :: h < HASH_COUNT ==>
          (x in after[h] <==> (x == id && h == Hash(to)) || (x != id && x in chains[h])))
  }

  lemma RehashMoves(c: Cache, id: nat, to: Key)
    requires Wired(c) && id < |c.bufs|
    ensures Rehashed(c.chains, Rehash(c.chains, id, c.bufs[id].key, to), id, to)
  {
    var from := c.bufs[id].key;
    var after := Rehash(c.chains, id, from, to);
    var mid := c.chains[Hash(from) := Without(c.chains[Hash(from)], id)];
    WithoutDistinct(c.chains[Hash(from)], id);
    forall h: nat, x: nat | h < HASH_COUNT
      ensures x in mid[h] <==> x != id && x in c.chains[h]
    {}
    hide Without;
    assert after == mid[Hash(to) := [id] + mid[Hash(to)]];
    assert forall h: nat :: h < HASH_COUNT ==> id !in mid[h];
  }

  lemma EvictWired(c: Cache, k: Key)
    requires Wired(c) && c.free != [] && forall id :: 0 <= id < |c.bufs| ==> c.bufs[id].key != k
    ensures c.free[|c.free| - 1] < |c.bufs| && Wired(Evict(c, k))
  {
    var id := c.free[|c.free| - 1];
    assert id in c.free;
    RehashMoves(c, id, k);
    hide Rehash;
    var c' := Evict(c, k);
    forall x: nat
      ensures x in c'.free <==> x in c.free && x != id
    {
      assert c.free == c'.free + [id];
    }
  }

  /** A step on one buffer's data and flags keeps the wiring. */
  lemma SameWiring(c: Cache, c': Cache)
    requires Wired(c) && c'.free == c.free && c'.chains == c.chains && |c'.bufs| == |c.bufs|
    requires forall id :: 0 <= id < |c.bufs| ==> c'.bufs[id].key == c.bufs[id].key && c'.bufs[id].count == c.bufs[id].count
    ensures Wired(c')
  {
  }

  lemma DropWired(c: Cache, id: nat)
    requires Wired(c) && id < |c.bufs| && c.bufs[id].count > 0
    ensures Wired(Drop(c, id))
  {
    assert id !in c.free;
  }

  lemma NoneFree(c: Cache)
    requires Wired(c)
    ensures c.free == [] <==> forall id :: 0 <= id < |c.bufs| ==> c.bufs[id].count > 0
  {
    if c.free != [] {
      assert c.free[0] in c.free;
    }
    forall id: nat | c.free == [] && id < |c.bufs|
      ensures c.bufs[id].count > 0
    {
      assert id !in c.free;
    }
  }

  lemma LastFreeIsBuffer(c: Cache)
    requires Wired(c)
    ensures c.free != [] ==> c.free[|c.free| - 1] < |c.bufs|
  {
    assert c.free != [] ==> c.free[|c.free| - 1] in c.free;
  }

  /** No buffer is given up while a new one fits: the 3855th block is still cached beside all others.  Only then the back
      of the free list is, and only if no buffer has the block. */
  lemma EvictsOnlyWhenFull(c: Cache, k: Key)
    requires Wired(c)
    ensures c.free != [] ==> c.free[|c.free| - 1] < |c.bufs|
    ensures var (c', r) := Getblk(c, k);
      && ((exists id :: 0 <= id < |c.bufs| && c.bufs[id].key == k) || |c.bufs| < 3855 ==>
            forall id :: 0 <= id < |c.bufs| ==>
              id < |c'.bufs| && c'.bufs[id].key == c.bufs[id].key && c'.bufs[id].data == c.bufs[id].data
              && c'.bufs[id].valid == c.bufs[id].valid)
      && ((forall id :: 0 <= id < |c.bufs| ==> c.bufs[id].key != k) && |c.bufs| < 3855 ==>
            r == Some(|c.bufs|) && |c'.bufs| == |c.bufs| + 1 && !c'.bufs[|c.bufs|].valid && c'.free == c.free)
      && ((forall id :: 0 <= id < |c.bufs| ==> c.bufs[id].key != k) && |c.bufs| == 3855 && c.free != [] ==>
            r == Some(c.free[|c.free| - 1]) && |c'.bufs| == 3855 && !c'.bufs[r.value].valid
            && forall id :: 0 <= id < 3855 && id != r.value ==> c'.bufs[id] == c.bufs[id])
  {
    SearchIsExact(c, k);
    LastFreeIsBuffer(c);
    HowManyFit(|c.bufs|);
    hide Wired, Hash, RoomFor, Without, Rehash;
  }

  lemma MissWired(c: Cache, k: Key)
    requires Wired(c) && forall id :: 0 <= id < |c.bufs| ==> c.bufs[id].key != k
    ensures c.free != [] ==> c.free[|c.free| - 1] < |c.bufs|
    ensures var (c', r) := Miss(c, k);
      && Wired(c') && c'.disk == c.disk
      && (r.Some? ==> r.value < |c'.bufs| && c'.bufs[r.value].key == k && c'.bufs[r.value].count > 0)
      && (r.None? <==> c.free == [] && |c.bufs| == 3855)
  {
    LastFreeIsBuffer(c);
    HowManyFit(|c.bufs|);
    assert |c.bufs| <= 3855;
    if RoomFor(|c.bufs|) {
      CreateWired(c, k);
    } else if c.free != [] {
      EvictWired(c, k);
    }
    hide Wired, Hash, RoomFor, Rehash;
  }

  /** getblk keeps the structural invariant, never trips its assertions, hands out a buffer of the key, and
      makes its caller sleep exactly if all 3855 buffers are in use for other blocks. */
  lemma GetblkWired(c: Cache, k: Key)
    requires Wired(c)
    ensures c.free != [] ==> c.free[|c.free| - 1] < |c.bufs|
    ensures var (c', r) := Getblk(c, k);
      && Wired(c') && c'.disk == c.disk
      && (r.Some? ==> r.value < |c'.bufs| && c'.bufs[r.value].key == k && c'.bufs[r.value].count > 0)
      && (r.None? <==> (forall id :: 0 <= id < |c.bufs| ==> c.bufs[id].key != k && c.bufs[id].count > 0)
                       && |c.bufs| == 3855)
  {
    SearchIsExact(c, k);
    LastFreeIsBuffer(c);
    NoneFree(c);
    var found := FindIn(c.bufs, c.chains[Hash(k)], k);
    if found.Some? {
      HitWired(c, found.value);
    } else {
      MissWired(c, k);
    }
    hide Wired, Hash, Miss, FindIn, Without;
  }
}
