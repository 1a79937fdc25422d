/** The block cache of kernel/buffer.c as the kernel keeps it: buffers, hash chains, free list and the
    two bump pointers updated in place, each call proved to be the step of the specification and
    each of its assertions proved to hold. */
module BufferCaches {
  import opened Basics
  import opened Sequences
  import opened BufferSpec

  const EOF_DEV: bv32 := 0xFFFF_FFFF

  class BlockCache {
    var disk: Disk
    var bufs: seq<Buffer>
    var free: seq<nat>
    var chains: seq<seq<nat>>
    var bufferPtr: int
    var bufferData: int

    function View(): Cache
      reads this
    {
      Cache(disk, bufs, free, chains)
    }

    ghost predicate Valid()
      reads this
    {
      Wired(View()) && bufferPtr == HeaderAddr(|bufs|) && bufferData == DataAddr(|bufs|)
    }

    /** buffer_init */
    constructor (disk: Disk)
      ensures Valid() && View() == Cache(disk, [], [], seq(HASH_COUNT, i => []))
    {
      this.disk := disk;
      bufs, free, chains := [], [], [];
      bufferPtr, bufferData := BUFFER_MEM, BUFFER_MEM + BUFFER_MEM_SIZE - BLOCK_SIZE;
      new;
      var i := 0;
      while i < HASH_COUNT
        invariant 0 <= i <= HASH_COUNT && |chains| == i && forall h :: 0 <= h < i ==> chains[h] == []
        invariant this.disk == disk && bufs == [] && free == []
        invariant bufferPtr == HeaderAddr(0) && bufferData == DataAddr(0)
      {
        chains := chains + [[]];
        i := i + 1;
      }
      assert chains == seq(HASH_COUNT, i => []);
    }

    /** The chain walk of get_from_hash_table. */
    method Search(k: Key) returns (r: Option<nat>)
      requires Wired(View())
      ensures r == FindIn(bufs, chains[Hash(k)], k)
    {
      var chain := chains[Hash(k)];
      var i := 0;
      while i < |chain|
        invariant 0 <= i <= |chain|
        invariant FindIn(bufs, chain, k) == FindIn(bufs, chain[i..], k)
      {
        assert chain[i] in chain;
        assert chain[i..][0] == chain[i];
        if bufs[chain[i]].key == k {
          return Some(chain[i]);
        }
        assert chain[i..][1..] == chain[i + 1..];
        i := i + 1;
      }
      return None;
    }

    /** get_from_hash_table */
    method GetFromHashTable(k: Key) returns (r: Option<nat>)
      requires Wired(View())
      modifies this`free
      ensures r == FindIn(bufs, chains[Hash(k)], k)
      ensures free == if r.None? then old(free) else Without(old(free), r.value)
    {
      r := Search(k);
      if r.Some? {
        if r.value in free {
          free := Without(free, r.value);
        } else {
          WithoutAbsent(free, r.value);
        }
      }
    }

    /** hash_locate: the buffer was in no chain, and is then in the chain of its key and in no
        other; no other buffer moves. */
    method HashLocate(id: nat)
      requires id < |bufs| && |chains| == HASH_COUNT && Unchained(chains, id)
      modifies this`chains
      ensures InChainOnly(chains, id, Hash(bufs[id].key))
      ensures OthersStay(old(chains), chains, id)
      ensures chains == old(chains)[Hash(bufs[id].key) := [id] + old(chains)[Hash(bufs[id].key)]]
    {
      var h := Hash(bufs[id].key);
      assert id !in chains[h];
      chains := chains[h := [id] + chains[h]];
    }

    /** hash_remove: the buffer was in the chain of its key only, and is then in none; no other buffer moves. */
    method HashRemove(id: nat)
      requires id < |bufs| && |chains| == HASH_COUNT && InChainOnly(chains, id, Hash(bufs[id].key))
      modifies this`chains
      ensures Unchained(chains, id)
      ensures OthersStay(old(chains), chains, id)
      ensures chains == old(chains)[Hash(bufs[id].key) := Without(old(chains)[Hash(bufs[id].key)], id)]
    {
      var h := Hash(bufs[id].key);
      assert id in chains[h];
      chains := chains[h := Without(chains[h], id)];
    }

    /** get_new_buffer */
    method GetNewBuffer() returns (r: Option<nat>)
      requires bufferPtr == HeaderAddr(|bufs|) && bufferData == DataAddr(|bufs|)
      modifies this`bufs, this`bufferPtr, this`bufferData
      ensures bufferPtr == HeaderAddr(|bufs|) && bufferData == DataAddr(|bufs|)
      ensures r == if RoomFor(|old(bufs)|) then Some(|old(bufs)|) else None
      ensures bufs == if r.None? then old(bufs) else old(bufs) + [Buffer(Key(EOF_DEV, 0), Blank(), 0, false, false)]
    {
      r := None;
      if RoomForNext() {
        r := Some(|bufs|);
        bufs := bufs + [Buffer(Key(EOF_DEV, 0), Blank(), 0, false, false)];
        bufferPtr := bufferPtr + HEADER_SIZE;
        bufferData := bufferData - BLOCK_SIZE;
      }
    }

    /** The eviction of get_free_buffer. */
    method TakeOldest() returns (id: nat)
      requires Wired(View()) && free != []
      modifies this`bufs, this`free, this`chains
      ensures old(free) == free + [id]
      ensures id < |old(bufs)| && old(bufs)[id].count == 0
      ensures bufs == old(bufs)[id := Buffer(old(bufs)[id].key, old(bufs)[id].data, 0, old(bufs)[id].dirty, false)]
      ensures |old(chains)| == HASH_COUNT && Unchained(chains, id)
      ensures chains == old(chains)[Hash(bufs[id].key) := Without(old(chains)[Hash(bufs[id].key)], id)]
    {
      id := free[|free| - 1];
      assert id in free;
      assert InChainOnly(chains, id, Hash(bufs[id].key));
      free := free[..|free| - 1];
      HashRemove(id);
      var b := bufs[id];
      bufs := bufs[id := Buffer(b.key, b.data, b.count, b.dirty, false)];
    }

    /** The end of getblk: the first reference, the key and the chain. */
    method Claim(id: nat, k: Key)
      requires id < |bufs| && |chains| == HASH_COUNT && Unchained(chains, id)
      modifies this`bufs, this`chains
      ensures bufs == old(bufs)[id := Buffer(k, old(bufs)[id].data, 1, old(bufs)[id].dirty, old(bufs)[id].valid)]
      ensures chains == old(chains)[Hash(k) := [id] + old(chains)[Hash(k)]]
    {
      var b := bufs[id];
      bufs := bufs[id := Buffer(k, b.data, 1, b.dirty, b.valid)];
      HashLocate(id);
    }

    /** getblk after get_new_buffer succeeded. */
    method InsertNew(k: Key) returns (r: nat)
      requires Valid() && RoomFor(|bufs|)
      modifies this`bufs, this`chains, this`bufferPtr, this`bufferData
      ensures |old(chains)| == HASH_COUNT && View() == Create(old(View()), k) && r == |old(bufs)|
      ensures bufferPtr == HeaderAddr(|bufs|) && bufferData == DataAddr(|bufs|)
    {
      hide Wired, Hash, RoomFor, Unchained, InChainOnly, OthersStay, HeaderAddr, DataAddr, Blank;
      NewIsNotChained(View());
      UpdateLast(bufs, Buffer(Key(EOF_DEV, 0), Blank(), 0, false, false), Buffer(k, Blank(), 1, false, false));
      var bf := GetNewBuffer();
      r := bf.value;
      Claim(r, k);
    }

    /** getblk after get_free_buffer took the back of the free list. */
    method InsertOldest(k: Key) returns (r: nat)
      requires Valid() && free != []
      requires forall id :: 0 <= id < |bufs| && bufs[id].count == 0 ==> !bufs[id].dirty
      modifies this`bufs, this`chains, this`free
      ensures old(free)[|old(free)| - 1] == r < |old(bufs)| && |old(chains)| == HASH_COUNT
      ensures View() == Evict(old(View()), k)
    {
      ghost var before := View();
      r := TakeOldest();
      assert bufs[r].count == 0 && !bufs[r].dirty;
      hide Wired, Hash;
      Claim(r, k);
      assert free == before.free[..|before.free| - 1];
      assert bufs == before.bufs[r := bufs[r]];
    }

    /** The hit of getblk: off the free list, one more reference. */
    method Lookup(k: Key) returns (r: Option<nat>)
      requires Valid()
      modifies this`free, this`bufs
      ensures r == FindIn(old(bufs), old(chains)[Hash(k)], k)
      ensures View() == if r.None? then old(View()) else Hit(old(View()), r.value)
    {
      hide Wired, Hash, FindIn, Without;
      r := GetFromHashTable(k);
      if r.Some? {
        var b := bufs[r.value];
        bufs := bufs[r.value := Buffer(b.key, b.data, b.count + 1, b.dirty, b.valid)];
      }
    }

    /** getblk once the chain search failed. */
    method Insert(k: Key) returns (r: Option<nat>)
      requires Valid()
      requires forall id :: 0 <= id < |bufs| && bufs[id].count == 0 ==> !bufs[id].dirty
      modifies this
      ensures |old(chains)| == HASH_COUNT && (old(free) != [] ==> old(free)[|old(free)| - 1] < |old(bufs)|)
      ensures (View(), r) == Miss(old(View()), k)
      ensures bufferPtr == HeaderAddr(|bufs|) && bufferData == DataAddr(|bufs|)
    {
      GetblkWired(View(), k);
      hide Wired, Hash, HeaderAddr, DataAddr, RoomFor, Create, Evict, FindIn;
      r := None;
      if RoomForNext() {
        var id := InsertNew(k);
        r := Some(id);
      } else if free != [] {
        var id := InsertOldest(k);
        r := Some(id);
      }
    }

    /** getblk; None where the caller sleeps.  Its two assertions are proved for a cache whose
        unreferenced buffers are clean. */
    method Getblk(k: Key) returns (r: Option<nat>)
      requires Valid()
      requires forall id :: 0 <= id < |bufs| && bufs[id].count == 0 ==> !bufs[id].dirty
      modifies this
      ensures Valid()
      ensures old(free) != [] ==> old(free)[|old(free)| - 1] < |old(bufs)|
      ensures (View(), r) == BufferSpec.Getblk(old(View()), k)
    {
      GetblkWired(View(), k);
      hide Wired, Hash, HeaderAddr, DataAddr, Miss, FindIn, Hit;
      r := Lookup(k);
      if r.None? {
        r := Insert(k);
      }
    }

    /** The test of get_new_buffer on the bump pointers. */
    predicate RoomForNext()
      requires bufferPtr == HeaderAddr(|bufs|) && bufferData == DataAddr(|bufs|)
      reads this
      ensures RoomForNext() <==> RoomFor(|bufs|)
    {
      bufferPtr + HEADER_SIZE < bufferData
    }

    /** The read of bread, taken as one step. */
    method ReadIn(id: nat)
      requires Valid() && id < |bufs|
      modifies this`bufs
      ensures Valid() && View() == Fill(old(View()), id)
    {
      SameWiring(View(), Fill(View(), id));
      hide Wired;
      var b := bufs[id];
      if !b.valid {
        bufs := bufs[id := Buffer(b.key, At(disk, b.key), b.count, false, true)];
      }
    }

    /** bread */
    method Bread(k: Key) returns (r: Option<nat>)
      requires Valid()
      requires forall id :: 0 <= id < |bufs| && bufs[id].count == 0 ==> !bufs[id].dirty
      modifies this
      ensures Valid()
      ensures old(free) != [] ==> old(free)[|old(free)| - 1] < |old(bufs)|
      ensures (View(), r) == BufferSpec.Bread(old(View()), k)
    {
      GetblkWired(View(), k);
      hide Wired, BufferSpec.Getblk, Hash, HeaderAddr, DataAddr, Fill;
      r := Getblk(k);
      if r.Some? {
        ReadIn(r.value);
      }
    }

    /** bwrite */
    method Bwrite(id: nat)
      requires Valid() && id < |bufs|
      modifies this`disk, this`bufs
      ensures Valid() && View() == BufferSpec.Bwrite(old(View()), id)
    {
      SameWiring(View(), BufferSpec.Bwrite(View(), id));
      hide Wired;
      var b := bufs[id];
      if !b.dirty {
        return;
      }
      disk := disk[b.key := b.data];
      bufs := bufs[id := Buffer(b.key, b.data, b.count, false, true)];
    }

    /** brelse of a buffer the caller holds a reference to. */
    method Brelse(id: nat)
      requires Valid() && id < |bufs| && bufs[id].count > 0
      modifies this`disk, this`bufs, this`free
      ensures Valid() && View() == BufferSpec.Brelse(old(View()), id)
    {
      if bufs[id].dirty {
        Bwrite(id);
      }
      DropWired(View(), id);
      assert id !in free;
      hide Wired;
      var b := bufs[id];
      bufs := bufs[id := Buffer(b.key, b.data, b.count - 1, b.dirty, b.valid)];
      if bufs[id].count != 0 {
        return;
      }
      free := [id] + free;
    }
  }

  lemma NewIsNotChained(c: Cache)
    requires Wired(c)
    ensures |c.chains| == HASH_COUNT && Unchained(c.chains, |c.bufs|)
  {}

  /** The buffer is in no hash chain. */
  ghost predicate Unchained(chains: seq<seq<nat>>, id: nat) {
    forall h :: 0 <= h < |chains| ==> id !in chains[h]
  }

  /** The buffer is in hash chain h and in no other. */
  ghost predicate InChainOnly(chains: seq<seq<nat>>, id: nat, h: nat) {
    forall g :: 0 <= g < |chains| ==> (id in chains[g] <==> g == h)
  }

  /** The buffers other than id are in the chains they were in. */
  ghost predicate OthersStay(before: seq<seq<nat>>, after: seq<seq<nat>>, id: nat) {
    && |after| == |before|
    && (forall h :: 0 <= h < |before| ==> forall x :: x != id ==> (x in after[h] <==> x in before[h]))
  }
}
