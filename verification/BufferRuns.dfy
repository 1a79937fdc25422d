/** The block cache over whole runs of its clients: it behaves as a plain block array, whatever is
    evicted on the way, and the array is on the disk once every reference has been released.

    Clients use buffers they hold, set the dirty flag before they release a buffer they changed, and do not
    read a block into a buffer that one of them got unread and has overwritten. */
module BufferRuns {
  import opened Basics
  import opened Sequences
  import opened BufferSpec

  datatype Op = Get(k: Key) | Read(k: Key) | Store(id: nat, data: Block) | SetDirty(id: nat)
              | WriteBack(id: nat) | Release(id: nat)

  /** The cache, the references handed out, the buffers changed since their last write-back, the plain
      array the clients believe in, and the time at which each buffer was last released for good. */
  datatype Sys = Sys(c: Cache, refs: multiset<nat>, changed: set<nat>, plain: Disk, stamp: map<nat, nat>, now: nat)

  function StampOf(stamp: map<nat, nat>, id: nat): nat {
    if id in stamp then stamp[id] else 0
  }

  // ---------------------------------------------------------------- the invariant

  /** Counts are the references handed out. */
  ghost predicate Held(c: Cache, refs: multiset<nat>) {
    && (forall id: nat :: id < |c.bufs| ==> c.bufs[id].count == refs[id])
    && (forall id: nat :: id in refs ==> id < |c.bufs|)
  }

  /** A clean, unchanged, valid buffer equals the disk; an unreferenced buffer is clean and unchanged. */
  ghost predicate Sound(b: Buffer, disk: Disk, changed: bool) {
    && (b.dirty ==> b.valid || changed)
    && (b.count == 0 ==> !b.dirty && !changed)
    && (b.valid && !b.dirty && !changed ==> b.data == At(disk, b.key))
  }

  ghost predicate AllSound(c: Cache, changed: set<nat>) {
    && (forall id: nat :: id < |c.bufs| ==> Sound(c.bufs[id], c.disk, id in changed))
    && (forall id: nat :: id in changed ==> id < |c.bufs|)
  }

  /** Buffer id has the latest bytes of block k: they were read, or a client has stored them. */
  predicate Holds(c: Cache, changed: set<nat>, id: nat, k: Key) {
    id < |c.bufs| && c.bufs[id].key == k && (c.bufs[id].valid || id in changed)
  }

  ghost predicate Cached(c: Cache, changed: set<nat>, k: Key) {
    exists id: nat :: Holds(c, changed, id, k)
  }

  /** What the clients believe is in the buffers that were read or stored into and, where there is none, on
      the disk. */
  ghost predicate Agrees(c: Cache, changed: set<nat>, plain: Disk) {
    && (forall id: nat, k: Key :: Holds(c, changed, id, k) ==> c.bufs[id].data == At(plain, k))
    && (forall k: Key :: !Cached(c, changed, k) ==> At(plain, k) == At(c.disk, k))
  }

  /** The free list is ordered by the time of release, latest first. */
  ghost predicate Aged(free: seq<nat>, stamp: map<nat, nat>, now: nat) {
    && (forall i, j :: 0 <= i < j < |free| ==> StampOf(stamp, free[i]) > StampOf(stamp, free[j]))
    && (forall i :: 0 <= i < |free| ==> StampOf(stamp, free[i]) < now)
  }

  ghost predicate Inv(s: Sys) {
    Wired(s.c) && Held(s.c, s.refs) && AllSound(s.c, s.changed) && Agrees(s.c, s.changed, s.plain)
    && Aged(s.c.free, s.stamp, s.now)
  }

  // ---------------------------------------------------------------- one step

  /** Buffer id was got without being read, and a client has stored into it. */
  predicate Unread(s: Sys, id: nat) {
    id in s.changed && id < |s.c.bufs| && !s.c.bufs[id].valid
  }

  /** What a client may do: use the buffers it holds, and mark those it has read or stored into.  Reading a
      block would replace what has been stored into an unread buffer of it. */
  predicate Allowed(s: Sys, op: Op) {
    match op
    case Get(_) => true
    case Read(k) => forall id :: id in s.changed && Unread(s, id) ==> s.c.bufs[id].key != k
    case Store(id, _) => id in s.refs
    case SetDirty(id) => id in s.refs && id < |s.c.bufs| && (s.c.bufs[id].valid || id in s.changed)
    case WriteBack(id) => id in s.refs
    case Release(id) => id in s.refs && id < |s.c.bufs| && (id in s.changed ==> s.c.bufs[id].dirty)
  }

  function Taken(s: Sys, c: Cache, r: Option<nat>): Sys {
    match r
    case None => s
    case Some(id) => Sys(c, s.refs + multiset{id}, s.changed, s.plain, s.stamp, s.now)
  }

  function Written(s: Sys, id: nat): set<nat>
    requires id < |s.c.bufs|
  {
    if s.c.bufs[id].dirty then s.changed - {id} else s.changed
  }

  /** Where the step is defined: chains are there, the free list names buffers, counts are positive. */
  predicate Enabled(s: Sys, op: Op) {
    && |s.c.chains| == HASH_COUNT && (s.c.free != [] ==> s.c.free[|s.c.free| - 1] < |s.c.bufs|)
    && match op
       case Get(_) => true
       case Read(_) => true
       case Store(id, _) => id < |s.c.bufs|
       case SetDirty(id) => id < |s.c.bufs|
       case WriteBack(id) => id < |s.c.bufs|
       case Release(id) => id < |s.c.bufs| && s.c.bufs[id].count > 0
  }

  function Do(s: Sys, op: Op): Sys
    requires Enabled(s, op)
  {
    match op
    case Get(k) => Taken(s, Getblk(s.c, k).0, Getblk(s.c, k).1)
    case Read(k) => Taken(s, Bread(s.c, k).0, Bread(s.c, k).1)
    case Store(id, data) =>
      Sys(Modify(s.c, id, data), s.refs, s.changed + {id}, s.plain[s.c.bufs[id].key := data], s.stamp, s.now)
    case SetDirty(id) => Sys(Mark(s.c, id), s.refs, s.changed, s.plain, s.stamp, s.now)
    case WriteBack(id) => Sys(Bwrite(s.c, id), s.refs, Written(s, id), s.plain, s.stamp, s.now)
    case Release(id) =>
      Sys(Brelse(s.c, id), s.refs - multiset{id}, Written(s, id), s.plain,
          if s.c.bufs[id].count == 1 then s.stamp[id := s.now] else s.stamp, s.now + 1)
  }

  /** No step a client may take trips an assertion. */
  lemma AllowedIsEnabled(s: Sys, op: Op)
    requires Inv(s) && Allowed(s, op)
    ensures Enabled(s, op)
  {
    hide Agrees, AllSound, Aged, Hash;
    assert s.c.free != [] ==> s.c.free[|s.c.free| - 1] in s.c.free;
    hide Wired;
  }

  // ---------------------------------------------------------------- the steps keep the contents

  /** Only buffer id differs, and its key is the same. */
  ghost predicate OneBuffer(c: Cache, c': Cache, id: nat) {
    && id < |c.bufs| == |c'.bufs| && c'.bufs[id].key == c.bufs[id].key
    && (forall x: nat :: x < |c.bufs| && x != id ==> c'.bufs[x] == c.bufs[x])
  }

  lemma OneSound(c: Cache, c': Cache, id: nat, changed: set<nat>, changed': set<nat>)
    requires AllSound(c, changed) && OneBuffer(c, c', id) && c'.disk == c.disk
    requires forall x: nat :: x != id ==> (x in changed' <==> x in changed)
    requires Sound(c'.bufs[id], c.disk, id in changed')
    ensures AllSound(c', changed')
  {
    hide Sound;
  }

  lemma OneHeld(c: Cache, c': Cache, id: nat, refs: multiset<nat>, refs': multiset<nat>)
    requires Held(c, refs) && OneBuffer(c, c', id)
    requires forall x: nat :: x != id ==> refs'[x] == refs[x]
    requires c'.bufs[id].count == refs'[id]
    ensures Held(c', refs')
  {
    forall x: nat | x in refs'
      ensures x < |c.bufs|
    {
      assert x == id || x in refs;
    }
  }

  /** Validity and bytes of buffer id are the same too, and the disk is. */
  lemma CountOnly(c: Cache, c': Cache, id: nat, changed: set<nat>, plain: Disk)
    requires Agrees(c, changed, plain) && OneBuffer(c, c', id) && c'.disk == c.disk
    requires c'.bufs[id].valid == c.bufs[id].valid && c'.bufs[id].data == c.bufs[id].data
    ensures Agrees(c', changed, plain)
  {
    forall k: Key, x: nat
      ensures Holds(c', changed, x, k) <==> Holds(c, changed, x, k)
    {}
    SameCached(c, c', changed, changed);
  }

  /** The same buffers hold latest bytes. */
  lemma SameCached(c: Cache, c': Cache, changed: set<nat>, changed': set<nat>)
    requires forall x: nat, k: Key :: Holds(c', changed', x, k) <==> Holds(c, changed, x, k)
    ensures forall k: Key :: Cached(c', changed', k) <==> Cached(c, changed, k)
  {
    forall k: Key
      ensures Cached(c', changed', k) <==> Cached(c, changed, k)
    {
      if x: nat :| Holds(c, changed, x, k) {
        assert Holds(c', changed', x, k);
      }
    }
  }

  lemma CreateAgrees(c: Cache, k: Key, changed: set<nat>, plain: Disk)
    requires |c.chains| == HASH_COUNT && Agrees(c, changed, plain) && AllSound(c, changed)
    ensures Agrees(Create(c, k), changed, plain)
  {
    hide Hash;
    var c' := Create(c, k);
    forall q: Key, x: nat
      ensures Holds(c', changed, x, q) <==> Holds(c, changed, x, q)
    {}
    SameCached(c, c', changed, changed);
  }

  /** Eviction drops a clean buffer, whose bytes are on the disk. */
  lemma EvictAgrees(c: Cache, k: Key, changed: set<nat>, plain: Disk)
    requires Wired(c) && c.free != [] && AllSound(c, changed) && Agrees(c, changed, plain)
    ensures c.free[|c.free| - 1] < |c.bufs| && Agrees(Evict(c, k), changed, plain)
  {
    var id := c.free[|c.free| - 1];
    assert id in c.free;
    var c' := Evict(c, k);
    assert Sound(c.bufs[id], c.disk, id in changed);
    hide Wired, Hash, Rehash;
    forall q: Key, x: nat
      ensures Holds(c', changed, x, q) <==> Holds(c, changed, x, q) && x != id
    {}
    forall q: Key
      ensures Cached(c, changed, q) ==> Cached(c', changed, q) || Holds(c, changed, id, q)
    {
      if x: nat :| Holds(c, changed, x, q) {
        assert x == id || Holds(c', changed, x, q);
      }
    }
  }

  /** bread fills an invalid buffer from the disk, where the latest bytes are unless a client has stored
      into it. */
  lemma FillAgrees(c: Cache, id: nat, changed: set<nat>, plain: Disk)
    requires Wired(c) && id < |c.bufs| && (c.bufs[id].valid || id !in changed) && Agrees(c, changed, plain)
    ensures Agrees(Fill(c, id), changed, plain)
  {
    var k0 := c.bufs[id].key;
    var c' := Fill(c, id);
    forall q: Key, x: nat
      ensures Holds(c', changed, x, q) <==> Holds(c, changed, x, q) || (x == id && q == k0)
    {}
    forall x: nat | Holds(c, changed, x, k0)
      ensures x == id
    {}
    hide Wired;
    assert c.bufs[id].valid ==> Holds(c, changed, id, k0);
    forall q: Key
      ensures Cached(c, changed, q) ==> Cached(c', changed, q)
    {
      if x: nat :| Holds(c, changed, x, q) {
        assert Holds(c', changed, x, q);
      }
    }
  }

  lemma StoreAgrees(c: Cache, id: nat, data: Block, changed: set<nat>, plain: Disk)
    requires Wired(c) && id < |c.bufs| && Agrees(c, changed, plain)
    ensures Agrees(Modify(c, id, data), changed + {id}, plain[c.bufs[id].key := data])
  {
    var k0 := c.bufs[id].key;
    var c', changed' := Modify(c, id, data), changed + {id};
    forall q: Key, x: nat
      ensures Holds(c', changed', x, q) <==> Holds(c, changed, x, q) || (x == id && q == k0)
      ensures Holds(c, changed, x, q) && q == k0 ==> x == id
    {}
    hide Wired;
    forall q: Key
      ensures Cached(c, changed, q) ==> Cached(c', changed', q)
    {
      if x: nat :| Holds(c, changed, x, q) {
        assert Holds(c', changed', x, q);
      }
    }
    assert Holds(c', changed', id, k0);
  }

  lemma WriteAgrees(c: Cache, id: nat, changed: set<nat>, plain: Disk)
    requires Wired(c) && id < |c.bufs| && Sound(c.bufs[id], c.disk, id in changed) && Agrees(c, changed, plain)
    ensures Agrees(Bwrite(c, id), if c.bufs[id].dirty then changed - {id} else changed, plain)
  {
    var k0 := c.bufs[id].key;
    var c', changed' := Bwrite(c, id), if c.bufs[id].dirty then changed - {id} else changed;
    hide Wired;
    forall q: Key, x: nat
      ensures Holds(c', changed', x, q) <==> Holds(c, changed, x, q)
    {}
    SameCached(c, c', changed, changed');
    assert c.bufs[id].dirty ==> Holds(c, changed, id, k0);
  }

  /** Writing one buffer back leaves every other buffer sound: no two share a key. */
  lemma WriteSound(c: Cache, id: nat, changed: set<nat>)
    requires Wired(c) && id < |c.bufs| && AllSound(c, changed)
    ensures AllSound(Bwrite(c, id), if c.bufs[id].dirty then changed - {id} else changed)
  {
    var c' := Bwrite(c, id);
    var changed' := if c.bufs[id].dirty then changed - {id} else changed;
    forall x: nat | x < |c'.bufs|
      ensures Sound(c'.bufs[x], c'.disk, x in changed')
    {
      assert Sound(c.bufs[x], c.disk, x in changed);
      assert Sound(c.bufs[id], c.disk, id in changed);
      assert x != id ==> c.bufs[x].key != c.bufs[id].key;
    }
  }

  lemma {:induction false} WithoutAged(free: seq<nat>, id: nat, stamp: map<nat, nat>, now: nat)
    requires Aged(free, stamp, now)
    ensures Aged(Without(free, id), stamp, now)
  {
    if free != [] {
      WithoutAged(free[1..], id, stamp, now);
      var rest := Without(free[1..], id);
      forall i | 0 <= i < |rest|
        ensures StampOf(stamp, free[0]) > StampOf(stamp, rest[i])
      {
        assert rest[i] in free[1..];
      }
    }
  }

  // ---------------------------------------------------------------- every step keeps the invariant

  lemma GetKeeps(s: Sys, k: Key)
    requires Inv(s)
    ensures Enabled(s, Get(k)) && Inv(Do(s, Get(k)))
  {
    AllowedIsEnabled(s, Get(k));
    GetblkWired(s.c, k);
    SearchIsExact(s.c, k);
    var (c, r) := Getblk(s.c, k);
    match FindIn(s.c.bufs, s.c.chains[Hash(k)], k) {
      case Some(id) => HitKeeps(s, id);
      case None =>
        if RoomFor(|s.c.bufs|) {
          CreateKeeps(s, k);
        } else if s.c.free != [] {
          EvictKeeps(s, k);
        }
    }
  }

  lemma HitKeeps(s: Sys, id: nat)
    requires Inv(s) && id < |s.c.bufs|
    ensures Inv(Taken(s, Hit(s.c, id), Some(id)))
  {
    HitWired(s.c, id);
    var c := Hit(s.c, id);
    assert Sound(s.c.bufs[id], s.c.disk, id in s.changed);
    CountOnly(s.c, c, id, s.changed, s.plain);
    WithoutAged(s.c.free, id, s.stamp, s.now);
    OneSound(s.c, c, id, s.changed, s.changed);
    OneHeld(s.c, c, id, s.refs, s.refs + multiset{id});
    hide Wired, Agrees, Aged, Held, AllSound, At, Without;
  }

  lemma CreateKeeps(s: Sys, k: Key)
    requires Inv(s) && RoomFor(|s.c.bufs|) && forall id :: 0 <= id < |s.c.bufs| ==> s.c.bufs[id].key != k
    ensures Inv(Taken(s, Create(s.c, k), Some(|s.c.bufs|)))
  {
    CreateWired(s.c, k);
    CreateAgrees(s.c, k, s.changed, s.plain);
    hide Wired, Agrees, Aged, At, Hash, RoomFor;
    var n := |s.c.bufs|;
    assert n !in s.refs;
  }

  lemma EvictKeeps(s: Sys, k: Key)
    requires Inv(s) && s.c.free != [] && forall id :: 0 <= id < |s.c.bufs| ==> s.c.bufs[id].key != k
    ensures s.c.free[|s.c.free| - 1] < |s.c.bufs|
    ensures Inv(Taken(s, Evict(s.c, k), Some(s.c.free[|s.c.free| - 1])))
  {
    EvictWired(s.c, k);
    EvictAgrees(s.c, k, s.changed, s.plain);
    var id := s.c.free[|s.c.free| - 1];
    assert id in s.c.free;
    hide Wired, Agrees, At, Hash, Rehash;
    EvictHeld(s.c, k, s.changed, s.refs);
    assert Aged(Evict(s.c, k).free, s.stamp, s.now);
    hide Wired, Agrees, Aged, Held, AllSound, At, Hash, Evict;
  }

  lemma EvictHeld(c: Cache, k: Key, changed: set<nat>, refs: multiset<nat>)
    requires |c.chains| == HASH_COUNT && c.free != []
    requires Held(c, refs) && AllSound(c, changed)
    requires var id := c.free[|c.free| - 1]; id < |c.bufs| && c.bufs[id].count == 0
    ensures Held(Evict(c, k), refs + multiset{c.free[|c.free| - 1]}) && AllSound(Evict(c, k), changed)
  {
    hide At, Hash, Rehash;
    var id := c.free[|c.free| - 1];
    assert Sound(c.bufs[id], c.disk, id in changed);
  }

  lemma FillKeeps(s: Sys, id: nat)
    requires Inv(s) && id < |s.c.bufs| && !Unread(s, id)
    ensures Inv(Sys(Fill(s.c, id), s.refs, s.changed, s.plain, s.stamp, s.now))
  {
    var c := Fill(s.c, id);
    SameWiring(s.c, c);
    FillAgrees(s.c, id, s.changed, s.plain);
    assert Sound(s.c.bufs[id], s.c.disk, id in s.changed);
    OneSound(s.c, c, id, s.changed, s.changed);
    OneHeld(s.c, c, id, s.refs, s.refs);
    hide Wired, Agrees, Aged, Held, AllSound, At;
  }

  lemma StoreKeeps(s: Sys, id: nat, data: Block)
    requires Inv(s) && Allowed(s, Store(id, data))
    ensures Enabled(s, Store(id, data)) && Inv(Do(s, Store(id, data)))
  {
    AllowedIsEnabled(s, Store(id, data));
    var c := Modify(s.c, id, data);
    SameWiring(s.c, c);
    StoreAgrees(s.c, id, data, s.changed, s.plain);
    assert Sound(s.c.bufs[id], s.c.disk, id in s.changed);
    assert s.c.bufs[id].count == s.refs[id] > 0;
    OneSound(s.c, c, id, s.changed, s.changed + {id});
    OneHeld(s.c, c, id, s.refs, s.refs);
    hide Wired, Agrees, Aged, Held, AllSound, At, Modify, Allowed, Enabled;
  }

  lemma MarkKeeps(s: Sys, id: nat)
    requires Inv(s) && Allowed(s, SetDirty(id))
    ensures Enabled(s, SetDirty(id)) && Inv(Do(s, SetDirty(id)))
  {
    AllowedIsEnabled(s, SetDirty(id));
    var c := Mark(s.c, id);
    SameWiring(s.c, c);
    CountOnly(s.c, c, id, s.changed, s.plain);
    assert s.c.bufs[id].count == s.refs[id] > 0;
    OneSound(s.c, c, id, s.changed, s.changed);
    OneHeld(s.c, c, id, s.refs, s.refs);
    hide Wired, Agrees, Aged, Held, AllSound, At, Mark, Allowed, Enabled;
  }

  lemma WriteKeeps(s: Sys, id: nat)
    requires Inv(s) && id < |s.c.bufs|
    ensures Inv(Sys(Bwrite(s.c, id), s.refs, Written(s, id), s.plain, s.stamp, s.now))
  {
    SameWiring(s.c, Bwrite(s.c, id));
    assert Sound(s.c.bufs[id], s.c.disk, id in s.changed);
    WriteAgrees(s.c, id, s.changed, s.plain);
    WriteSound(s.c, id, s.changed);
    hide Wired, Agrees, At;
  }

  /** The rest of brelse: the buffer is clean and unchanged by now. */
  lemma DropKeeps(s: Sys, id: nat)
    requires Inv(s) && id in s.refs && id < |s.c.bufs| && !s.c.bufs[id].dirty && id !in s.changed
    ensures s.c.bufs[id].count > 0
    ensures Inv(Sys(Drop(s.c, id), s.refs - multiset{id}, s.changed, s.plain,
                    if s.c.bufs[id].count == 1 then s.stamp[id := s.now] else s.stamp, s.now + 1))
  {
    assert s.c.bufs[id].count == s.refs[id] > 0;
    var c := Drop(s.c, id);
    DropWired(s.c, id);
    CountOnly(s.c, c, id, s.changed, s.plain);
    DropAged(s, id);
    assert Sound(s.c.bufs[id], s.c.disk, id in s.changed);
    OneSound(s.c, c, id, s.changed, s.changed);
    OneHeld(s.c, c, id, s.refs, s.refs - multiset{id});
    hide Wired, Agrees, Aged, Held, AllSound, At, Drop;
  }

  lemma DropAged(s: Sys, id: nat)
    requires Wired(s.c) && Aged(s.c.free, s.stamp, s.now) && id < |s.c.bufs| && s.c.bufs[id].count > 0
    ensures Aged(Drop(s.c, id).free, if s.c.bufs[id].count == 1 then s.stamp[id := s.now] else s.stamp, s.now + 1)
  {
    assert id !in s.c.free;
    hide Wired;
  }

  /** bread is getblk followed by the read. */
  lemma ReadIs(s: Sys, k: Key)
    requires Enabled(s, Get(k))
    ensures var (s1, r) := (Do(s, Get(k)), Getblk(s.c, k).1);
      Do(s, Read(k)) == if r.Some? && r.value < |s1.c.bufs|
        then Sys(Fill(s1.c, r.value), s1.refs, s1.changed, s1.plain, s1.stamp, s1.now) else s1
  {
    hide Getblk, Fill;
  }

  /** The buffer getblk returns is not an unread one that was stored into, if none of block k is. */
  lemma GetFindsRead(s: Sys, k: Key)
    requires Inv(s) && Allowed(s, Read(k))
    ensures Enabled(s, Get(k))
    ensures var r := Getblk(s.c, k).1; r.Some? ==> r.value < |Do(s, Get(k)).c.bufs| && !Unread(Do(s, Get(k)), r.value)
  {
    AllowedIsEnabled(s, Get(k));
    SearchIsExact(s.c, k);
    GetblkWired(s.c, k);
    NoneFree(s.c);
    LastFreeIsBuffer(s.c);
    if s.c.free != [] {
      var id := s.c.free[|s.c.free| - 1];
      assert id in s.c.free;
      assert Sound(s.c.bufs[id], s.c.disk, id in s.changed);
    }
    hide Agrees, Aged, Held, Sound, Hash, RoomFor, Without, Rehash;
  }

  lemma ReadKeeps(s: Sys, k: Key)
    requires Inv(s) && Allowed(s, Read(k))
    ensures Enabled(s, Read(k)) && Inv(Do(s, Read(k)))
  {
    GetFindsRead(s, k);
    hide Wired, Agrees, AllSound, Held, Aged, Getblk, Fill, Do, Unread;
    GetKeeps(s, k);
    ReadIs(s, k);
    var s1, r := Do(s, Get(k)), Getblk(s.c, k).1;
    hide Inv;
    if r.Some? && r.value < |s1.c.bufs| {
      FillKeeps(s1, r.value);
    }
  }

  /** brelse is the write-back followed by the release of one reference. */
  lemma ReleaseIs(s: Sys, id: nat)
    requires Enabled(s, Release(id))
    ensures var s1 := Sys(Bwrite(s.c, id), s.refs, Written(s, id), s.plain, s.stamp, s.now);
      && s1.c.bufs[id].count == s.c.bufs[id].count
      && !s1.c.bufs[id].dirty && (id in s1.changed ==> id in s.changed && !s.c.bufs[id].dirty)
      && Do(s, Release(id)) == Sys(Drop(s1.c, id), s1.refs - multiset{id}, s1.changed, s1.plain,
           if s1.c.bufs[id].count == 1 then s1.stamp[id := s1.now] else s1.stamp, s1.now + 1)
  {}

  lemma ReleaseKeeps(s: Sys, id: nat)
    requires Inv(s) && Allowed(s, Release(id))
    ensures Enabled(s, Release(id)) && Inv(Do(s, Release(id)))
  {
    hide Wired, Agrees, Aged, Held, AllSound, At;
    AllowedIsEnabled(s, Release(id));
    WriteKeeps(s, id);
    ReleaseIs(s, id);
    hide Inv, Enabled, Do, Bwrite, Written, Drop;
    DropKeeps(Sys(Bwrite(s.c, id), s.refs, Written(s, id), s.plain, s.stamp, s.now), id);
  }

  lemma StepKeeps(s: Sys, op: Op)
    requires Inv(s) && Allowed(s, op)
    ensures Enabled(s, op) && Inv(Do(s, op))
  {
    AllowedIsEnabled(s, op);
    match op {
      case Get(k) => GetKeeps(s, k);
      case Read(k) => ReadKeeps(s, k);
      case Store(id, data) => StoreKeeps(s, id, data);
      case SetDirty(id) => MarkKeeps(s, id);
      case WriteBack(id) => hide Inv; WriteKeeps(s, id);
      case Release(id) => ReleaseKeeps(s, id);
    }
  }

  // ---------------------------------------------------------------- what clients see

  /** bread returns the latest contents of the block, whatever was evicted in between. */
  lemma ReadsLatest(s: Sys, k: Key)
    requires Inv(s) && Allowed(s, Read(k))
    ensures s.c.free != [] ==> s.c.free[|s.c.free| - 1] < |s.c.bufs|
    ensures var (c, r) := Bread(s.c, k);
      r.Some? ==> r.value < |c.bufs| && c.bufs[r.value].key == k && c.bufs[r.value].valid
                  && c.bufs[r.value].data == At(s.plain, k)
  {
    BreadIsValid(s.c, k);
    hide Bread, Getblk, Wired, Held, AllSound, Aged, At, Cached, Allowed, Unread;
    ReadKeeps(s, k);
    var s' := Do(s, Read(k));
    assert Agrees(s'.c, s.changed, s.plain);
    assert Bread(s.c, k).1.Some? ==> Holds(s'.c, s.changed, Bread(s.c, k).1.value, k);
  }

  /** bread hands out a valid buffer of its block. */
  lemma BreadIsValid(c: Cache, k: Key)
    requires Wired(c)
    ensures c.free != [] ==> c.free[|c.free| - 1] < |c.bufs|
    ensures var (c', r) := Bread(c, k);
      r.Some? ==> r.value < |c'.bufs| && c'.bufs[r.value].key == k && c'.bufs[r.value].valid
  {
    GetblkWired(c, k);
    hide Getblk, Wired;
  }

  /** When every reference has been released, the disk itself holds the latest contents. */
  lemma AllReleasedIsOnDisk(s: Sys, k: Key)
    requires Inv(s) && s.refs == multiset{}
    ensures At(s.c.disk, k) == At(s.plain, k)
  {
    if id: nat :| Holds(s.c, s.changed, id, k) {
      assert Sound(s.c.bufs[id], s.c.disk, id in s.changed);
    }
  }

  /** A release puts the latest contents of the block on the disk, whoever else still holds the buffer, and what was
      written back need not be read again. */
  lemma ReleasedIsOnDisk(s: Sys, id: nat)
    requires Inv(s) && Allowed(s, Release(id))
    ensures Enabled(s, Release(id))
    ensures var s', k := Do(s, Release(id)), s.c.bufs[id].key;
      && At(s'.c.disk, k) == At(s'.plain, k) == At(s.plain, k)
      && id < |s'.c.bufs| && !s'.c.bufs[id].dirty && (s.c.bufs[id].dirty ==> s'.c.bufs[id].valid)
  {
    ReleaseKeeps(s, id);
    ReleaseIs(s, id);
    var s', k := Do(s, Release(id)), s.c.bufs[id].key;
    ReleaseLeaves(s, id);
    hide Do, Brelse, Bwrite, Drop, Aged, Held;
    assert Sound(s'.c.bufs[id], s'.c.disk, id in s'.changed);
    if x: nat :| Holds(s'.c, s'.changed, x, k) {
      assert x == id;
    }
  }

  /** The buffer behind a release. */
  lemma ReleaseLeaves(s: Sys, id: nat)
    requires Enabled(s, Release(id)) && Allowed(s, Release(id))
    ensures var s' := Do(s, Release(id));
      && id < |s'.c.bufs| == |s.c.bufs| && s'.c.bufs[id].key == s.c.bufs[id].key
      && !s'.c.bufs[id].dirty && id !in s'.changed && s'.plain == s.plain
      && (s.c.bufs[id].dirty ==> s'.c.bufs[id].valid)
  {}

  /** Reuse takes the buffer whose last release lies furthest back. */
  lemma EvictsLeastRecentlyReleased(s: Sys, k: Key, other: nat)
    requires Inv(s) && s.c.free != [] && other < |s.c.bufs| && s.c.bufs[other].count == 0
    ensures var id := s.c.free[|s.c.free| - 1];
      id < |s.c.bufs| && s.c.bufs[id].count == 0 && StampOf(s.stamp, id) <= StampOf(s.stamp, other)
  {
    var last := |s.c.free| - 1;
    assert s.c.free[last] in s.c.free;
    assert other in s.c.free;
    var i :| 0 <= i < |s.c.free| && s.c.free[i] == other;
    assert i < last ==> StampOf(s.stamp, s.c.free[i]) > StampOf(s.stamp, s.c.free[last]);
  }

  // ---------------------------------------------------------------- runs

  /** Clients take any allowed steps in any order. */
  ghost predicate Run(s: Sys, ops: seq<Op>, s': Sys)
    decreases |ops|
  {
    if ops == [] then s' == s
    else Allowed(s, ops[0]) && Enabled(s, ops[0]) && Run(Do(s, ops[0]), ops[1..], s')
  }

  function Start(disk: Disk): Sys {
    Sys(Cache(disk, [], [], seq(HASH_COUNT, i => [])), multiset{}, {}, disk, map[], 0)
  }

  lemma StartInv(disk: Disk)
    ensures Inv(Start(disk))
  {
    assert forall k :: !Cached(Start(disk).c, {}, k);
  }

  lemma {:induction false} RunKeeps(s: Sys, ops: seq<Op>, s': Sys)
    requires Inv(s) && Run(s, ops, s')
    ensures Inv(s')
    decreases |ops|
  {
    hide Inv, Do, Allowed, Enabled;
    if ops != [] {
      StepKeeps(s, ops[0]);
      RunKeeps(Do(s, ops[0]), ops[1..], s');
    }
  }

  /** The cache refines a plain block array over every run from an empty cache: a read that is allowed
      returns the array's block, and once all references are released the disk is the array. */
  lemma CacheRefinesDisk(disk: Disk, ops: seq<Op>, s: Sys, k: Key)
    requires Run(Start(disk), ops, s)
    ensures Enabled(s, Read(k))
    ensures var (c, r) := Bread(s.c, k);
      Allowed(s, Read(k)) && r.Some? ==> r.value < |c.bufs| && c.bufs[r.value].data == At(s.plain, k)
    ensures s.refs == multiset{} ==> At(s.c.disk, k) == At(s.plain, k)
  {
    StartInv(disk);
    RunKeeps(Start(disk), ops, s);
    AllowedIsEnabled(s, Get(k));
    hide Inv, Bread, Allowed;
    if Allowed(s, Read(k)) {
      ReadsLatest(s, k);
    }
    if s.refs == multiset{} {
      AllReleasedIsOnDisk(s, k);
    }
  }

  // ---------------------------------------------------------------- reading what was stored unread

  /** bread on a cached block keeps the buffer's bytes exactly if they were valid or equal the disk. */
  lemma BreadKeepsBytes(c: Cache, k: Key, id: nat)
    requires Wired(c) && id < |c.bufs| && c.bufs[id].key == k
    ensures c.free != [] ==> c.free[|c.free| - 1] < |c.bufs|
    ensures Bread(c, k).1 == Some(id)
    ensures Bread(c, k).0.bufs[id].data == c.bufs[id].data <==> c.bufs[id].valid || c.bufs[id].data == At(c.disk, k)
  {
    SearchIsExact(c, k);
    GetblkWired(c, k);
    hide Wired;
  }

  /** bread returns the latest contents of a cached block if and only if the buffer is not one that a client
      got unread and has stored other bytes into than the disk holds. */
  lemma BreadIsLatestExactly(s: Sys, k: Key, id: nat)
    requires Inv(s) && id < |s.c.bufs| && s.c.bufs[id].key == k
    ensures Enabled(s, Read(k)) && Bread(s.c, k).1 == Some(id)
    ensures Bread(s.c, k).0.bufs[id].data == At(s.plain, k) <==>
      !Unread(s, id) || s.c.bufs[id].data == At(s.c.disk, k)
  {
    AllowedIsEnabled(s, Get(k));
    BreadKeepsBytes(s.c, k, id);
    if Unread(s, id) {
      assert Holds(s.c, s.changed, id, k);
      UnreadIsReplaced(s.c, k, id);
    } else {
      forall x | x in s.changed && Unread(s, x)
        ensures s.c.bufs[x].key != k
      {}
      hide Wired, Agrees, AllSound, Held, Aged, Bread;
      ReadsLatest(s, k);
    }
  }

  lemma UnreadIsReplaced(c: Cache, k: Key, id: nat)
    requires Wired(c) && id < |c.bufs| && c.bufs[id].key == k && !c.bufs[id].valid
    ensures c.free != [] ==> c.free[|c.free| - 1] < |c.bufs|
    ensures Bread(c, k).1 == Some(id) && Bread(c, k).0.bufs[id].data == At(c.disk, k)
  {
    SearchIsExact(c, k);
    GetblkWired(c, k);
    hide Wired;
  }

  /** The first two moves of a client that does not read the block before it stores into it. */
  lemma GotUnread(disk: Disk, k: Key, data: Block) returns (s1: Sys, s2: Sys)
    ensures Enabled(Start(disk), Get(k)) && s1 == Do(Start(disk), Get(k))
    ensures s1.c.disk == disk && s1.c.bufs == [Buffer(k, Blank(), 1, false, false)]
    ensures s1.refs == multiset{0} && s1.changed == {} && s1.plain == disk
    ensures Enabled(s1, Store(0, data)) && s2 == Do(s1, Store(0, data))
    ensures s2.c.bufs == [Buffer(k, data, 1, false, false)] && s2.changed == {0} && s2.plain == disk[k := data]
  {
    hide Hash, Blank;
    assert FindIn([], [], k) == None;
    HowManyFit(0);
    s1 := Do(Start(disk), Get(k));
    s2 := Do(s1, Store(0, data));
  }

  /** A client that gets a block unread, overwrites all of it, marks it and releases it finds its bytes on the
      disk, whatever the disk held. */
  lemma OverwriteReachesDisk(disk: Disk, k: Key, data: Block) returns (s: Sys)
    ensures Run(Start(disk), [Get(k), Store(0, data), SetDirty(0), Release(0)], s)
    ensures At(s.c.disk, k) == data && s.refs == multiset{}
  {
    var s1, s2 := GotUnread(disk, k, data);
    var s3 := Do(s2, SetDirty(0));
    s := Do(s3, Release(0));
    var ops := [Get(k), Store(0, data), SetDirty(0), Release(0)];
    var ops1 := ops[1..];
    var ops2 := ops1[1..];
    var ops3 := ops2[1..];
    assert ops1[0] == Store(0, data) && ops2[0] == SetDirty(0) && ops3[0] == Release(0) && ops3[1..] == [];
    hide Do;
    assert Run(s3, ops3, s);
    assert Run(s2, ops2, s);
    assert Run(s1, ops1, s);
  }

  /** For every disk: a store into a buffer got unread, even when marked dirty, is undone by the next bread of
      the block if it changed anything. */
  lemma StoreIsLost(disk: Disk, k: Key, data: Block) returns (s: Sys)
    requires data != At(disk, k)
    ensures Run(Start(disk), [Get(k), Store(0, data), SetDirty(0)], s)
    ensures Enabled(s, Read(k)) && At(s.plain, k) == data && !Allowed(s, Read(k))
    ensures var (c, r) := Bread(s.c, k); r == Some(0) && |c.bufs| == 1 && c.bufs[0].data == At(disk, k) && !c.bufs[0].dirty
  {
    var s1, s2 := GotUnread(disk, k, data);
    s := Do(s2, SetDirty(0));
    var ops := [Get(k), Store(0, data), SetDirty(0)];
    assert ops[1..][0] == Store(0, data) && ops[1..][1..][0] == SetDirty(0) && ops[1..][1..][1..] == [];
    assert Run(s, [], s);
    assert Run(s2, ops[1..][1..], s);
    assert Run(s1, ops[1..], s);
    StartInv(disk);
    RunKeeps(Start(disk), ops, s);
    UnreadIsReplaced(s.c, k, 0);
  }
}
