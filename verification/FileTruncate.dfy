/** Truncation (fs/inode.c): it frees exactly the zones of the file. */
module FileTruncate {
  import opened Basics
  import opened FileTree
  import opened FileOwnership
  import opened FileContents

  /** t is s or lies below it. */
  predicate Under(t: Slot, s: Slot) {
    t == s || (t.Child? && Under(t.parent, s))
  }

  /** Zone z is reached through slot s or below it. */
  ghost predicate Reaches(fs: Fs, s: Slot, z: nat) {
    exists t :: ValidSlot(t) && Under(t, s) && At(fs, t) == z && z != 0
  }

  /** Zone z belongs to file n: it is one of its data zones or one of its index blocks. */
  ghost predicate Belongs(fs: Fs, n: nat, z: nat) {
    exists t :: ValidSlot(t) && Owner(t) == n && At(fs, t) == z && z != 0
  }

  // ---------------------------------------------------------------- subtrees

  lemma {:induction false} UnderOwner(t: Slot, s: Slot)
    requires Under(t, s)
    ensures Owner(t) == Owner(s)
  {
    if t != s {
      UnderOwner(t.parent, s);
    }
  }

  /** Below a slot lie the subtrees of its 512 children. */
  lemma {:induction false} UnderChild(t: Slot, s: Slot)
    requires ValidSlot(t) && Under(t, s) && t != s
    ensures Level(s) > 0 && exists i: nat :: i < BLOCK_INDEXES && Under(t, Child(s, i))
    decreases t
  {
    if t.parent == s {
      assert Under(t, Child(s, t.i));
    } else {
      UnderChild(t.parent, s);
      var i: nat :| i < BLOCK_INDEXES && Under(t.parent, Child(s, i));
      assert Under(t, Child(s, i));
    }
  }

  lemma {:induction false} ChildUnder(t: Slot, s: Slot, i: nat)
    requires Under(t, Child(s, i))
    ensures Under(t, s)
    decreases t
  {
    if t == Child(s, i) {
      assert Under(s, s);
    } else {
      ChildUnder(t.parent, s, i);
    }
  }

  /** A level-0 slot has nothing below it; an empty slot has nothing mapped below it. */
  lemma {:induction false} NothingBelow(fs: Fs, t: Slot, s: Slot)
    requires ValidSlot(t) && Under(t, s) && (Level(s) == 0 || At(fs, s) == 0)
    ensures t == s || (Level(s) > 0 && At(fs, t) == 0)
    decreases t
  {
    if t != s {
      UnderChild(t, s);
      if t.parent != s {
        NothingBelow(fs, t.parent, s);
      }
    }
  }

  /** What a subtree reaches: its own zone and what the children's subtrees reach. */
  lemma ReachesSplit(fs: Fs, s: Slot, z: nat)
    requires ValidSlot(s)
    ensures Level(s) == 0 ==> (Reaches(fs, s, z) <==> z == At(fs, s) != 0)
    ensures At(fs, s) == 0 ==> !Reaches(fs, s, z)
    ensures Level(s) > 0 && At(fs, s) != 0 ==>
      (Reaches(fs, s, z) <==> z == At(fs, s) || exists i: nat :: i < BLOCK_INDEXES && Reaches(fs, Child(s, i), z))
  {
    if t :| ValidSlot(t) && Under(t, s) && At(fs, t) == z && z != 0 {
      if Level(s) == 0 || At(fs, s) == 0 {
        NothingBelow(fs, t, s);
      } else if t != s {
        UnderChild(t, s);
        var i: nat :| i < BLOCK_INDEXES && Under(t, Child(s, i));
        assert Reaches(fs, Child(s, i), z);
      }
    }
    if At(fs, s) != 0 && z == At(fs, s) {
      assert Under(s, s);
    }
    forall i: nat | i < BLOCK_INDEXES && Reaches(fs, Child(s, i), z)
      ensures Reaches(fs, s, z)
    {
      var t :| ValidSlot(t) && Under(t, Child(s, i)) && At(fs, t) == z && z != 0;
      ChildUnder(t, s, i);
    }
  }

  /** Under Owned, the nine subtrees of an inode, or the subtrees of two children, share no zone. */
  lemma SubtreesApart(fs: Fs, s: Slot, i: nat, j: nat, z: nat)
    requires Owned(fs) && Reaches(fs, Child(s, i), z) && Reaches(fs, Child(s, j), z)
    ensures i == j
  {
    var t :| ValidSlot(t) && Under(t, Child(s, i)) && At(fs, t) == z && z != 0;
    var u :| ValidSlot(u) && Under(u, Child(s, j)) && At(fs, u) == z && z != 0;
    assert t == u;
    UnderOneChild(t, s, i, j);
  }

  lemma {:induction false} UnderOneChild(t: Slot, s: Slot, i: nat, j: nat)
    requires Under(t, Child(s, i)) && Under(t, Child(s, j))
    ensures i == j
    decreases t
  {
    if t == Child(s, i) && t != Child(s, j) {
      NotUnderOwnSubtree(s, Child(s, j));
    } else if t == Child(s, j) && t != Child(s, i) {
      NotUnderOwnSubtree(s, Child(s, i));
    } else if t != Child(s, i) {
      UnderOneChild(t.parent, s, i, j);
    }
  }

  /** A slot is not below one that is larger than itself. */
  lemma {:induction false} NotUnderOwnSubtree(t: Slot, s: Slot)
    requires Depth(t) < Depth(s)
    ensures !Under(t, s)
    decreases t
  {
    if t.Child? {
      NotUnderOwnSubtree(t.parent, s);
    }
  }

  function Depth(s: Slot): nat {
    match s
    case Root(_, _) => 0
    case Child(p, _) => 1 + Depth(p)
  }

  lemma RootOf(t: Slot) returns (k: nat)
    requires ValidSlot(t)
    ensures k < ZONES_PER_INODE && Under(t, Root(Owner(t), k))
    decreases t
  {
    if t.Root? {
      k := t.k;
    } else {
      k := RootOf(t.parent);
    }
  }

  /** A file's zones are those its nine inode slots reach. */
  lemma BelongsByRoot(fs: Fs, n: nat, z: nat)
    ensures Belongs(fs, n, z) <==> exists k: nat :: k < ZONES_PER_INODE && Reaches(fs, Root(n, k), z)
  {
    if t :| ValidSlot(t) && Owner(t) == n && At(fs, t) == z && z != 0 {
      var k := RootOf(t);
      assert Reaches(fs, Root(n, k), z);
    }
    if k: nat :| k < ZONES_PER_INODE && Reaches(fs, Root(n, k), z) {
      var t :| ValidSlot(t) && Under(t, Root(n, k)) && At(fs, t) == z && z != 0;
      UnderOwner(t, Root(n, k));
    }
  }

  // ---------------------------------------------------------------- the truncated file system

  function EmptyInode(inode: Inode): (r: Inode)
    ensures r.size == 0 && |r.zone| == ZONES_PER_INODE && forall k :: 0 <= k < ZONES_PER_INODE ==> r.zone[k] == 0
  {
    Inode(inode.mode, 0, seq(ZONES_PER_INODE, _ => 0))
  }

  /** ISFILE or ISDIR of a mode word. */
  predicate FileOrDirectory(mode: nat) {
    mode / 0x1000 % 0x10 == 8 || mode / 0x1000 % 0x10 == 4
  }

  /** fs' is fs with file n empty and exactly its zones free; the blocks keep their bytes. */
  ghost predicate Truncated(fs: Fs, fs': Fs, n: nat) {
    && n < |fs.inodes|
    && fs'.inodes == fs.inodes[n := EmptyInode(fs.inodes[n])]
    && fs'.blocks == fs.blocks && fs'.base == fs.base && fs'.zones == fs.zones
    && |fs'.zmap| == |fs.zmap|
    && (forall i :: 0 <= i < |fs.zmap| ==> (fs'.zmap[i] <==> fs.zmap[i] && !Belongs(fs, n, fs.base + i)))
  }

  lemma {:induction false} TruncatedAt(fs: Fs, fs': Fs, n: nat, t: Slot)
    requires Truncated(fs, fs', n) && ValidSlot(t)
    ensures At(fs', t) == if Owner(t) == n then 0 else At(fs, t)
    decreases t
  {
    if t.Child? {
      TruncatedAt(fs, fs', n, t.parent);
    }
  }

  /** After truncation the other files' zones are still theirs and still allocated, their contents
      are untouched, and the truncated file owns nothing. */
  lemma TruncateKeepsOthers(fs: Fs, fs': Fs, n: nat)
    requires Shaped(fs) && Owned(fs) && Truncated(fs, fs', n)
    ensures Shaped(fs') && Owned(fs')
    ensures forall m :: 0 <= m < |fs.inodes| && m != n ==> Contents(fs', m) == Contents(fs, m) && (NoHoles(fs, m) ==> NoHoles(fs', m))
    ensures Contents(fs', n) == [] && NoHoles(fs', n)
    ensures forall z :: !Belongs(fs', n, z)
    ensures forall m, z :: m != n ==> (Belongs(fs', m, z) <==> Belongs(fs, m, z))
  {
    forall t | ValidSlot(t)
      ensures At(fs', t) == if Owner(t) == n then 0 else At(fs, t)
    {
      TruncatedAt(fs, fs', n, t);
    }
    forall t | ValidSlot(t) && At(fs', t) != 0
      ensures Allocated(fs', At(fs', t))
    {
      StaysAllocated(fs, fs', n, t);
    }
    forall m | 0 <= m < |fs.inodes| && m != n
      ensures Contents(fs', m) == Contents(fs, m)
    {
      forall x | 0 <= x < fs.inodes[m].size
        ensures ByteOf(fs', m, x) == ByteOf(fs, m, x)
      {}
    }
    forall m, b | m != n
      ensures HasBlock(fs', m, b) == HasBlock(fs, m, b)
    {}
    forall t | ValidSlot(t) && At(fs, t) != 0
      ensures At(fs, t) != fs.base
    {}
    assert !Belongs(fs, n, fs.base + 0);
  }

  lemma StaysAllocated(fs: Fs, fs': Fs, n: nat, t: Slot)
    requires Shaped(fs) && Owned(fs) && Truncated(fs, fs', n)
    requires ValidSlot(t) && Owner(t) != n && At(fs, t) != 0
    ensures Allocated(fs', At(fs, t))
  {
    var z := At(fs, t);
    AtInDisk(fs, t);
    assert forall u :: ValidSlot(u) && At(fs, u) == z ==> u == t;
    assert fs.base + (z - fs.base) == z && !Belongs(fs, n, z);
  }

  /** Truncation frees every zone of the file and leaks none: with no leaks before, none after. */
  lemma TruncateLeaksNothing(fs: Fs, fs': Fs, n: nat)
    requires Shaped(fs) && Owned(fs) && NoLeaks(fs) && Truncated(fs, fs', n)
    ensures NoLeaks(fs')
  {
    forall z: nat | Allocated(fs', z)
      ensures exists s :: ValidSlot(s) && At(fs', s) == z
    {
      assert Allocated(fs, z);
      var s :| ValidSlot(s) && At(fs, s) == z;
      TruncatedAt(fs, fs', n, s);
      assert fs.base + (z - fs.base) == z;
      assert Owner(s) == n ==> Belongs(fs, n, z);
    }
  }

  /** inode_truncate as a function: what is neither a file nor a directory is left alone. */
  ghost function Truncate(fs: Fs, n: nat): (r: Fs)
    requires n < |fs.inodes|
    ensures FileOrDirectory(fs.inodes[n].mode) ==> Truncated(fs, r, n)
    ensures !FileOrDirectory(fs.inodes[n].mode) ==> r == fs
  {
    if !FileOrDirectory(fs.inodes[n].mode) then fs
    else Fs(fs.inodes[n := EmptyInode(fs.inodes[n])], fs.blocks,
            seq(|fs.zmap|, i requires 0 <= i < |fs.zmap| => fs.zmap[i] && !Belongs(fs, n, fs.base + i)), fs.base, fs.zones)
  }

  /** Only one state is the truncated one. */
  lemma TruncatedUnique(fs: Fs, a: Fs, b: Fs, n: nat)
    requires Truncated(fs, a, n) && Truncated(fs, b, n)
    ensures a == b
  {
    assert a.zmap == b.zmap;
  }

  /** Truncation empties file n, keeps every other file, and keeps the volume sound. */
  lemma TruncateSound(fs: Fs, n: nat)
    requires Sound(fs) && n < |fs.inodes| && FileOrDirectory(fs.inodes[n].mode)
    ensures var fs' := Truncate(fs, n);
      && Sound(fs') && |fs'.inodes| == |fs.inodes| && Contents(fs', n) == []
      && (forall m :: 0 <= m < |fs.inodes| && m != n ==> Contents(fs', m) == Contents(fs, m))
      && (forall m :: 0 <= m < |fs.inodes| ==> fs'.inodes[m].mode == fs.inodes[m].mode)
  {
    TruncateKeepsOthers(fs, Truncate(fs, n), n);
    hide Contents, NoHoles, Belongs, Shaped, Owned;
  }
}
