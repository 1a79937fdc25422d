/** Lazy block mapping (bmap with create) never lets two paths share a zone. */
module FileOwnership {
  import opened Basics
  import opened FileTree

  /** The slot can be written: its inode exists, or its index block is there. */
  predicate Present(fs: Fs, s: Slot) {
    match s
    case Root(n, k) => n < |fs.inodes|
    case Child(p, _) => At(fs, p) != 0
  }

  lemma AtInDisk(fs: Fs, s: Slot)
    requires Shaped(fs) && Owned(fs) && ValidSlot(s) && At(fs, s) != 0
    ensures fs.base < At(fs, s) < fs.zones && At(fs, s) < |fs.blocks| && Allocated(fs, At(fs, s))
  {}

  /** Storing a free, blank zone in an empty slot changes what that slot holds and no other slot. */
  lemma {:induction false} PutZoneAt(fs: Fs, s: Slot, z: nat, t: Slot)
    requires Shaped(fs) && Owned(fs) && ValidSlot(s) && ValidSlot(t) && At(fs, s) == 0 && Present(fs, s)
    requires fs.base < z < fs.zones && !Allocated(fs, z)
    requires Level(s) > 0 ==> NoIndex(fs.blocks[z])
    ensures At(PutZone(fs, s, z), t) == if t == s then z else At(fs, t)
  {
    if t.Child? {
      var q := t.parent;
      PutZoneAt(fs, s, z, q);
      if s.Child? {
        AtInDisk(fs, s.parent);
      }
      if At(fs, q) != 0 {
        AtInDisk(fs, q);
      }
      assert q == s ==> At(fs, t) == 0;
      hide Level, ValidSlot, Allocated;
    }
  }

  lemma PutZoneShaped(fs: Fs, s: Slot, z: nat)
    requires Shaped(fs) && fs.base <= z < fs.zones
    ensures Shaped(PutZone(fs, s, z))
  {}

  lemma PutZoneOwned(fs: Fs, s: Slot, z: nat)
    requires Shaped(fs) && Owned(fs) && ValidSlot(s) && At(fs, s) == 0 && Present(fs, s)
    requires fs.base < z < fs.zones && !Allocated(fs, z)
    requires Level(s) > 0 ==> NoIndex(fs.blocks[z])
    ensures Owned(PutZone(fs, s, z))
  {
    hide At, Level;
    var fs' := PutZone(fs, s, z);
    forall t | ValidSlot(t)
      ensures At(fs', t) == if t == s then z else At(fs, t)
    {
      PutZoneAt(fs, s, z, t);
    }
  }

  /** The zone balloc returns is the lowest free one: bit 0 is set, so it is never the zone below the first. */
  lemma BallocIsFree(fs: Fs, z: nat)
    requires Shaped(fs) && Balloc(fs) == Some(z)
    ensures fs.base < z < fs.zones && !Allocated(fs, z)
    ensures forall y :: fs.base < y < z ==> Allocated(fs, y)
  {
    forall y | fs.base < y < z
      ensures Allocated(fs, y)
    {
      assert fs.zmap[y - fs.base];
    }
  }

  /** One round of bmap with create. */
  lemma EnsureKeeps(fs: Fs, fs': Fs, s: Slot)
    requires Wf(fs) && ValidSlot(s) && Present(fs, s) && CleanTurn(fs, s) && Ensure(fs, s) == Some(fs')
    ensures Wf(fs') && At(fs', s) != 0
    ensures forall t :: ValidSlot(t) && t != s ==> At(fs', t) == At(fs, t)
    ensures At(fs, s) != 0 ==> fs' == fs
    ensures Kept(fs, fs')
  {
    LevelBound(s);
    if At(fs, s) == 0 {
      var z := Balloc(fs).value;
      BallocIsFree(fs, z);
      PutZoneShaped(fs, s, z);
      PutZoneOwned(fs, s, z);
      PutZoneKeeps(fs, s, z);
      forall t | ValidSlot(t)
        ensures At(fs', t) == if t == s then z else At(fs, t)
      {
        PutZoneAt(fs, s, z, t);
      }
    }
  }

  /** Allocation leaves modes, sizes and the contents of every data zone alone. */
  ghost predicate Kept(fs: Fs, fs': Fs) {
    && |fs'.inodes| == |fs.inodes| && |fs'.blocks| == |fs.blocks| && fs'.base == fs.base && fs'.zones == fs.zones
    && |fs'.zmap| == |fs.zmap|
    && (forall n :: 0 <= n < |fs.inodes| ==> fs'.inodes[n].size == fs.inodes[n].size && fs'.inodes[n].mode == fs.inodes[n].mode)
    && (forall t :: ValidSlot(t) && Level(t) == 0 && At(fs, t) != 0 ==>
          At(fs, t) < |fs.blocks| && fs'.blocks[At(fs, t)] == fs.blocks[At(fs, t)])
    && (forall z :: Allocated(fs, z) ==> Allocated(fs', z))
  }

  /** A data zone is never the index block that holds some slot. */
  lemma DataIsNotIndex(fs: Fs, s: Slot, t: Slot)
    requires Owned(fs) && ValidSlot(s) && s.Child? && ValidSlot(t) && Level(t) == 0 && At(fs, t) != 0
    ensures At(fs, s.parent) != At(fs, t)
  {
    assert ValidSlot(s.parent) && s.parent != t;
  }

  lemma PutZoneKeepsBlock(fs: Fs, s: Slot, z: nat, t: Slot)
    requires Shaped(fs) && Owned(fs) && ValidSlot(s) && fs.base <= z < fs.zones
    requires ValidSlot(t) && Level(t) == 0 && At(fs, t) != 0
    ensures At(fs, t) < |fs.blocks| && PutZone(fs, s, z).blocks[At(fs, t)] == fs.blocks[At(fs, t)]
  {
    AtInDisk(fs, t);
    if s.Child? {
      DataIsNotIndex(fs, s, t);
    }
  }

  lemma PutZoneKeeps(fs: Fs, s: Slot, z: nat)
    requires Shaped(fs) && Owned(fs) && ValidSlot(s) && fs.base <= z < fs.zones
    ensures Kept(fs, PutZone(fs, s, z))
  {
    forall t | ValidSlot(t) && Level(t) == 0 && At(fs, t) != 0
      ensures At(fs, t) < |fs.blocks| && PutZone(fs, s, z).blocks[At(fs, t)] == fs.blocks[At(fs, t)]
    {
      PutZoneKeepsBlock(fs, s, z, t);
    }
  }

  /** bmap with create: it maps the block, keeps every other mapping of every file, and keeps the
      ownership invariant, whatever bytes the free zones hold that it does not take for index blocks. */
  lemma {:induction false} EnsurePathKeeps(fs: Fs, fs': Fs, s: Slot)
    requires Wf(fs) && ValidSlot(s) && Owner(s) < |fs.inodes| && CleanPath(fs, s) && EnsurePath(fs, s) == Some(fs')
    ensures Wf(fs') && At(fs', s) != 0
    ensures forall t :: ValidSlot(t) && At(fs, t) != 0 ==> At(fs', t) == At(fs, t)
    ensures forall t :: ValidSlot(t) && Level(t) == 0 && t != s ==> At(fs', t) == At(fs, t)
    ensures Kept(fs, fs')
    decreases s
  {
    if s.Root? {
      EnsureKeeps(fs, fs', s);
    } else {
      var fs1 := EnsurePath(fs, s.parent).value;
      EnsurePathKeeps(fs, fs1, s.parent);
      EnsureKeeps(fs1, fs', s);
    }
  }

  // ---------------------------------------------------------------- disks whose free zones are blank

  lemma PutZoneBlank(fs: Fs, s: Slot, z: nat)
    requires Wf(fs) && FreeBlank(fs) && ValidSlot(s) && At(fs, s) == 0 && Present(fs, s)
    requires fs.base < z < fs.zones && !Allocated(fs, z)
    ensures FreeBlank(PutZone(fs, s, z))
  {
    if s.Child? {
      AtInDisk(fs, s.parent);
    }
  }

  /** While the free zones are blank every allocation is clean. */
  lemma BlankTurn(fs: Fs, fs': Fs, s: Slot)
    requires Wf(fs) && FreeBlank(fs) && ValidSlot(s) && Present(fs, s) && Ensure(fs, s) == Some(fs')
    ensures CleanTurn(fs, s) && FreeBlank(fs')
  {
    if At(fs, s) == 0 {
      var z := Balloc(fs).value;
      BallocIsFree(fs, z);
      BlankHasNoIndex(fs.blocks[z]);
      PutZoneBlank(fs, s, z);
    }
  }

  lemma {:induction false} BlankPath(fs: Fs, s: Slot)
    requires Wf(fs) && FreeBlank(fs) && ValidSlot(s) && Owner(s) < |fs.inodes|
    ensures CleanPath(fs, s)
    ensures EnsurePath(fs, s).Some? ==> FreeBlank(EnsurePath(fs, s).value)
    decreases s
  {
    if s.Root? {
      BlankTurnHalts(fs, s);
    } else {
      BlankPath(fs, s.parent);
      if EnsurePath(fs, s.parent).Some? {
        var fs1 := EnsurePath(fs, s.parent).value;
        EnsurePathKeeps(fs, fs1, s.parent);
        BlankTurnHalts(fs1, s);
      }
    }
  }

  lemma BlankTurnHalts(fs: Fs, s: Slot)
    requires Wf(fs) && FreeBlank(fs) && ValidSlot(s) && Present(fs, s)
    ensures CleanTurn(fs, s)
    ensures Ensure(fs, s).Some? ==> FreeBlank(Ensure(fs, s).value)
  {
    if Balloc(fs).Some? {
      BallocIsFree(fs, Balloc(fs).value);
    }
    if Ensure(fs, s).Some? {
      BlankTurn(fs, Ensure(fs, s).value, s);
    }
  }
}
