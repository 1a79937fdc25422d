/** The bitmap of kernel/bitmap.c: a byte array read as a sequence of bits,
    searched first-fit for a run of clear bits.

    The specification side works on `seq<bool>`; the class keeps the bytes. */
module Bitmaps {
  import opened Basics

  const EOF: int := -1

  // ---------------------------------------------------------------- bits of a byte

  function BitMask(k: nat): bv8
    requires k < 8
  {
    1 << k
  }

  predicate ByteBit(x: bv8, k: nat)
    requires k < 8
  {
    x & BitMask(k) != 0
  }

  /** The byte after its bit k was set to `value`. */
  function ByteSet(x: bv8, k: nat, value: bool): bv8
    requires k < 8
  {
    if value then x | BitMask(k) else x & !BitMask(k)
  }

  lemma ByteSetBit(x: bv8, k: nat, value: bool, j: nat)
    requires k < 8 && j < 8
    ensures ByteBit(ByteSet(x, k, value), j) == if j == k then value else ByteBit(x, j)
  {
    BitMaskCases(k);
    BitMaskCases(j);
  }

  lemma BitMaskCases(k: nat)
    requires k < 8
    ensures BitMask(k) == [1, 2, 4, 8, 16, 32, 64, 128][k]
  {
    assert k == 0 || k == 1 || k == 2 || k == 3 || k == 4 || k == 5 || k == 6 || k == 7;
  }

  /** The bits of a byte array, lowest bit of byte 0 first. */
  function Bits(bytes: seq<bv8>): (s: seq<bool>)
    ensures |s| == 8 * |bytes|
    ensures forall i :: 0 <= i < |s| ==> s[i] == ByteBit(bytes[i / 8], i % 8)
  {
    seq(8 * |bytes|, i requires 0 <= i < 8 * |bytes| => ByteBit(bytes[i / 8], i % 8))
  }

  /** Bit i of the map is bit i % 8 of byte i / 8, counted from the lowest. */
  lemma BitsInMemory(bytes: seq<bv8>, i: nat)
    requires i < 8 * |bytes|
    ensures Bits(bytes)[i] <==> (bytes[i / 8] >> (i % 8)) & 1 == 1
  {
    ByteBitShift(bytes[i / 8], i % 8);
  }

  lemma ByteBitShift(x: bv8, k: nat)
    requires k < 8
    ensures ByteBit(x, k) <==> (x >> k) & 1 == 1
  {
    BitMaskCases(k);
    assert k == 0 || k == 1 || k == 2 || k == 3 || k == 4 || k == 5 || k == 6 || k == 7;
  }

  lemma BitsOfUpdate(bytes: seq<bv8>, i: nat, value: bool)
    requires i < 8 * |bytes|
    ensures Bits(bytes[i / 8 := ByteSet(bytes[i / 8], i % 8, value)]) == Bits(bytes)[i := value]
  {
    hide ByteSet, ByteBit, BitMask;
    var after := bytes[i / 8 := ByteSet(bytes[i / 8], i % 8, value)];
    forall j | 0 <= j < 8 * |bytes|
      ensures Bits(after)[j] == Bits(bytes)[i := value][j]
    {
      if j / 8 == i / 8 {
        ByteSetBit(bytes[i / 8], i % 8, value, j % 8);
      }
    }
  }

  // ---------------------------------------------------------------- runs of bits

  /** The `count` bits from `start` on lie in the map and are clear. */
  ghost predicate ClearRun(s: seq<bool>, start: int, count: nat) {
    0 <= start && start + count <= |s| && forall i :: start <= i < start + count ==> !s[i]
  }

  ghost predicate HasClearRun(s: seq<bool>, count: nat) {
    exists start :: ClearRun(s, start, count)
  }

  /** `start` begins the lowest run of `count` clear bits. */
  ghost predicate FirstFit(s: seq<bool>, count: nat, start: int) {
    ClearRun(s, start, count) && forall t :: t < start ==> !ClearRun(s, t, count)
  }

  /** The lowest run of `count` clear bits from `from` on. */
  ghost function FindRun(s: seq<bool>, count: nat, from: nat): (r: Option<nat>)
    ensures r.Some? ==> from <= r.value && ClearRun(s, r.value, count)
    ensures forall t :: from <= t && (r.Some? ==> t < r.value) ==> !ClearRun(s, t, count)
    decreases |s| - from
  {
    if from + count > |s| then None
    else if ClearRun(s, from, count) then Some(from)
    else if from == |s| then None
    else FindRun(s, count, from + 1)
  }

  lemma FindRunIsFirstFit(s: seq<bool>, count: nat)
    ensures FindRun(s, count, 0).None? <==> !HasClearRun(s, count)
    ensures forall t: int :: FirstFit(s, count, t) ==> t >= 0 && FindRun(s, count, 0) == Some(t)
    ensures FindRun(s, count, 0).Some? ==> FirstFit(s, count, FindRun(s, count, 0).value)
  {
    var r := FindRun(s, count, 0);
    if t: int :| ClearRun(s, t, count) {
      assert 0 <= t;
    }
    if r.Some? {
      assert FirstFit(s, count, r.value);
      forall t: int | FirstFit(s, count, t)
        ensures t == r.value
      {
        FirstFitUnique(s, count, t, r.value);
      }
    }
  }

  function FillRun(s: seq<bool>, start: nat, count: nat, v: bool): (r: seq<bool>)
    requires start + count <= |s|
    ensures |r| == |s|
    ensures forall i :: 0 <= i < |s| ==> r[i] == if start <= i < start + count then v else s[i]
  {
    seq(|s|, i requires 0 <= i < |s| => if start <= i < start + count then v else s[i])
  }

  /** First fit names one run only. */
  lemma FirstFitUnique(s: seq<bool>, count: nat, a: int, b: int)
    requires FirstFit(s, count, a) && FirstFit(s, count, b)
    ensures a == b
  {
    assert a < b ==> !ClearRun(s, a, count);
    assert b < a ==> !ClearRun(s, b, count);
  }

  /** Resetting a run that a scan marked restores the map. */
  lemma ScanThenReset(s: seq<bool>, start: nat, count: nat)
    requires ClearRun(s, start, count)
    ensures FillRun(FillRun(s, start, count, true), start, count, false) == s
  {
    var r := FillRun(FillRun(s, start, count, true), start, count, false);
    assert forall i :: 0 <= i < |s| ==> r[i] == s[i];
  }

  /** Two runs that were both free when they were taken, one after the other, are disjoint. */
  lemma ScannedRunsDisjoint(s: seq<bool>, a: nat, m: nat, b: nat, n: nat)
    requires ClearRun(s, a, m) && ClearRun(FillRun(s, a, m, true), b, n) && m > 0 && n > 0
    ensures a + m <= b || b + n <= a
  {
    var taken := FillRun(s, a, m, true);
    assert taken[a];
    assert a <= b < a + m <==> taken[b];
  }

  // ---------------------------------------------------------------- the bitmap_t object

  class Bitmap {
    const bits: array<bv8>
    const offset: nat

    constructor (bits: array<bv8>, offset: nat)
      ensures this.bits == bits && this.offset == offset
    {
      this.bits := bits;
      this.offset := offset;
    }

    /** The abstract value: one boolean per bit. */
    ghost function View(): (s: seq<bool>)
      reads bits
      ensures |s| == 8 * bits.Length
    {
      Bits(bits[..])
    }

    predicate InRange(index: int) {
      offset <= index < offset + 8 * bits.Length
    }

    /** bitmap_test; the C assertions are the precondition. */
    predicate Test(index: int): (r: bool)
      requires InRange(index)
      reads bits
      ensures r == View()[index - offset]
    {
      var idx := index - offset;
      bits[idx / 8] & BitMask(idx % 8) != 0
    }

    /** bitmap_set */
    method Set(index: int, value: bool)
      requires InRange(index)
      modifies bits
      ensures View() == old(View())[index - offset := value]
    {
      var idx := index - offset;
      var b, k := idx / 8, idx % 8;
      var byte := if value then bits[b] | BitMask(k) else bits[b] & !BitMask(k);
      assert byte == ByteSet(bits[b], k, value);
      hide ByteSet, ByteBit, BitMask, Bits;
      BitsOfUpdate(bits[..], idx, value);
      ghost var was := bits[..];
      bits[b] := byte;
      assert bits[..] == was[b := byte];
    }

    /** bitmap_scan: exact first fit for count > 0.  For count == 0 the counter test fires at the
        first set bit, so the result points just past it and nothing is marked. */
    method Scan(count: nat) returns (r: int)
      modifies bits
      ensures count > 0 ==> (r == EOF <==> !HasClearRun(old(View()), count))
      ensures r == EOF ==> View() == old(View())
      ensures r != EOF ==> offset <= r && r - offset + count <= |View()|
      ensures count > 0 && r != EOF ==> FirstFit(old(View()), count, r - offset)
      ensures r != EOF ==> View() == FillRun(old(View()), r - offset, count, true)
      ensures count == 0 && r == EOF ==> forall i :: 0 <= i < |View()| ==> !old(View())[i]
      ensures count == 0 && r != EOF ==> offset < r && old(View())[r - offset - 1]
      ensures count == 0 && r != EOF ==> forall i :: 0 <= i < r - offset - 1 ==> !old(View())[i]
    {
      hide Bits, View, FillRun;
      ghost var s := View();
      var start := EOF;
      var bitsLeft := bits.Length * 8;
      var nextBit := 0;
      var counter := 0;
      while bitsLeft > 0
        invariant 0 <= bitsLeft && nextBit + bitsLeft == |s|
        invariant start == EOF && View() == s
        invariant 0 <= counter <= nextBit && (count > 0 ==> counter < count)
        invariant forall i :: nextBit - counter <= i < nextBit ==> !s[i]
        invariant counter < nextBit ==> s[nextBit - counter - 1]
        invariant count > 0 ==> forall t :: t + count <= nextBit ==> !ClearRun(s, t, count)
        invariant count == 0 ==> counter == nextBit
      {
        bitsLeft := bitsLeft - 1;
        if !Test(offset + nextBit) {
          counter := counter + 1;
        } else {
          counter := 0;
        }
        nextBit := nextBit + 1;
        if counter == count {
          start := nextBit - count;
          break;
        }
        forall t | count > 0 && t + count <= nextBit
          ensures !ClearRun(s, t, count)
        {
          if t + count == nextBit && 0 <= t {
            assert t <= nextBit - counter - 1 < t + count;
          }
        }
      }
      if start == EOF {
        return EOF;
      }
      assert ClearRun(s, start, count);
      ghost var s1 := s;
      bitsLeft := counter;
      nextBit := start;
      while bitsLeft > 0
        invariant 0 <= bitsLeft && nextBit + bitsLeft == start + count
        invariant View() == FillRun(s, start, nextBit - start, true)
      {
        bitsLeft := bitsLeft - 1;
        Set(offset + nextBit, true);
        nextBit := nextBit + 1;
      }
      return start + offset;
    }
  }

  // ---------------------------------------------------------------- kernel pages

  const PAGE_SIZE := 0x1000

  /** alloc_kpage over scan_page: the address of `count` consecutive pages, or None where the kernel
      panics because no such run is free. */
  method AllocKPage(pages: Bitmap, count: nat) returns (page: int)
    requires count > 0
    modifies pages.bits
    ensures page == EOF <==> !HasClearRun(old(pages.View()), count)
    ensures page == EOF ==> pages.View() == old(pages.View())
    ensures page != EOF ==> pages.offset <= page && FirstFit(old(pages.View()), count, page - pages.offset)
    ensures page != EOF ==> pages.View() == FillRun(old(pages.View()), page - pages.offset, count, true)
  {
    page := pages.Scan(count);
  }

  /** reset_page: clears a run, each bit asserted set first. */
  method FreeKPage(pages: Bitmap, page: int, count: nat)
    requires count > 0
    requires pages.offset <= page && page - pages.offset + count <= |pages.View()|
    requires forall i :: page <= i < page + count ==> pages.Test(i)
    modifies pages.bits
    ensures pages.View() == FillRun(old(pages.View()), page - pages.offset, count, false)
  {
    ghost var s := pages.View();
    var i := 0;
    while i < count
      invariant 0 <= i <= count
      invariant pages.View() == FillRun(s, page - pages.offset, i, false)
    {
      assert s[page + i - pages.offset] by { assert old(pages.Test(page + i)); }
      assert pages.Test(page + i);
      pages.Set(page + i, false);
      i := i + 1;
    }
  }
}
