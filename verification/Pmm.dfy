// The physical frame allocator: one bit for each 4 KiB frame.
module Pmm {
  import opened Words

  const MAX_FRAMES := 0x10_0000
  const BITMAP_SIZE := 0x2_0000
  // Frames below one megabyte are never handed out at start-up.
  const FIRST_FREE := 256

  // Rounds up to whole pages in 64-bit arithmetic.
  function AlignUp(n: nat): nat {
    (n + 4095) % WORD_LIMIT / 4096 * 4096
  }

  lemma AlignUpIs(n: nat)
    ensures AlignUp(n) % 4096 == 0
    ensures n + 4095 < WORD_LIMIT ==> n <= AlignUp(n) < n + 4096
    ensures WORD_LIMIT - 4096 < n < WORD_LIMIT ==> AlignUp(n) == 0
  {
  }

  function BitMask(k: nat): bv8
    requires k < 8
  {
    (1 as bv8) << k
  }

  lemma SetAndClear(b: bv8, j: nat, k: nat)
    requires j < 8 && k < 8
    ensures (b | BitMask(j)) & BitMask(k) != 0 <==> j == k || b & BitMask(k) != 0
    ensures (b & !BitMask(j)) & BitMask(k) != 0 <==> j != k && b & BitMask(k) != 0
  {
    Powers(j);
    Powers(k);
  }

  lemma Position(f: nat, g: nat)
    ensures f == g <==> f / 8 == g / 8 && f % 8 == g % 8
  {
  }

  lemma FullByte(k: nat)
    requires k < 8
    ensures 0xFF & BitMask(k) != 0
  {
    Powers(k);
  }

  lemma Powers(k: nat)
    requires k < 8
    ensures BitMask(k) == [1, 2, 4, 8, 16, 32, 64, 128][k]
  {
    assert k == 0 || k == 1 || k == 2 || k == 3 || k == 4 || k == 5 || k == 6 || k == 7;
  }

  predicate Between(f: nat, lo: nat, hi: nat) {
    lo <= f < hi
  }

  function Range(lo: nat, hi: nat): set<nat> {
    set f: nat | f < hi && Between(f, lo, hi)
  }

  lemma RangeStep(lo: nat, hi: nat)
    requires lo <= hi
    ensures Range(lo, hi + 1) == Range(lo, hi) + {hi}
    ensures Range(lo, lo) == {}
  {
  }

  lemma RangeEnds(lo: nat, end: nat, hi: nat)
    requires end == hi || end == lo >= hi
    ensures Range(lo, end) == Range(lo, hi)
  {
  }

  lemma RangeMinusNone(s: set<nat>, lo: nat)
    ensures s - Range(lo, lo) == s
  {
    RangeStep(lo, lo);
  }

  lemma RangeMinus(s: set<nat>, t: set<nat>, lo: nat, hi: nat)
    requires lo <= hi && t == s - Range(lo, hi)
    ensures t - {hi} == s - Range(lo, hi + 1)
  {
    hide Range;
    RangeStep(lo, hi);
  }

  class FrameAllocator {
    const bitmap: array<bv8>
    var totalFrames: nat
    var freeFrames: nat

    constructor ()
      ensures bitmap.Length == BITMAP_SIZE && fresh(bitmap)
    {
      bitmap := new bv8[BITMAP_SIZE];
    }

    predicate Test(f: nat)
      requires bitmap.Length == BITMAP_SIZE && f < MAX_FRAMES
      reads bitmap
    {
      bitmap[f / 8] & BitMask(f % 8) != 0
    }

    // The frames whose bit is clear.
    ghost function Free(): set<nat>
      requires bitmap.Length == BITMAP_SIZE
      reads bitmap
    {
      set f: nat | f < MAX_FRAMES && !Test(f)
    }

    // The free frames that exist.
    ghost function Usable(): set<nat>
      requires bitmap.Length == BITMAP_SIZE
      reads this, bitmap
    {
      set f | f in Free() && f < totalFrames
    }

    lemma FreeBound()
      requires bitmap.Length == BITMAP_SIZE
      ensures forall f :: f in Free() ==> f < MAX_FRAMES
    {
    }

    ghost predicate Valid()
      reads this, bitmap
    {
      bitmap.Length == BITMAP_SIZE && totalFrames <= MAX_FRAMES && freeFrames == |Free()|
    }

    method SetBit(f: nat)
      requires bitmap.Length == BITMAP_SIZE && f < MAX_FRAMES
      modifies bitmap
      ensures Free() == old(Free()) - {f}
    {
      hide BitMask;
      ghost var b := bitmap[f / 8];
      bitmap[f / 8] := bitmap[f / 8] | BitMask(f % 8);
      forall g: nat | g < MAX_FRAMES
        ensures Test(g) <==> g == f || old(Test(g))
      {
        Position(f, g);
        if g / 8 == f / 8 {
          SetAndClear(b, f % 8, g % 8);
        }
      }
    }

    method ClearBit(f: nat)
      requires bitmap.Length == BITMAP_SIZE && f < MAX_FRAMES
      modifies bitmap
      ensures Free() == old(Free()) + {f}
    {
      hide BitMask;
      ghost var b := bitmap[f / 8];
      bitmap[f / 8] := bitmap[f / 8] & !BitMask(f % 8);
      forall g: nat | g < MAX_FRAMES
        ensures Test(g) <==> g != f && old(Test(g))
      {
        Position(f, g);
        if g / 8 == f / 8 {
          SetAndClear(b, f % 8, g % 8);
        }
      }
    }

    method FillBitmap()
      requires bitmap.Length == BITMAP_SIZE
      modifies bitmap
      ensures forall f: nat :: f < MAX_FRAMES ==> Test(f)
    {
      hide BitMask;
      for i := 0 to BITMAP_SIZE
        invariant forall j :: 0 <= j < i ==> bitmap[j] == 0xFF
      {
        bitmap[i] := 0xFF;
      }
      forall f: nat | f < MAX_FRAMES
        ensures Test(f)
      {
        FullByte(f % 8);
      }
    }

    // Marks everything used, then frees what lies above the first megabyte.
    method Init(memUpperKb: nat)
      requires bitmap.Length == BITMAP_SIZE && memUpperKb < WORD_LIMIT
      modifies this, bitmap
      ensures Valid()
      ensures totalFrames == if memUpperKb * 1024 % WORD_LIMIT / 4096 > MAX_FRAMES then MAX_FRAMES
                             else memUpperKb * 1024 % WORD_LIMIT / 4096
      ensures Free() == Range(FIRST_FREE, totalFrames) && 4096 * FIRST_FREE == 0x10_0000
    {
      hide FrameAllocator.Test;
      totalFrames := memUpperKb * 1024 % WORD_LIMIT / 4096;
      if totalFrames > MAX_FRAMES {
        totalFrames := MAX_FRAMES;
      }
      FillBitmap();
      freeFrames := 0;
      assert Free() == {};
      var f := FIRST_FREE;
      while f < totalFrames
        invariant FIRST_FREE <= f && (f <= totalFrames || f == FIRST_FREE)
        invariant Free() == Range(FIRST_FREE, f) && freeFrames == |Free()|
        modifies this`freeFrames, bitmap
      {
        ghost var before := Free();
        ClearBit(f);
        freeFrames := freeFrames + 1;
        assert Free() == before + {f} && f !in before;
        f := f + 1;
      }
    }

    // Takes the frames that a byte range touches out of use.
    method Reserve(base: nat, len: nat)
      requires Valid() && base < WORD_LIMIT && len < WORD_LIMIT
      modifies this`freeFrames, bitmap
      ensures Valid()
      ensures var last := AlignUp((base + len) % WORD_LIMIT) / 4096;
              Free() == old(Free()) - Range(base / 4096, if last < totalFrames then last else totalFrames)
    {
      hide FrameAllocator.Test;
      var first := base / 4096;
      var last := AlignUp((base + len) % WORD_LIMIT) / 4096;
      ReserveFrames(first, last);
    }

    method ReserveFrames(first: nat, last: nat)
      requires Valid()
      modifies this`freeFrames, bitmap
      ensures Valid()
      ensures Free() == old(Free()) - Range(first, if last < totalFrames then last else totalFrames)
    {
      hide Range, FrameAllocator.Test, FrameAllocator.Free;
      var f := first;
      ghost var hi := if last < totalFrames then last else totalFrames;
      ghost var before := Free();
      RangeMinusNone(before, first);
      while f < last && f < totalFrames
        invariant f == first || first <= f <= hi
        invariant Valid() && Free() == before - Range(first, f)
        decreases totalFrames - f
        modifies this`freeFrames, bitmap
      {
        ghost var was := Free();
        Take(f);
        RangeMinus(before, was, first, f);
        f := f + 1;
      }
      RangeEnds(first, f, hi);
    }

    method Take(f: nat)
      requires Valid() && f < MAX_FRAMES
      modifies this`freeFrames, bitmap
      ensures Valid() && Free() == old(Free()) - {f}
    {
      hide FrameAllocator.Test;
      if !Test(f) {
        assert f in Free();
        SetBit(f);
        freeFrames := freeFrames - 1;
      }
    }

    // The lowest frame whose bit is clear; MAX_FRAMES when all are set.
    method Scan() returns (frame: nat)
      requires bitmap.Length == BITMAP_SIZE
      ensures frame <= MAX_FRAMES && forall f: nat :: f < frame ==> Test(f)
      ensures frame < MAX_FRAMES ==> !Test(frame)
    {
      hide BitMask;
      for i := 0 to BITMAP_SIZE
        invariant forall f: nat :: f < 8 * i ==> Test(f)
      {
        if bitmap[i] == 0xFF {
          forall f: nat | f < 8 * (i + 1)
            ensures Test(f)
          {
            if f >= 8 * i {
              FullByte(f % 8);
            }
          }
          continue;
        }
        for bit := 0 to 8
          invariant forall f: nat :: f < 8 * i + bit ==> Test(f)
        {
          frame := 8 * i + bit;
          assert frame / 8 == i && frame % 8 == bit;
          if bitmap[i] & BitMask(bit) == 0 {
            return;
          }
        }
      }
      frame := MAX_FRAMES;
    }

    // The physical address of the lowest free frame, or 0 when that frame does
    // not exist or lies past the end of memory.
    method Alloc() returns (r: nat)
      requires Valid()
      modifies this`freeFrames, bitmap
      ensures Valid()
      ensures (forall f :: f in old(Free()) ==> f >= totalFrames) ==> r == 0 && Free() == old(Free())
      ensures (exists f :: f in old(Free()) && f < totalFrames) ==>
        && r % 4096 == 0 && r / 4096 < totalFrames && r / 4096 in old(Free())
        && (forall g :: g in old(Free()) ==> r / 4096 <= g)
        && Free() == old(Free()) - {r / 4096}
    {
      hide FrameAllocator.Test;
      var frame := Scan();
      if frame >= totalFrames {
        return 0;
      }
      assert frame in Free();
      SetBit(frame);
      freeFrames := freeFrames - 1;
      r := frame * 4096;
    }

    // Gives a frame back; freeing a free frame does nothing.
    method Release(frame: nat)
      requires Valid() && frame / 4096 < MAX_FRAMES
      modifies this`freeFrames, bitmap
      ensures Valid()
      ensures Free() == old(Free()) + {frame / 4096}
    {
      hide FrameAllocator.Test;
      var f := frame / 4096;
      if !Test(f) {
        return;
      }
      ClearBit(f);
      freeFrames := freeFrames + 1;
    }
  }
}
