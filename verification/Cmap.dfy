// Glyph lookup in a font's character map, format 4: binary search of segments.
module Cmap {
  import opened Bits

  // Big-endian numbers; bytes past the end of the data read as zero.
  function U16(data: seq<Byte>, at: nat): (r: nat)
    ensures r < 0x1_0000
  {
    256 * ByteAt(data, at) + ByteAt(data, at + 1)
  }

  function S16(data: seq<Byte>, at: nat): int {
    if U16(data, at) >= 0x8000 then U16(data, at) - 0x1_0000 else U16(data, at)
  }

  // The end of segment `i` in the subtable at `base`.
  function EndOf(data: seq<Byte>, base: nat, i: nat): nat {
    U16(data, base + 14 + 2 * i)
  }

  // The first segment from `i` on that ends at or above the character.
  function Scan(data: seq<Byte>, base: nat, n: nat, cp: int, i: nat): (r: nat)
    requires i <= n
    ensures i <= r <= n
    ensures r < n ==> EndOf(data, base, r) >= cp
    ensures forall k :: i <= k < r ==> EndOf(data, base, k) < cp
    decreases n - i
  {
    if i == n || EndOf(data, base, i) >= cp then i else Scan(data, base, n, cp, i + 1)
  }

  function FirstAtLeast(data: seq<Byte>, base: nat, n: nat, cp: int): (r: nat)
    ensures r <= n
    ensures r < n ==> EndOf(data, base, r) >= cp
    ensures forall k :: 0 <= k < r ==> EndOf(data, base, k) < cp
  {
    Scan(data, base, n, cp, 0)
  }

  // The format's conditions on the header fields and the segment ends.
  ghost predicate WellFormed(data: seq<Byte>, base: nat) {
    var n, e := U16(data, base + 6) / 2, U16(data, base + 10);
    && n >= 1
    && Pow2(e) <= n < 2 * Pow2(e)
    && U16(data, base + 8) / 2 == Pow2(e)
    && U16(data, base + 12) / 2 == n - Pow2(e)
    && (forall i, j {:trigger EndOf(data, base, i), EndOf(data, base, j)} ::
          0 <= i < j < n ==> EndOf(data, base, i) < EndOf(data, base, j))
    && EndOf(data, base, n - 1) == 0xFFFF
  }

  // Whether segment `i` covers the character.
  predicate Covers(data: seq<Byte>, base: nat, cp: int, i: nat) {
    var n := U16(data, base + 6) / 2;
    i < n && U16(data, base + 14 + 2 * n + 2 + 2 * i) <= cp <= 0xFFFF
  }

  function Delta(data: seq<Byte>, base: nat, i: nat): int {
    S16(data, base + 14 + 4 * (U16(data, base + 6) / 2) + 2 + 2 * i)
  }

  function RangeOffset(data: seq<Byte>, base: nat, i: nat): nat {
    U16(data, base + 14 + 6 * (U16(data, base + 6) / 2) + 2 + 2 * i)
  }

  // The number that the offset of segment `i` leads to.
  function Listed(data: seq<Byte>, base: nat, cp: int, i: nat): nat
    requires Covers(data, base, cp, i)
  {
    var n := U16(data, base + 6) / 2;
    var start := U16(data, base + 14 + 2 * n + 2 + 2 * i);
    U16(data, RangeOffset(data, base, i) + 2 * (cp - start) + base + 14 + 6 * n + 2 + 2 * i)
  }

  function SegmentOf(data: seq<Byte>, base: nat, cp: int): (i: nat)
    ensures i <= U16(data, base + 6) / 2
  {
    FirstAtLeast(data, base, U16(data, base + 6) / 2, cp)
  }

  // The glyph of a character, as the 'cmap' Format 4 subtable of the OpenType
  // specification defines it: the delta also shifts numbers that are listed.
  function Glyph(data: seq<Byte>, base: nat, cp: int): nat {
    var i := SegmentOf(data, base, cp);
    if !Covers(data, base, cp, i) then 0
    else if RangeOffset(data, base, i) == 0 then (cp + Delta(data, base, i)) % 0x1_0000
    else if Listed(data, base, cp, i) == 0 then 0
    else (Listed(data, base, cp, i) + Delta(data, base, i)) % 0x1_0000
  }

  // A listed glyph whose segment has a delta.
  predicate IsShifted(data: seq<Byte>, base: nat, cp: int) {
    var i := SegmentOf(data, base, cp);
    && Covers(data, base, cp, i) && RangeOffset(data, base, i) != 0
    && Delta(data, base, i) != 0 && Listed(data, base, cp, i) != 0
  }

  // Without a range offset the glyph is the character plus the delta field, modulo
  // 2^16; so consecutive characters of a segment have consecutive glyphs.
  lemma DeltaIsAdded(data: seq<Byte>, base: nat, cp: int)
    requires var i := SegmentOf(data, base, cp); Covers(data, base, cp, i) && RangeOffset(data, base, i) == 0
    ensures var at := base + 16 + 4 * (U16(data, base + 6) / 2) + 2 * SegmentOf(data, base, cp);
            Glyph(data, base, cp) == (cp + U16(data, at)) % 0x1_0000
  {
    hide U16, FirstAtLeast;
  }

  lemma ShiftMoves(glyph: nat, delta: int)
    requires glyph < 0x1_0000 && -0x8000 <= delta < 0x8000
    ensures (glyph + delta) % 0x1_0000 == glyph <==> delta == 0
  {
  }

  // The biased search for the first segment that ends at or above the character.
  method Search(data: seq<Byte>, base: nat, cp: int) returns (item: nat)
    requires WellFormed(data, base) && cp <= 0xFFFF
    ensures item < U16(data, base + 6) / 2
    ensures item == FirstAtLeast(data, base, U16(data, base + 6) / 2, cp)
  {
    hide U16;
    ghost var n := U16(data, base + 6) / 2;
    ghost var first := FirstAtLeast(data, base, n, cp);
    assert first < n by {
      assert EndOf(data, base, n - 1) >= cp;
    }
    var searchRange := U16(data, base + 8) / 2;
    var entrySelector := U16(data, base + 10);
    var rangeShift := U16(data, base + 12) / 2;
    // In segments, one below the place looked for.
    var search: int := 0;
    if cp >= EndOf(data, base, rangeShift) {
      search := search + rangeShift;
    }
    search := search - 1;
    Bracket(data, base, n, cp, rangeShift, Pow2(entrySelector));
    while entrySelector > 0
      invariant search < first <= search + searchRange && searchRange == Pow2(entrySelector)
      invariant -1 <= search && search + searchRange < n
      decreases entrySelector
    {
      searchRange := searchRange / 2;
      var end := EndOf(data, base, search + searchRange);
      Narrow(data, base, n, cp, search + searchRange);
      if cp > end {
        search := search + searchRange;
      }
      entrySelector := entrySelector - 1;
    }
    item := search + 1;
  }

  // The first half of the table or its overlapping second half has the place.
  lemma Bracket(data: seq<Byte>, base: nat, n: nat, cp: int, shift: nat, range: nat)
    requires WellFormed(data, base) && n == U16(data, base + 6) / 2 && shift + range == n && shift < range
    requires cp <= 0xFFFF
    ensures var first := FirstAtLeast(data, base, n, cp);
            if cp >= EndOf(data, base, shift) then shift <= first < n else first < range
  {
    hide U16;
    var first := FirstAtLeast(data, base, n, cp);
    assert EndOf(data, base, n - 1) >= cp;
    assert first < shift ==> EndOf(data, base, first) < EndOf(data, base, shift);
  }

  // Looking at one segment rules out those on one side of it.
  lemma Narrow(data: seq<Byte>, base: nat, n: nat, cp: int, at: nat)
    requires WellFormed(data, base) && n == U16(data, base + 6) / 2 && at < n && cp <= 0xFFFF
    ensures FirstAtLeast(data, base, n, cp) <= at <==> cp <= EndOf(data, base, at)
  {
    hide U16;
    var first := FirstAtLeast(data, base, n, cp);
    assert EndOf(data, base, n - 1) >= cp;
    assert first < at ==> EndOf(data, base, first) < EndOf(data, base, at);
  }

  // The glyph by binary search: the right one exactly for characters whose glyph
  // is not listed or not shifted.
  method FindGlyph(data: seq<Byte>, base: nat, cp: int) returns (glyph: nat)
    requires WellFormed(data, base)
    ensures glyph == Glyph(data, base, cp) <==> !IsShifted(data, base, cp)
    ensures IsShifted(data, base, cp) ==> glyph == Listed(data, base, cp, SegmentOf(data, base, cp))
  {
    hide U16, WellFormed, FirstAtLeast;
    var n := U16(data, base + 6) / 2;
    if cp > 0xFFFF {
      return 0;
    }
    var item := Search(data, base, cp);
    var start, last := U16(data, base + 14 + 2 * n + 2 + 2 * item), EndOf(data, base, item);
    if cp < start || cp > last {
      return 0;
    }
    assert Covers(data, base, cp, item);
    var offset := U16(data, base + 14 + 6 * n + 2 + 2 * item);
    if offset == 0 {
      return (cp + S16(data, base + 14 + 4 * n + 2 + 2 * item)) % 0x1_0000;
    }
    glyph := U16(data, offset + 2 * (cp - start) + base + 14 + 6 * n + 2 + 2 * item);
    ShiftMoves(glyph, Delta(data, base, item));
  }

  // One segment for all characters, with delta 1 and the number 5 listed for
  // the first of them.
  const SHIFTED: seq<Byte> := [0, 4, 0, 0, 0, 0, 0, 2, 0, 2, 0, 0, 0, 0, 255, 255, 0, 0, 0, 0, 0, 1, 0, 2, 0, 5]

  // Its glyph is 6, and 5 is found.
  method ShiftIsLost() returns (glyph: nat)
    ensures WellFormed(SHIFTED, 0) && Glyph(SHIFTED, 0, 0) == 6
    ensures glyph == 5
  {
    ShiftedFields();
    hide U16, FirstAtLeast;
    glyph := FindGlyph(SHIFTED, 0, 0);
  }

  lemma ShiftedFields()
    ensures U16(SHIFTED, 6) == 2 && U16(SHIFTED, 8) == 2 && U16(SHIFTED, 10) == 0 && U16(SHIFTED, 12) == 0
    ensures U16(SHIFTED, 14) == 0xFFFF && U16(SHIFTED, 18) == 0
    ensures U16(SHIFTED, 20) == 1 && U16(SHIFTED, 22) == 2 && U16(SHIFTED, 24) == 5
  {
  }

  // The example of the 'cmap' Format 4 section of the OpenType specification:
  // characters 10 to 20, 30 to 90 and 153 to 480 have glyphs 1 to 11, 12 to 72 and
  // 126 to 453, by deltas -9, -18 and -27.
  const EXAMPLE: seq<Byte> := [
    0, 4, 0, 48, 0, 0, 0, 8, 0, 8, 0, 2, 0, 0,
    0, 20, 0, 90, 1, 224, 255, 255, 0, 0,
    0, 10, 0, 30, 0, 153, 255, 255,
    255, 247, 255, 238, 255, 229, 0, 1,
    0, 0, 0, 0, 0, 0, 0, 0]

  method ExampleIsFound(cp: nat) returns (glyph: nat)
    ensures WellFormed(EXAMPLE, 0)
    ensures glyph == if 10 <= cp <= 20 then cp - 9 else if 30 <= cp <= 90 then cp - 18
                     else if 153 <= cp <= 480 then cp - 27 else 0
  {
    ExampleIsWellFormed(EXAMPLE);
    ExampleGlyphs(EXAMPLE, cp);
    hide WellFormed, Glyph, IsShifted;
    glyph := FindGlyph(EXAMPLE, 0, cp);
  }

  lemma ExampleIsWellFormed(data: seq<Byte>)
    requires data == EXAMPLE
    ensures WellFormed(data, 0)
  {
    hide U16;
    ExampleHead();
    ExampleEnds();
    assert Pow2(2) == 4;
  }

  lemma ExampleGlyphs(data: seq<Byte>, cp: nat)
    requires data == EXAMPLE
    ensures !IsShifted(data, 0, cp)
    ensures Glyph(data, 0, cp) == if 10 <= cp <= 20 then cp - 9 else if 30 <= cp <= 90 then cp - 18
                                  else if 153 <= cp <= 480 then cp - 27 else 0
  {
    hide U16, S16, Listed, FirstAtLeast;
    ExampleHead();
    ExampleEnds();
    ExampleStarts();
    ExampleDeltas();
    ExampleOffsets();
    var i := FirstAtLeast(data, 0, 4, cp);
    assert EndOf(data, 0, 0) == 20;
    assert i == 0 || i == 1 || i == 2 || i == 3 || i == 4;
  }

  lemma WordIs(data: seq<Byte>, at: nat, hi: Byte, lo: Byte)
    requires at + 1 < |data| && data[at] == hi && data[at + 1] == lo
    ensures U16(data, at) == 256 * hi + lo
  {
  }

  lemma ExampleHead()
    ensures U16(EXAMPLE, 6) == 8 && U16(EXAMPLE, 8) == 8 && U16(EXAMPLE, 10) == 2 && U16(EXAMPLE, 12) == 0
  {
    hide U16;
    ExampleCounts();
    WordIs(EXAMPLE, 10, 0, 2);
    WordIs(EXAMPLE, 12, 0, 0);
  }

  lemma ExampleCounts()
    ensures U16(EXAMPLE, 6) == 8 && U16(EXAMPLE, 8) == 8
  {
    hide U16;
    WordIs(EXAMPLE, 6, 0, 8);
    WordIs(EXAMPLE, 8, 0, 8);
  }

  lemma ExampleEnds()
    ensures EndOf(EXAMPLE, 0, 0) == 20 && EndOf(EXAMPLE, 0, 1) == 90 && EndOf(EXAMPLE, 0, 2) == 480
    ensures EndOf(EXAMPLE, 0, 3) == 0xFFFF
  {
    hide U16;
    FirstEnds();
    WordIs(EXAMPLE, 18, 1, 224);
    WordIs(EXAMPLE, 20, 255, 255);
  }

  lemma FirstEnds()
    ensures EndOf(EXAMPLE, 0, 0) == 20 && EndOf(EXAMPLE, 0, 1) == 90
  {
    hide U16;
    WordIs(EXAMPLE, 14, 0, 20);
    WordIs(EXAMPLE, 16, 0, 90);
  }

  lemma ExampleStarts()
    ensures U16(EXAMPLE, 24) == 10 && U16(EXAMPLE, 26) == 30 && U16(EXAMPLE, 28) == 153 && U16(EXAMPLE, 30) == 0xFFFF
  {
    hide U16;
    WordIs(EXAMPLE, 24, 0, 10);
    WordIs(EXAMPLE, 26, 0, 30);
    WordIs(EXAMPLE, 28, 0, 153);
    WordIs(EXAMPLE, 30, 255, 255);
  }

  lemma ExampleDeltas()
    ensures S16(EXAMPLE, 32) == -9 && S16(EXAMPLE, 34) == -18 && S16(EXAMPLE, 36) == -27 && S16(EXAMPLE, 38) == 1
  {
    hide U16;
    WordIs(EXAMPLE, 32, 255, 247);
    WordIs(EXAMPLE, 34, 255, 238);
    WordIs(EXAMPLE, 36, 255, 229);
    WordIs(EXAMPLE, 38, 0, 1);
  }

  lemma ExampleOffsets()
    ensures U16(EXAMPLE, 40) == 0 && U16(EXAMPLE, 42) == 0 && U16(EXAMPLE, 44) == 0 && U16(EXAMPLE, 46) == 0
  {
    hide U16;
    WordIs(EXAMPLE, 40, 0, 0);
    WordIs(EXAMPLE, 42, 0, 0);
    WordIs(EXAMPLE, 44, 0, 0);
    WordIs(EXAMPLE, 46, 0, 0);
  }
}
