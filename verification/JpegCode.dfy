// JPEG Huffman codes: canonical codes of symbols listed by length.
module JpegCode {
  import opened Bits
  import opened CanonicalCode

  const FAST_BITS := 9

  // Code lengths in the order of the symbols, as a JPEG table lists them.
  predicate Sizes(sl: seq<nat>) {
    && |sl| <= 256
    && (forall i :: 0 <= i < |sl| ==> 1 <= sl[i] <= 16)
    && (forall i, j :: 0 <= i < j < |sl| ==> sl[i] <= sl[j])
  }

  ghost predicate Fits(sl: seq<nat>) {
    forall s :: 1 <= s <= 16 ==> FitsAt(sl, s)
  }

  // ---- the sorted list -----------------------------------------------------

  lemma {:induction false} AllShorter(sl: seq<nat>, k: nat, s: nat)
    requires k <= |sl| && s >= 1 && forall i :: 0 <= i < k ==> 1 <= sl[i] < s
    ensures FirstSymbol(sl[..k], s) == k
  {
    if k == 0 {
      NoSymbols(s);
    } else {
      AllShorter(sl, k - 1, s);
      FirstSymbolStep(sl, k - 1, s);
    }
  }

  lemma {:induction false} NoneShorter(sl: seq<nat>, k: nat, n: nat, s: nat)
    requires k <= n <= |sl| && s >= 1 && forall i :: k <= i < n ==> sl[i] >= s
    ensures FirstSymbol(sl[..n], s) == FirstSymbol(sl[..k], s)
    decreases n
  {
    if k < n {
      NoneShorter(sl, k, n - 1, s);
      FirstSymbolStep(sl, n - 1, s);
    }
  }

  // A symbol's place by length is its place in the list.
  lemma SortedIndex(sl: seq<nat>, k: nat)
    requires Sizes(sl) && k < |sl|
    ensures Index(sl, k) == k
    ensures FirstSymbol(sl, sl[k]) <= k < FirstSymbol(sl, sl[k]) + Count(sl, sl[k])
  {
    var s := sl[k];
    NoneShorter(sl, k, |sl|, s);
    assert sl[..|sl|] == sl;
    AllShorter(sl, k, s + 1);
    assert FirstSymbol(sl[..k], s + 1) == FirstSymbol(sl[..k], s) + Count(sl[..k], s);
    RankBounds(sl, k);
  }

  // The symbols of length `j` are a run of the list.
  lemma RunOfLength(sl: seq<nat>, j: nat, k: nat)
    requires Sizes(sl) && k < |sl| && 1 <= j <= 16
    ensures sl[k] == j <==> FirstSymbol(sl, j) <= k < FirstSymbol(sl, j) + Count(sl, j)
  {
    SortedIndex(sl, k);
    if sl[k] < j {
      FirstSymbolMonotone(sl, sl[k], j);
    } else if sl[k] > j {
      FirstSymbolMonotone(sl, j, sl[k]);
    }
  }

  lemma RunsEnd(sl: seq<nat>, j: nat)
    requires Sizes(sl) && 1 <= j <= 17
    ensures FirstSymbol(sl, j) <= |sl| && (j == 17 ==> FirstSymbol(sl, j) == |sl|)
  {
    FirstSymbolBound(sl, |sl|, j);
    assert sl[..|sl|] == sl;
    if j == 17 {
      AllShorter(sl, |sl|, 17);
    }
  }

  // ---- which symbol comes next ---------------------------------------------

  // The code of symbol `i` begins the 16 bits `v`, first bit highest.
  predicate Begins(sl: seq<nat>, i: nat, v: nat)
    requires i < |sl|
  {
    1 <= sl[i] <= 16 && Shr(v, 16 - sl[i]) == Code(sl, i)
  }

  lemma TopOfReversed(v: nat, s: nat)
    requires v < Pow2(16) && s <= 16
    ensures Rev(Rev(v, 16), s) == Shr(v, 16 - s)
  {
    RevPrefix(Rev(v, 16), 16, s);
    RevRev(v, 16);
    LowOfSmall(v, 16);
  }

  lemma BeginsIsMatch(sl: seq<nat>, i: nat, v: nat)
    requires i < |sl| && v < Pow2(16) && sl[i] <= 16
    ensures Begins(sl, i, v) <==> Match(sl, i, Rev(v, 16))
  {
    TopOfReversed(v, sl[i]);
  }

  // The symbol whose code begins `v`, or -1.
  function NextOf(sl: seq<nat>, v: nat): (r: int)
    ensures -1 <= r < |sl|
  {
    Next(sl, Rev(v, 16))
  }

  lemma NextOfIs(sl: seq<nat>, v: nat, i: nat)
    requires Sizes(sl) && v < Pow2(16) && i < |sl|
    ensures Begins(sl, i, v) <==> NextOf(sl, v) == i
  {
    BeginsIsMatch(sl, i, v);
    var r := NextOf(sl, v);
    if r >= 0 && Begins(sl, i, v) {
      PrefixFree(sl, Rev(v, 16), r, i);
    }
  }

  // ---- the fast table ------------------------------------------------------

  // Symbol `i` is short enough for the table and begins the nine bits `c`.
  predicate Hits(sl: seq<nat>, i: nat, c: nat)
    requires i < |sl|
  {
    1 <= sl[i] <= FAST_BITS && Shr(c, FAST_BITS - sl[i]) == Code(sl, i)
  }

  lemma HitsIsBegins(sl: seq<nat>, i: nat, v: nat)
    requires i < |sl| && sl[i] <= FAST_BITS
    ensures Hits(sl, i, Shr(v, 7)) <==> Begins(sl, i, v)
  {
    if sl[i] >= 1 {
      ShrAdd(v, 7, FAST_BITS - sl[i]);
      assert 7 + (FAST_BITS - sl[i]) == 16 - sl[i];
    }
  }

  // What the table holds once `n` symbols are entered: 255 for nothing.
  function FastEntry(sl: seq<nat>, n: nat, c: nat): (r: nat)
    requires n <= |sl| <= 256
    ensures r <= 255
    ensures r < 255 ==> r < n && Hits(sl, r, c)
  {
    if n == 0 then 255
    else if Hits(sl, n - 1, c) then n - 1
    else FastEntry(sl, n - 1, c)
  }

  lemma {:induction false} FastEntryFinds(sl: seq<nat>, n: nat, c: nat, i: nat)
    requires n <= |sl| <= 256 && i < n && Hits(sl, i, c)
    requires forall j :: 0 <= j < n && Hits(sl, j, c) ==> j == i
    ensures FastEntry(sl, n, c) == i
  {
    if i < n - 1 {
      FastEntryFinds(sl, n - 1, c, i);
    }
  }

  // The table knows every short code but that of a symbol number 255.
  lemma FastIsNext(sl: seq<nat>, v: nat)
    requires Sizes(sl) && v < Pow2(16)
    ensures var e, r := FastEntry(sl, |sl|, Shr(v, 7)), NextOf(sl, v);
            && (e < 255 ==> r == e && sl[e] <= FAST_BITS)
            && (e == 255 ==> r < 0 || sl[r] > FAST_BITS || r == 255)
  {
    var c := Shr(v, 7);
    var e, r := FastEntry(sl, |sl|, c), NextOf(sl, v);
    if e < 255 {
      HitsIsBegins(sl, e, v);
      NextOfIs(sl, v, e);
    } else if r >= 0 && sl[r] <= FAST_BITS {
      NextOfIs(sl, v, r);
      HitsIsBegins(sl, r, v);
      forall j | 0 <= j < |sl| && Hits(sl, j, c)
        ensures j == r
      {
        HitsIsBegins(sl, j, v);
        NextOfIs(sl, v, j);
      }
      FastEntryFinds(sl, |sl|, c, r);
    }
  }

  // The entries of one symbol are a run of the table.
  lemma HitsRun(sl: seq<nat>, i: nat, c: nat)
    requires i < |sl| && 1 <= sl[i] <= FAST_BITS
    ensures var w := FAST_BITS - sl[i]; var from := Shl(Code(sl, i), w);
            Hits(sl, i, c) <==> from <= c < from + Pow2(w)
  {
    var w := FAST_BITS - sl[i];
    ShrBelow(c, Code(sl, i), w);
    ShrBelow(c, Code(sl, i) + 1, w);
    ShiftsAreArithmetic(Code(sl, i), w);
    ShiftsAreArithmetic(Code(sl, i) + 1, w);
    assert (Code(sl, i) + 1) * Pow2(w) == Code(sl, i) * Pow2(w) + Pow2(w);
  }

  // ---- the slow path -------------------------------------------------------

  // The first length from `k` on at which the input is below the end; 17 for none.
  function FirstBelow(sl: seq<nat>, v: nat, k: nat): (r: nat)
    requires 1 <= k <= 17
    ensures k <= r <= 17
    decreases 17 - k
  {
    if k == 17 || Shr(v, 16 - k) < EndCode(sl, k) then k else FirstBelow(sl, v, k + 1)
  }

  lemma {:induction false} FirstBelowIs(sl: seq<nat>, v: nat, k: nat, t: nat)
    requires 1 <= k <= t <= 17
    ensures t < FirstBelow(sl, v, k) ==> Shr(v, 16 - t) >= EndCode(sl, t)
    ensures FirstBelow(sl, v, k) < 17 ==>
      Shr(v, 16 - FirstBelow(sl, v, k)) < EndCode(sl, FirstBelow(sl, v, k))
    decreases 17 - k
  {
    if k < 17 && k < t {
      FirstBelowIs(sl, v, k + 1, t);
    } else if k < 17 {
      FirstBelowIs(sl, v, k + 1, 17);
    }
  }

  // The search finds the length of the next code, if that is a long one.
  lemma SlowIsNext(sl: seq<nat>, v: nat)
    requires Sizes(sl) && v < Pow2(16)
    requires NextOf(sl, v) >= 0 ==> sl[NextOf(sl, v)] > FAST_BITS
    ensures var k, r := FirstBelow(sl, v, FAST_BITS + 1), NextOf(sl, v);
            if r < 0 then k == 17
            else k == sl[r] && Shr(v, 16 - k) - FirstCode(sl, k) + FirstSymbol(sl, k) == r
  {
    hide Rev, Shr, Rank, FirstCode, FirstSymbol, EndCode, Count;
    var k, r := FirstBelow(sl, v, FAST_BITS + 1), NextOf(sl, v);
    FirstBelowIs(sl, v, FAST_BITS + 1, FAST_BITS + 1);
    if k < 17 {
      TopOfReversed(v, k);
      var i := BelowEndHasMatch(sl, Rev(v, 16), k);
      PrefixFree(sl, Rev(v, 16), i, r);
    }
    if r >= 0 {
      MatchIsBelowEnd(sl, Rev(v, 16), r, sl[r]);
      TopOfReversed(v, sl[r]);
      FirstBelowIs(sl, v, FAST_BITS + 1, sl[r]);
      SortedIndex(sl, r);
    }
  }

  // A 256th symbol with a short code is always misread, as one of ten bits.
  lemma LastOf256IsMisread(sl: seq<nat>, v: nat)
    requires Sizes(sl) && v < Pow2(16) && NextOf(sl, v) == 255 && sl[255] <= FAST_BITS
    ensures FastEntry(sl, |sl|, Shr(v, 7)) == 255
    ensures FirstBelow(sl, v, FAST_BITS + 1) == 10
  {
    FastIsNext(sl, v);
    MatchIsBelowEnd(sl, Rev(v, 16), 255, 10);
    TopOfReversed(v, 10);
  }

  // ---- both stages together ------------------------------------------------

  // The symbol and length that the table, then the search, give; -1 for none.
  function FastThenSlow(sl: seq<nat>, v: nat): (r: (int, nat))
    requires |sl| <= 256
    ensures -1 <= r.0 < 256
  {
    var e, k := FastEntry(sl, |sl|, Shr(v, 7)), FirstBelow(sl, v, FAST_BITS + 1);
    if e < 255 then (e, sl[e])
    else if k == 17 then (-1, 0)
    else
      var id := Shr(v, 16 - k) - FirstCode(sl, k) + FirstSymbol(sl, k);
      if 0 <= id < 256 then (id, k) else (-1, 0)
  }

  function Expected(sl: seq<nat>, v: nat): (int, nat) {
    var r := NextOf(sl, v);
    if r < 0 then (-1, 0) else (r, sl[r])
  }

  // No symbol number 255 with a code short enough for the fast table, where its
  // entry would look like none.
  predicate LastIsLong(sl: seq<nat>) {
    |sl| <= 255 || sl[255] > FAST_BITS
  }

  lemma StagesAgree(sl: seq<nat>, v: nat)
    requires Sizes(sl) && LastIsLong(sl) && v < Pow2(16)
    ensures FastThenSlow(sl, v) == Expected(sl, v)
  {
    hide Shr, FastEntry, FirstBelow, NextOf, FirstCode, FirstSymbol, Pow2;
    FastIsNext(sl, v);
    if FastEntry(sl, |sl|, Shr(v, 7)) == 255 {
      SlowIsNext(sl, v);
    }
  }

  // The input that begins with the code of a symbol, and zeros.
  lemma CodeInput(sl: seq<nat>, i: nat) returns (v: nat)
    requires Sizes(sl) && Fits(sl) && i < |sl|
    ensures v < Pow2(16) && NextOf(sl, v) == i
  {
    var s := sl[i];
    RankBounds(sl, i);
    assert FitsAt(sl, s);
    hide Shl, Pow2, Code, NextOf, FitsAt;
    v := Shl(Code(sl, i), 16 - s);
    Pow2Shl(s, 16 - s);
    ShlMonotone(Pow2(s), Code(sl, i), 16 - s);
    ShrShl(Code(sl, i), 16 - s);
    NextOfIs(sl, v, i);
  }

  // Decoding in two stages is right for every input exactly for tables without
  // a short code for symbol number 255.
  lemma StagesAgreeIff(sl: seq<nat>)
    requires Sizes(sl) && Fits(sl)
    ensures (forall v: nat :: v < Pow2(16) ==> FastThenSlow(sl, v) == Expected(sl, v)) <==> LastIsLong(sl)
  {
    hide FastThenSlow, Expected, Pow2, Fits;
    if LastIsLong(sl) {
      forall v: nat | v < Pow2(16)
        ensures FastThenSlow(sl, v) == Expected(sl, v)
      {
        StagesAgree(sl, v);
      }
    } else {
      var v := CodeInput(sl, 255);
      MisreadDiffers(sl, v);
    }
  }

  lemma MisreadDiffers(sl: seq<nat>, v: nat)
    requires Sizes(sl) && v < Pow2(16) && NextOf(sl, v) == 255 && sl[255] <= FAST_BITS
    ensures FastThenSlow(sl, v) != Expected(sl, v)
  {
    LastOf256IsMisread(sl, v);
  }

  // All 256 symbols with codes of eight bits: a table that is accepted and misread.
  function FlatSizes(n: nat): (sl: seq<nat>)
    ensures |sl| == n && forall i :: 0 <= i < n ==> sl[i] == 8
  {
    seq(n, _ => 8)
  }

  lemma {:induction false} FlatCounts(n: nat, s: nat)
    ensures Count(FlatSizes(n), s) == if s == 8 then n else 0
  {
    if n > 0 {
      assert FlatSizes(n)[..n - 1] == FlatSizes(n - 1);
      FlatCounts(n - 1, s);
    }
  }

  lemma {:induction false} FlatBelow(n: nat, s: nat)
    requires 1 <= s <= 8
    ensures FirstCode(FlatSizes(n), s) == 0
  {
    if s > 1 {
      FlatBelow(n, s - 1);
      FlatCounts(n, s - 1);
    }
  }

  lemma FlatIsMisread()
    ensures Sizes(FlatSizes(256)) && Fits(FlatSizes(256)) && !LastIsLong(FlatSizes(256))
    ensures !(forall v: nat :: v < Pow2(16) ==> FastThenSlow(FlatSizes(256), v) == Expected(FlatSizes(256), v))
  {
    var sl := FlatSizes(256);
    Pow2Small();
    hide Pow2, FirstCode, Count, FlatSizes, FastThenSlow, Expected;
    forall s | 1 <= s <= 16
      ensures FitsAt(sl, s)
    {
      FlatCounts(256, s);
      if s == 8 {
        FlatBelow(256, 8);
      }
    }
    StagesAgreeIff(sl);
  }
}
