// Canonical Huffman codes as section 3.2.2 of RFC 1951 defines them: a list of
// code lengths fixes every code.
module CanonicalCode {
  import opened Bits

  const MAX_BITS := 15
  const MAX_SYMBOLS := 288

  // Code lengths by symbol; length 0 means that the symbol is not used.
  predicate Lengths(sl: seq<nat>) {
    |sl| <= MAX_SYMBOLS && forall i :: 0 <= i < |sl| ==> sl[i] < 16
  }

  // How many symbols have codes of length `s`.
  function Count(sl: seq<nat>, s: nat): (c: nat)
    ensures c <= |sl|
  {
    if sl == [] then 0
    else Count(sl[..|sl| - 1], s) + if sl[|sl| - 1] == s then 1 else 0
  }

  // The least code of length `s`.
  function FirstCode(sl: seq<nat>, s: nat): nat
    requires s >= 1
    decreases s, 0
  {
    if s == 1 then 0 else 2 * EndCode(sl, s - 1)
  }

  // One above the greatest code of length `s`.
  function EndCode(sl: seq<nat>, s: nat): nat
    requires s >= 1
    decreases s, 1
  {
    FirstCode(sl, s) + Count(sl, s)
  }

  // How many symbols have a code shorter than `s`.
  function FirstSymbol(sl: seq<nat>, s: nat): nat
    requires s >= 1
  {
    if s == 1 then 0 else FirstSymbol(sl, s - 1) + Count(sl, s - 1)
  }

  // The place of symbol `i` among the symbols of its own length.
  function Rank(sl: seq<nat>, i: nat): nat
    requires i < |sl|
  {
    Count(sl[..i], sl[i])
  }

  // The code of symbol `i`, a number of `sl[i]` bits.
  function Code(sl: seq<nat>, i: nat): nat
    requires i < |sl| && sl[i] >= 1
  {
    FirstCode(sl, sl[i]) + Rank(sl, i)
  }

  // The place of symbol `i` when symbols are sorted by length.
  function Index(sl: seq<nat>, i: nat): nat
    requires i < |sl| && sl[i] >= 1
  {
    FirstSymbol(sl, sl[i]) + Rank(sl, i)
  }

  // How the counts of one level lead to the next.
  lemma Level(sl: seq<nat>, j: nat)
    requires j >= 1
    ensures j == 1 ==> FirstCode(sl, j) == 0 && FirstSymbol(sl, j) == 0
    ensures EndCode(sl, j) == FirstCode(sl, j) + Count(sl, j)
    ensures FirstCode(sl, j + 1) == 2 * EndCode(sl, j) && FirstSymbol(sl, j + 1) == FirstSymbol(sl, j) + Count(sl, j)
  {
  }

  // No length has more codes than fit in that many bits.
  predicate FitsAt(sl: seq<nat>, s: nat)
    requires s >= 1
  {
    Count(sl, s) > 0 ==> EndCode(sl, s) <= Pow2(s)
  }

  ghost predicate Accepted(sl: seq<nat>) {
    forall s :: 1 <= s <= MAX_BITS ==> FitsAt(sl, s)
  }

  // ---- counting ------------------------------------------------------------

  lemma {:induction false} CountSlice(sl: seq<nat>, i: nat, j: nat, s: nat)
    requires i <= j <= |sl|
    ensures Count(sl[..i], s) <= Count(sl[..j], s) <= Count(sl[..i], s) + (j - i)
  {
    if i < j {
      CountSlice(sl, i, j - 1, s);
      assert sl[..j][..j - 1] == sl[..j - 1];
    }
  }

  lemma CountStep(sl: seq<nat>, i: nat, s: nat)
    requires i < |sl|
    ensures Count(sl[..i + 1], s) == Count(sl[..i], s) + if sl[i] == s then 1 else 0
  {
    assert sl[..i + 1][..i] == sl[..i];
  }

  lemma RankBounds(sl: seq<nat>, i: nat)
    requires i < |sl|
    ensures Rank(sl, i) < Count(sl, sl[i])
  {
    CountStep(sl, i, sl[i]);
    CountSlice(sl, i + 1, |sl|, sl[i]);
    assert sl[..|sl|] == sl;
  }

  lemma RankOrder(sl: seq<nat>, i: nat, j: nat)
    requires i < j < |sl| && sl[i] == sl[j]
    ensures Rank(sl, i) < Rank(sl, j)
  {
    CountStep(sl, i, sl[i]);
    CountSlice(sl, i + 1, j, sl[i]);
  }

  // Every rank below the count belongs to some symbol.
  lemma {:induction false} Select(sl: seq<nat>, s: nat, r: nat) returns (i: nat)
    requires r < Count(sl, s)
    ensures i < |sl| && sl[i] == s && Rank(sl, i) == r
  {
    var n := |sl| - 1;
    if r < Count(sl[..n], s) {
      i := Select(sl[..n], s, r);
      assert sl[..n][..i] == sl[..i];
    } else {
      i := n;
    }
  }

  // ---- positions in the sorted symbol list ---------------------------------

  lemma {:induction false} FirstSymbolMonotone(sl: seq<nat>, s: nat, t: nat)
    requires 1 <= s < t
    ensures FirstSymbol(sl, s) + Count(sl, s) <= FirstSymbol(sl, t)
  {
    if s < t - 1 {
      FirstSymbolMonotone(sl, s, t - 1);
    }
  }

  lemma IndexInjective(sl: seq<nat>, i: nat, j: nat)
    requires i < |sl| && j < |sl| && sl[i] >= 1 && sl[j] >= 1 && i != j
    ensures Index(sl, i) != Index(sl, j)
  {
    RankBounds(sl, i);
    RankBounds(sl, j);
    if sl[i] < sl[j] {
      FirstSymbolMonotone(sl, sl[i], sl[j]);
    } else if sl[j] < sl[i] {
      FirstSymbolMonotone(sl, sl[j], sl[i]);
    } else if i < j {
      RankOrder(sl, i, j);
    } else {
      RankOrder(sl, j, i);
    }
  }

  // Symbols shorter than `s`, counted over a prefix of the list.
  lemma {:induction false} FirstSymbolStep(sl: seq<nat>, i: nat, s: nat)
    requires i < |sl| && s >= 1
    ensures FirstSymbol(sl[..i + 1], s)
         == FirstSymbol(sl[..i], s) + if 1 <= sl[i] < s then 1 else 0
  {
    if s > 1 {
      FirstSymbolStep(sl, i, s - 1);
      CountStep(sl, i, s - 1);
    }
  }

  lemma {:induction false} FirstSymbolBound(sl: seq<nat>, i: nat, s: nat)
    requires i <= |sl| && s >= 1
    ensures FirstSymbol(sl[..i], s) <= i
  {
    if i > 0 {
      FirstSymbolBound(sl, i - 1, s);
      FirstSymbolStep(sl, i - 1, s);
    } else {
      NoSymbols(s);
    }
  }

  lemma {:induction false} NoSymbols(s: nat)
    requires s >= 1
    ensures FirstSymbol([], s) == 0 && FirstCode([], s) == 0
  {
    if s > 1 {
      NoSymbols(s - 1);
    }
  }

  lemma IndexBound(sl: seq<nat>, i: nat)
    requires i < |sl| && sl[i] >= 1
    ensures Index(sl, i) < |sl|
  {
    RankBounds(sl, i);
    FirstSymbolBound(sl, |sl|, sl[i] + 1);
    assert sl[..|sl|] == sl;
  }

  // ---- the order of the codes ----------------------------------------------

  // Symbol `i` comes before `j`: it has a shorter code, or one as long and a lower number.
  predicate Before(sl: seq<nat>, i: nat, j: nat)
    requires i < |sl| && j < |sl|
  {
    sl[i] < sl[j] || (sl[i] == sl[j] && i < j)
  }

  // Nothing comes between the two symbols.
  ghost predicate Follows(sl: seq<nat>, i: nat, j: nat)
    requires i < |sl| && j < |sl|
  {
    Before(sl, i, j) && forall k: nat {:trigger Before(sl, i, k)} ::
      k < |sl| && sl[k] >= 1 && Before(sl, i, k) ==> !Before(sl, k, j)
  }

  lemma {:induction false} NoneBetween(sl: seq<nat>, i: nat, j: nat, s: nat)
    requires i <= j <= |sl| && forall k :: i <= k < j ==> sl[k] != s
    ensures Count(sl[..j], s) == Count(sl[..i], s)
    decreases j
  {
    if i < j {
      NoneBetween(sl, i, j - 1, s);
      CountStep(sl, j - 1, s);
    }
  }

  lemma NoneAtAll(sl: seq<nat>, s: nat)
    requires forall k :: 0 <= k < |sl| ==> sl[k] != s
    ensures Count(sl, s) == 0
  {
    NoneBetween(sl, 0, |sl|, s);
    assert sl[..|sl|] == sl && sl[..0] == [];
  }

  lemma {:induction false} EmptyLevels(sl: seq<nat>, s: nat, t: nat)
    requires 1 <= s < t && forall k :: 0 <= k < |sl| ==> !(s < sl[k] < t)
    ensures FirstCode(sl, t) == Shl(EndCode(sl, s), t - s)
    decreases t
  {
    if s < t - 1 {
      EmptyLevels(sl, s, t - 1);
      NoneAtAll(sl, t - 1);
    }
  }

  lemma {:induction false} NoLevels(sl: seq<nat>, t: nat)
    requires 1 <= t && forall k :: 0 <= k < |sl| ==> !(1 <= sl[k] < t)
    ensures FirstCode(sl, t) == 0
    decreases t
  {
    if t > 1 {
      NoLevels(sl, t - 1);
      NoneAtAll(sl, t - 1);
    }
  }

  // The rule of section 3.2.2 of RFC 1951: the first symbol has a code of zeros, and
  // each further one has the code before it plus one, with zeros appended up to its
  // own length.
  lemma CodesAreConsecutive(sl: seq<nat>, i: nat, j: nat)
    requires i < |sl| && j < |sl| && sl[i] >= 1 && sl[j] >= 1
    ensures (forall k: nat :: k < |sl| && sl[k] >= 1 ==> !Before(sl, k, j)) ==> Code(sl, j) == 0
    ensures Follows(sl, i, j) ==> Code(sl, j) == Shl(Code(sl, i) + 1, sl[j] - sl[i])
  {
    if forall k: nat :: k < |sl| && sl[k] >= 1 ==> !Before(sl, k, j) {
      NoLevels(sl, sl[j]);
      NoneBetween(sl, 0, j, sl[j]);
      assert sl[..0] == [];
    }
    if Follows(sl, i, j) {
      forall k: nat | k < |sl| && sl[k] >= 1
        ensures !((sl[i] < sl[k] || (sl[i] == sl[k] && i < k)) && (sl[k] < sl[j] || (sl[k] == sl[j] && k < j)))
      {
        assert Before(sl, i, k) ==> !Before(sl, k, j);
      }
      if sl[i] == sl[j] {
        CountStep(sl, i, sl[i]);
        NoneBetween(sl, i + 1, j, sl[j]);
      } else {
        CountStep(sl, i, sl[i]);
        NoneBetween(sl, i + 1, |sl|, sl[i]);
        assert sl[..|sl|] == sl;
        NoneBetween(sl, 0, j, sl[j]);
        assert sl[..0] == [];
        EmptyLevels(sl, sl[i], sl[j]);
      }
    }
  }

  // The example of that section: eight symbols A to H.
  lemma RfcExample()
    ensures var sl := [3, 3, 3, 3, 3, 2, 4, 4];
            && Code(sl, 0) == 2 && Code(sl, 1) == 3 && Code(sl, 2) == 4 && Code(sl, 3) == 5 && Code(sl, 4) == 6
            && Code(sl, 5) == 0 && Code(sl, 6) == 14 && Code(sl, 7) == 15
  {
    var sl := [3, 3, 3, 3, 3, 2, 4, 4];
    ExampleCodes(sl);
  }

  lemma ExampleCodes(sl: seq<nat>)
    requires sl == [3, 3, 3, 3, 3, 2, 4, 4]
    ensures Code(sl, 5) == 0 && Code(sl, 0) == 2 && Code(sl, 1) == 3 && Code(sl, 2) == 4 && Code(sl, 3) == 5
    ensures Code(sl, 4) == 6 && Code(sl, 6) == 14 && Code(sl, 7) == 15
  {
    hide Code;
    CodesAreConsecutive(sl, 5, 5);
    FollowsOne(sl, 5, 0);
    FollowsOne(sl, 0, 1);
    FollowsOne(sl, 1, 2);
    FollowsOne(sl, 2, 3);
    FollowsOne(sl, 3, 4);
    FollowsOne(sl, 4, 6);
    FollowsOne(sl, 6, 7);
  }

  lemma FollowsOne(sl: seq<nat>, i: nat, j: nat)
    requires i < |sl| && j < |sl| && sl[i] >= 1 && sl[j] >= 1 && sl[i] <= sl[j] <= sl[i] + 1 && Follows(sl, i, j)
    ensures Code(sl, j) == if sl[i] == sl[j] then Code(sl, i) + 1 else 2 * (Code(sl, i) + 1)
  {
    CodesAreConsecutive(sl, i, j);
  }

  // ---- codes of different lengths ------------------------------------------

  lemma {:induction false} FirstCodeGrows(sl: seq<nat>, s: nat, t: nat)
    requires 1 <= s < t
    ensures FirstCode(sl, t) >= Shl(EndCode(sl, s), t - s)
  {
    if s < t - 1 {
      FirstCodeGrows(sl, s, t - 1);
    }
  }

  // Symbol `i` is the next one when the coming bits, first bit lowest, are `x`.
  predicate Match(sl: seq<nat>, i: nat, x: nat)
    requires i < |sl|
  {
    sl[i] >= 1 && Rev(x, sl[i]) == Code(sl, i)
  }

  // The first `s` bits lie below the end of the codes of length `s` exactly when
  // some code of at most `s` bits is a prefix of the input.
  lemma MatchIsBelowEnd(sl: seq<nat>, x: nat, i: nat, s: nat)
    requires i < |sl| && Match(sl, i, x) && sl[i] <= s
    ensures Rev(x, s) < EndCode(sl, s)
  {
    var n := sl[i];
    RankBounds(sl, i);
    if n < s {
      RevPrefix(x, s, n);
      FirstCodeGrows(sl, n, s);
      ShrBelow(Rev(x, s), EndCode(sl, n), s - n);
    }
  }

  lemma {:induction false} BelowEndHasMatch(sl: seq<nat>, x: nat, s: nat) returns (i: nat)
    requires s >= 1 && Rev(x, s) < EndCode(sl, s)
    ensures i < |sl| && Match(sl, i, x) && sl[i] <= s
  {
    var y := Rev(x, s);
    if y >= FirstCode(sl, s) {
      i := Select(sl, s, y - FirstCode(sl, s));
    } else {
      RevLast(x, s - 1);
      i := BelowEndHasMatch(sl, x, s - 1);
    }
  }

  // No code is a prefix of another one.
  lemma PrefixFree(sl: seq<nat>, x: nat, i: nat, j: nat)
    requires i < |sl| && j < |sl| && Match(sl, i, x) && Match(sl, j, x)
    ensures i == j
  {
    if sl[i] == sl[j] {
      if i < j {
        RankOrder(sl, i, j);
      } else if j < i {
        RankOrder(sl, j, i);
      }
    } else if sl[i] < sl[j] {
      ShorterNeverBoth(sl, x, i, j);
    } else {
      ShorterNeverBoth(sl, x, j, i);
    }
  }

  lemma ShorterNeverBoth(sl: seq<nat>, x: nat, i: nat, j: nat)
    requires i < |sl| && j < |sl| && 1 <= sl[i] < sl[j]
    ensures !(Match(sl, i, x) && Match(sl, j, x))
  {
    if Match(sl, i, x) {
      // The first sl[j] - 1 bits are below their end, so sl[j] bits are below FirstCode.
      MatchIsBelowEnd(sl, x, i, sl[j] - 1);
      RevLast(x, sl[j] - 1);
    }
  }

  // ---- which symbol comes next ---------------------------------------------

  // The symbol whose code is the next input, or -1 when no code is.
  function SymbolAt(sl: seq<nat>, n: nat, x: nat): (r: int)
    requires n <= |sl|
    ensures -1 <= r < n
    ensures r >= 0 ==> Match(sl, r, x)
    ensures r < 0 ==> forall i :: 0 <= i < n ==> !Match(sl, i, x)
  {
    if n == 0 then -1
    else if Match(sl, n - 1, x) then n - 1
    else SymbolAt(sl, n - 1, x)
  }

  function Next(sl: seq<nat>, x: nat): (r: int)
    ensures -1 <= r < |sl|
    ensures r >= 0 ==> Match(sl, r, x)
    ensures r < 0 ==> forall i :: 0 <= i < |sl| ==> !Match(sl, i, x)
  {
    SymbolAt(sl, |sl|, x)
  }

  // ---- when a list of lengths is accepted ----------------------------------

  // A used code fits in its own number of bits.
  lemma CodeFits(sl: seq<nat>, i: nat)
    requires Lengths(sl) && Accepted(sl) && i < |sl| && sl[i] >= 1
    ensures Code(sl, i) < Pow2(sl[i])
  {
    RankBounds(sl, i);
    assert FitsAt(sl, sl[i]);
  }

  lemma {:induction false} EndCodeBound(sl: seq<nat>, s: nat)
    requires s >= 1 && forall t :: 1 <= t <= s ==> FitsAt(sl, t)
    ensures EndCode(sl, s) <= Pow2(s)
  {
    assert FitsAt(sl, s);
    if s > 1 {
      EndCodeBound(sl, s - 1);
    }
  }

  // The Kraft sum in units of 2^-15: how much of the code space is used.
  function Kraft(sl: seq<nat>): nat
    requires forall i :: 0 <= i < |sl| ==> sl[i] <= MAX_BITS
  {
    if sl == [] then 0
    else
      var n := |sl| - 1;
      Kraft(sl[..n]) + if sl[n] == 0 then 0 else Pow2(MAX_BITS - sl[n])
  }

  lemma {:induction false} EndCodeStep(sl: seq<nat>, s: nat)
    requires sl != [] && s >= 1
    ensures var n := |sl| - 1;
            EndCode(sl, s) == EndCode(sl[..n], s) + if 1 <= sl[n] <= s then Pow2(s - sl[n]) else 0
  {
    if s > 1 {
      EndCodeStep(sl, s - 1);
    }
  }

  lemma {:induction false} KraftIsEndCode(sl: seq<nat>)
    requires forall i :: 0 <= i < |sl| ==> sl[i] <= MAX_BITS
    ensures Kraft(sl) == EndCode(sl, MAX_BITS)
  {
    if sl == [] {
      NoSymbols(MAX_BITS);
    } else {
      KraftIsEndCode(sl[..|sl| - 1]);
      EndCodeStep(sl, MAX_BITS);
    }
  }

  // The level-by-level test accepts exactly the lists that satisfy Kraft's
  // inequality, that is, those for which some prefix code exists.
  lemma AcceptedIffKraft(sl: seq<nat>)
    requires Lengths(sl)
    ensures Accepted(sl) <==> Kraft(sl) <= Pow2(MAX_BITS)
  {
    KraftIsEndCode(sl);
    if Accepted(sl) {
      EndCodeBound(sl, MAX_BITS);
    }
    if Kraft(sl) <= Pow2(MAX_BITS) {
      forall s | 1 <= s <= MAX_BITS
        ensures FitsAt(sl, s)
      {
        EndCodeFits(sl, s);
      }
    }
  }

  lemma EndCodeFits(sl: seq<nat>, s: nat)
    requires 1 <= s <= MAX_BITS && EndCode(sl, MAX_BITS) <= Pow2(MAX_BITS)
    ensures EndCode(sl, s) <= Pow2(s)
  {
    if s < MAX_BITS {
      FirstCodeGrows(sl, s, MAX_BITS);
      Pow2Shl(s, MAX_BITS - s);
      ShlMonotone(EndCode(sl, s), Pow2(s), MAX_BITS - s);
    }
  }
}
