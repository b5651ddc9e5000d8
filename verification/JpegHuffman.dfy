// Building the decoding tables of a JPEG Huffman code.
module JpegHuffman {
  import opened Bits
  import opened CanonicalCode
  import opened JpegCode

  function Repeat(x: nat, n: nat): (r: seq<nat>)
    ensures |r| == n && forall i :: 0 <= i < n ==> r[i] == x
  {
    seq(n, _ => x)
  }

  // The lengths of all symbols, from how many have each length up to `i`.
  function Listed(count: seq<nat>, i: nat): (sl: seq<nat>)
    requires i <= |count|
    ensures forall k :: 0 <= k < |sl| ==> 1 <= sl[k] <= i
    ensures forall j, k :: 0 <= j < k < |sl| ==> sl[j] <= sl[k]
  {
    if i == 0 then [] else Listed(count, i - 1) + Repeat(i, count[i - 1])
  }

  // Of each length there are as many symbols as the table says.
  lemma {:induction false} ListedCounts(count: seq<nat>, i: nat, s: nat)
    requires i <= |count| && 1 <= s
    ensures Count(Listed(count, i), s) == if s <= i then count[s - 1] else 0
  {
    if i > 0 {
      ListedCounts(count, i - 1, s);
      CountRepeated(Listed(count, i - 1), i, count[i - 1], s);
    }
  }

  lemma {:induction false} CountRepeated(sl: seq<nat>, x: nat, n: nat, s: nat)
    ensures Count(sl + Repeat(x, n), s) == Count(sl, s) + if x == s then n else 0
    decreases n
  {
    if n == 0 {
      assert sl + Repeat(x, 0) == sl;
    } else {
      var all := sl + Repeat(x, n);
      assert all[..|all| - 1] == sl + Repeat(x, n - 1) && all[|all| - 1] == x;
      CountRepeated(sl, x, n - 1, s);
    }
  }

  lemma {:induction false} ListedGrows(count: seq<nat>, i: nat, j: nat)
    requires i <= j <= |count|
    ensures |Listed(count, i)| <= |Listed(count, j)|
    decreases j
  {
    if i < j {
      ListedGrows(count, i, j - 1);
    }
  }

  class Huffman {
    const fast: array<nat>
    const code: array<nat>
    const values: array<Byte>
    const size: array<nat>
    const maxcode: array<nat>
    const delta: array<int>

    constructor (values: array<Byte>)
      requires values.Length == 256
      ensures Shape() && this.values == values
      ensures fresh(fast) && fresh(code) && fresh(size) && fresh(maxcode) && fresh(delta)
    {
      fast := new nat[512];
      code := new nat[256];
      this.values := values;
      size := new nat[257];
      maxcode := new nat[18];
      delta := new int[17];
    }

    ghost predicate Shape() {
      && fast.Length == 512 && code.Length == 256 && values.Length == 256
      && size.Length == 257 && maxcode.Length == 18 && delta.Length == 17
      && fast != code && fast != size && fast != maxcode
      && code != size && code != maxcode && size != maxcode
    }

    ghost predicate Sized(sl: seq<nat>)
      requires Shape()
      reads size
    {
      Sizes(sl) && size[..|sl|] == sl && size[|sl|] == 0
    }

    // The levels below `n` are those of the code.
    ghost predicate Levels(sl: seq<nat>, n: nat)
      requires Shape() && n <= 17
      reads maxcode, delta
    {
      forall s {:trigger maxcode[s]} {:trigger delta[s]} :: 1 <= s < n ==>
        maxcode[s] == Shl(EndCode(sl, s), 16 - s) && delta[s] == FirstSymbol(sl, s) - FirstCode(sl, s)
    }

    ghost predicate Coded(sl: seq<nat>, n: nat)
      requires Shape() && n <= |sl| <= 256 && Sizes(sl)
      reads code
    {
      forall k {:trigger code[k]} :: 0 <= k < n ==> code[k] == Code(sl, k) % 0x1_0000
    }

    ghost predicate Accelerated(sl: seq<nat>, n: nat)
      requires Shape() && n <= |sl| <= 256
      reads fast
    {
      forall c {:trigger fast[c]} :: 0 <= c < 512 ==> fast[c] == FastEntry(sl, n, c)
    }

    // The tables decode the code with lengths `sl`.
    ghost predicate Represents(sl: seq<nat>)
      reads fast, size, maxcode, delta
    {
      && Shape() && Sizes(sl) && Fits(sl) && Sized(sl)
      && Levels(sl, 17) && maxcode[17] == 0xFFFF_FFFF
      && Accelerated(sl, |sl|)
    }

    // Succeeds exactly for at most 256 symbols whose codes fit their lengths.
    method Build(count: seq<nat>) returns (ok: bool)
      requires Shape() && |count| == 16
      modifies fast, code, size, maxcode, delta
      ensures ok <==> |Listed(count, 16)| <= 256 && Fits(Listed(count, 16))
      ensures ok ==> Represents(Listed(count, 16))
    {
      ghost var sl := Listed(count, 16);
      ok := BuildSizes(count);
      if !ok {
        return;
      }
      var k;
      ok, k := BuildCodes(sl);
      if !ok {
        return;
      }
      maxcode[17] := 0xFFFF_FFFF;
      BuildFast(sl, k);
    }

    method BuildSizes(count: seq<nat>) returns (ok: bool)
      requires Shape() && |count| == 16
      modifies size
      ensures ok <==> |Listed(count, 16)| <= 256
      ensures ok ==> Sized(Listed(count, 16))
    {
      hide Listed;
      var k := 0;
      ListedStart(count);
      for i := 0 to 16
        invariant k == |Listed(count, i)| <= 256 && size[..k] == Listed(count, i)
      {
        ListedStep(count, i);
        ListedGrows(count, i + 1, 16);
        for j := 0 to count[i]
          invariant k == |Listed(count, i)| + j <= 256 && size[..k] == Listed(count, i) + Repeat(i + 1, j)
        {
          size[k] := i + 1;
          k := k + 1;
          assert Repeat(i + 1, j + 1) == Repeat(i + 1, j) + [i + 1];
          if k >= 257 {
            return false;
          }
        }
      }
      size[k] := 0;
      ok := true;
      ListedSizes(count);
    }

    // Assigns the codes level by level.
    method BuildCodes(ghost sl: seq<nat>) returns (ok: bool, k: nat)
      requires Shape() && Sized(sl)
      modifies code, maxcode, delta
      ensures ok <==> Fits(sl)
      ensures ok ==> k == |sl| && Levels(sl, 17) && Coded(sl, |sl|)
    {
      hide Shl, FirstCode, EndCode, FirstSymbol, Count, Code;
      var next := 0;
      k := 0;
      Level(sl, 1);
      for j := 1 to 17
        invariant next == FirstCode(sl, j) && k == FirstSymbol(sl, j) <= |sl|
        invariant forall t :: 1 <= t < j ==> FitsAt(sl, t)
        invariant Levels(sl, j) && Coded(sl, k)
      {
        Level(sl, j);
        RunsEnd(sl, j + 1);
        delta[j] := k - next;
        if size[k] == j {
          k, next := CodeLevel(sl, j, k, next);
          if next - 1 >= Pow2(j) {
            assert !FitsAt(sl, j);
            return false, k;
          }
        } else {
          NoneOfLength(sl, j, k);
        }
        assert FitsAt(sl, j);
        maxcode[j] := Shl(next, 16 - j);
        next := 2 * next;
      }
      RunsEnd(sl, 17);
      ok := true;
    }

    lemma NoneOfLength(sl: seq<nat>, j: nat, k: nat)
      requires Shape() && Sized(sl) && 1 <= j <= 16 && k == FirstSymbol(sl, j) && k <= |sl| && size[k] != j
      ensures Count(sl, j) == 0
    {
      InRun(sl, j, k);
    }

    // Codes the symbols of length `j`, the first of which is `from`.
    method CodeLevel(ghost sl: seq<nat>, j: nat, from: nat, first: nat) returns (k: nat, next: nat)
      requires Shape() && Sized(sl) && 1 <= j <= 16
      requires from == FirstSymbol(sl, j) && first == FirstCode(sl, j) && from < 257 && size[from] == j && from <= |sl|
      requires Coded(sl, from)
      modifies code
      ensures k == from + Count(sl, j) <= |sl| && next == first + Count(sl, j) && Count(sl, j) > 0
      ensures Coded(sl, k)
    {
      hide Shl, FirstCode, EndCode, FirstSymbol, Count, Rank;
      k, next := from, first;
      Level(sl, j);
      RunsEnd(sl, j + 1);
      InRun(sl, j, k);
      while size[k] == j
        invariant from <= k <= from + Count(sl, j) && next == first + (k - from) && Coded(sl, k)
        decreases 257 - k
      {
        InRun(sl, j, k);
        SortedIndex(sl, k);
        code[k] := next % 0x1_0000;
        k := k + 1;
        next := next + 1;
      }
      InRun(sl, j, k);
    }

    lemma InRun(sl: seq<nat>, j: nat, k: nat)
      requires Shape() && Sized(sl) && 1 <= j <= 16 && k <= |sl|
      ensures size[k] == j <==> FirstSymbol(sl, j) <= k < FirstSymbol(sl, j) + Count(sl, j)
      ensures size[k] == j ==> k < |sl| && sl[k] == j
    {
      RunsEnd(sl, j + 1);
      Level(sl, j);
      if k < |sl| {
        assert size[k] == sl[k];
        RunOfLength(sl, j, k);
      }
    }

    // Enters every short code into the fast table.
    method BuildFast(ghost sl: seq<nat>, k: nat)
      requires k == |sl| && Shape() && Sized(sl) && Fits(sl) && Coded(sl, |sl|)
      modifies fast
      ensures Accelerated(sl, |sl|)
    {
      hide Shl, Shr, FirstCode, EndCode, FirstSymbol, Count, Code, Fits;
      for c := 0 to 512
        invariant forall b :: 0 <= b < c ==> fast[b] == 255
      {
        fast[c] := 255;
      }
      for i := 0 to k
        invariant Accelerated(sl, i)
      {
        InList(sl, i);
        if size[i] <= FAST_BITS {
          CodeInTable(sl, i);
          EnterCode(sl, i, Shl(code[i], FAST_BITS - size[i]), Pow2(FAST_BITS - size[i]));
        } else {
          SkipCode(sl, i);
        }
      }
    }

    lemma InList(sl: seq<nat>, i: nat)
      requires Shape() && Sized(sl) && i < |sl|
      ensures size[i] == sl[i] >= 1
    {
      assert size[..|sl|][i] == sl[i];
    }

    lemma SkipCode(sl: seq<nat>, i: nat)
      requires Shape() && i < |sl| <= 256 && sl[i] > FAST_BITS && Accelerated(sl, i)
      ensures Accelerated(sl, i + 1)
    {
    }

    // Symbol `i` gets the run of `m` entries from `c` on.
    method EnterCode(ghost sl: seq<nat>, i: nat, c: nat, m: nat)
      requires Shape() && Sizes(sl) && i < |sl| && sl[i] <= FAST_BITS && Accelerated(sl, i)
      requires c == Shl(Code(sl, i), FAST_BITS - sl[i]) && m == Pow2(FAST_BITS - sl[i]) && c + m <= 512
      modifies fast
      ensures Accelerated(sl, i + 1)
    {
      hide Shl, Code, Hits, Pow2;
      for j := 0 to m
        invariant forall b {:trigger fast[b]} :: 0 <= b < 512 ==>
          fast[b] == if c <= b < c + j then i else FastEntry(sl, i, b)
      {
        fast[c + j] := i;
      }
      forall b | 0 <= b < 512
        ensures fast[b] == FastEntry(sl, i + 1, b)
      {
        HitsRun(sl, i, b);
      }
    }
  }

  lemma CodeInTable(sl: seq<nat>, i: nat)
    requires Sizes(sl) && Fits(sl) && i < |sl| && sl[i] <= FAST_BITS
    ensures Code(sl, i) < Pow2(sl[i]) && Code(sl, i) < 0x1_0000
    ensures Shl(Code(sl, i), FAST_BITS - sl[i]) + Pow2(FAST_BITS - sl[i]) <= 512
  {
    var s := sl[i];
    RankBounds(sl, i);
    assert FitsAt(sl, s);
    Pow2Monotone(s, FAST_BITS);
    Pow2Small();
    Pow2Shl(s, FAST_BITS - s);
    ShlMonotone(Code(sl, i) + 1, Pow2(s), FAST_BITS - s);
    ShiftsAreArithmetic(Code(sl, i), FAST_BITS - s);
    ShiftsAreArithmetic(Code(sl, i) + 1, FAST_BITS - s);
    assert (Code(sl, i) + 1) * Pow2(FAST_BITS - s) == Code(sl, i) * Pow2(FAST_BITS - s) + Pow2(FAST_BITS - s);
  }

  lemma ListedStart(count: seq<nat>)
    ensures Listed(count, 0) == []
  {
  }

  lemma ListedStep(count: seq<nat>, i: nat)
    requires i < |count|
    ensures Listed(count, i + 1) == Listed(count, i) + Repeat(i + 1, count[i])
  {
  }

  lemma ListedSizes(count: seq<nat>)
    requires |count| == 16 && |Listed(count, 16)| <= 256
    ensures Sizes(Listed(count, 16))
  {
  }
}