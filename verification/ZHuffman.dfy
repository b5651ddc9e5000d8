// The decoding tables of one DEFLATE Huffman code.
module ZHuffman {
  import opened Bits
  import opened BitReverse
  import opened CanonicalCode

  const FAST_BITS := 9

  // What the fast table holds for input `x` once `n` symbols are entered.
  function FastEntry(sl: seq<nat>, n: nat, x: nat): nat
    requires n <= |sl|
  {
    var r := SymbolAt(sl, n, x);
    if r >= 0 && sl[r] <= FAST_BITS then sl[r] * 512 + r else 0
  }

  // A new symbol changes exactly the entries whose input starts with its code.
  lemma FastEntryStep(sl: seq<nat>, n: nat, x: nat)
    requires n < |sl|
    ensures FastEntry(sl, n + 1, x) ==
            if sl[n] <= FAST_BITS && Match(sl, n, x) then sl[n] * 512 + n else FastEntry(sl, n, x)
  {
    var r := SymbolAt(sl, n, x);
    if r >= 0 && Match(sl, n, x) {
      PrefixFree(sl, x, r, n);
    }
  }

  class Tables {
    const fast: array<nat>
    const firstcode: array<nat>
    const maxcode: array<nat>
    const firstsymbol: array<nat>
    const size: array<nat>
    const value: array<nat>

    ghost predicate Shape() {
      && fast.Length == 512 && firstcode.Length == 16 && maxcode.Length == 17
      && firstsymbol.Length == 16 && size.Length == MAX_SYMBOLS && value.Length == MAX_SYMBOLS
      && fast != firstcode && fast != maxcode && fast != firstsymbol && fast != size && fast != value
      && firstcode != maxcode && firstcode != firstsymbol && firstcode != size && firstcode != value
      && maxcode != firstsymbol && maxcode != size && maxcode != value
      && firstsymbol != size && firstsymbol != value && size != value
    }

    constructor ()
      ensures Shape()
      ensures fresh(fast) && fresh(firstcode) && fresh(maxcode) && fresh(firstsymbol) && fresh(size) && fresh(value)
    {
      fast := new nat[512];
      firstcode := new nat[16];
      maxcode := new nat[17];
      firstsymbol := new nat[16];
      size := new nat[MAX_SYMBOLS];
      value := new nat[MAX_SYMBOLS];
    }

    // The levels below `n` are those of the code.
    ghost predicate Levels(sl: seq<nat>, n: nat)
      requires Shape() && n <= 16
      reads firstcode, maxcode, firstsymbol
    {
      forall s {:trigger firstcode[s]} {:trigger firstsymbol[s]} {:trigger maxcode[s]} :: 1 <= s < n ==>
        && firstcode[s] == FirstCode(sl, s)
        && firstsymbol[s] == FirstSymbol(sl, s)
        && maxcode[s] == Shl(EndCode(sl, s), 16 - s)
    }

    // The first `n` symbols stand in the list sorted by code length.
    ghost predicate Entered(sl: seq<nat>, n: nat)
      requires Shape() && Lengths(sl) && n <= |sl|
      reads size, value
    {
      forall i {:trigger Index(sl, i)} :: 0 <= i < n && sl[i] >= 1 ==>
        Index(sl, i) < MAX_SYMBOLS && size[Index(sl, i)] == sl[i] && value[Index(sl, i)] == i
    }

    ghost predicate Accelerated(sl: seq<nat>, n: nat)
      requires Shape() && n <= |sl|
      reads fast
    {
      forall x {:trigger fast[x]} :: 0 <= x < 512 ==> fast[x] == FastEntry(sl, n, x)
    }

    // The tables decode the canonical code with lengths `sl`.
    ghost predicate Represents(sl: seq<nat>)
      reads fast, firstcode, maxcode, firstsymbol, size, value
    {
      && Shape() && Lengths(sl) && Accepted(sl)
      && Levels(sl, 16) && maxcode[16] == 0x1_0000
      && Entered(sl, |sl|)
      && Accelerated(sl, |sl|)
    }

    method Build(sl: seq<nat>) returns (ok: bool)
      requires Shape() && Lengths(sl)
      modifies fast, firstcode, maxcode, firstsymbol, size, value
      ensures ok <==> Accepted(sl)
      ensures ok ==> Represents(sl)
    {
      var sizes := CountSizes(sl);
      for x := 0 to 512
        invariant forall y :: 0 <= y < x ==> fast[y] == 0
        invariant forall s {:trigger sizes[s]} :: 1 <= s < 16 ==> sizes[s] == Count(sl, s)
      {
        fast[x] := 0;
      }
      for s := 1 to 16
      {
        if sizes[s] > Pow2(s) {
          assert !FitsAt(sl, s);
          return false;
        }
      }
      var nextCode;
      ok, nextCode := BuildLevels(sl, sizes);
      if ok {
        maxcode[16] := 0x1_0000;
        EnterSymbols(sl, nextCode);
      }
    }

    method CountSizes(sl: seq<nat>) returns (sizes: array<nat>)
      requires Lengths(sl)
      ensures fresh(sizes) && sizes.Length == 17
      ensures forall s {:trigger sizes[s]} :: 1 <= s < 16 ==> sizes[s] == Count(sl, s)
    {
      sizes := new nat[17](_ => 0);
      for i := 0 to |sl|
        invariant forall s :: 0 <= s < 16 ==> sizes[s] == Count(sl[..i], s)
      {
        forall s | 0 <= s < 16
          ensures Count(sl[..i + 1], s) == Count(sl[..i], s) + if sl[i] == s then 1 else 0
        {
          CountStep(sl, i, s);
        }
        sizes[sl[i]] := sizes[sl[i]] + 1;
      }
      assert sl[..|sl|] == sl;
      sizes[0] := 0;
    }

    method BuildLevels(sl: seq<nat>, sizes: array<nat>) returns (ok: bool, nextCode: array<nat>)
      requires Shape() && Lengths(sl) && sizes.Length == 17
      requires sizes != firstcode && sizes != maxcode && sizes != firstsymbol
      requires forall s {:trigger sizes[s]} :: 1 <= s < 16 ==> sizes[s] == Count(sl, s)
      modifies firstcode, maxcode, firstsymbol
      ensures fresh(nextCode) && nextCode.Length == 16
      ensures ok <==> Accepted(sl)
      ensures ok ==> Levels(sl, 16)
      ensures ok ==> forall s {:trigger nextCode[s]} :: 1 <= s < 16 ==> nextCode[s] == FirstCode(sl, s)
    {
      hide FirstCode, EndCode, FirstSymbol, Count, Shl, Pow2;
      nextCode := new nat[16];
      var code, k := 0, 0;
      Level(sl, 1);
      for s := 1 to 16
        invariant code == FirstCode(sl, s) && k == FirstSymbol(sl, s)
        invariant forall t :: 1 <= t < s ==> FitsAt(sl, t)
        invariant Levels(sl, s)
        invariant forall t {:trigger nextCode[t]} :: 1 <= t < s ==> nextCode[t] == FirstCode(sl, t)
        invariant forall t {:trigger sizes[t]} :: 1 <= t < 16 ==> sizes[t] == Count(sl, t)
      {
        Level(sl, s);
        nextCode[s] := code;
        firstcode[s] := code;
        firstsymbol[s] := k;
        code := code + sizes[s];
        assert code == EndCode(sl, s) && sizes[s] == Count(sl, s);
        if sizes[s] > 0 && code - 1 >= Pow2(s) {
          assert !FitsAt(sl, s);
          return false, nextCode;
        }
        maxcode[s] := Shl(code, 16 - s);
        assert FitsAt(sl, s);
        code := 2 * code;
        k := k + sizes[s];
        assert code == FirstCode(sl, s + 1) && k == FirstSymbol(sl, s + 1);
      }
      ok := true;
    }

    method EnterSymbols(sl: seq<nat>, nextCode: array<nat>)
      requires Shape() && Lengths(sl) && Accepted(sl) && Levels(sl, 16)
      requires nextCode.Length == 16
      requires nextCode != fast && nextCode != size && nextCode != value
      requires nextCode != firstcode && nextCode != firstsymbol && nextCode != maxcode
      requires forall s {:trigger nextCode[s]} :: 1 <= s < 16 ==> nextCode[s] == FirstCode(sl, s)
      requires forall x :: 0 <= x < 512 ==> fast[x] == 0
      modifies fast, size, value, nextCode
      ensures Entered(sl, |sl|) && Accelerated(sl, |sl|)
    {
      for i := 0 to |sl|
        invariant forall s {:trigger nextCode[s]} :: 1 <= s < 16 ==> nextCode[s] == FirstCode(sl, s) + Count(sl[..i], s)
        invariant Levels(sl, 16)
        invariant Entered(sl, i)
        invariant Accelerated(sl, i)
      {
        forall t {:trigger Count(sl[..i + 1], t)} | 1 <= t < 16
          ensures Count(sl[..i + 1], t) == Count(sl[..i], t) + if sl[i] == t then 1 else 0
        {
          CountStep(sl, i, t);
        }
        var s := sl[i];
        if s != 0 {
          EnterSymbol(sl, i, nextCode[s], nextCode[s] - firstcode[s] + firstsymbol[s]);
          nextCode[s] := nextCode[s] + 1;
        } else {
          SkipSymbol(sl, i);
        }
      }
    }

    // Symbol `i` has code `code` and stands at place `c` of the sorted list.
    method EnterSymbol(sl: seq<nat>, i: nat, code: nat, c: nat)
      requires Shape() && Lengths(sl) && Accepted(sl)
      requires i < |sl| && sl[i] >= 1 && code == Code(sl, i) && c == Index(sl, i)
      requires Entered(sl, i) && Accelerated(sl, i)
      modifies fast, size, value
      ensures Entered(sl, i + 1) && Accelerated(sl, i + 1)
    {
      var s := sl[i];
      IndexBound(sl, i);
      forall j | 0 <= j < i && sl[j] >= 1
        ensures Index(sl, j) != c
      {
        IndexInjective(sl, j, i);
      }
      size[c] := s;
      value[c] := i;
      if s <= FAST_BITS {
        CodeFits(sl, i);
        EnterFast(code, s, s * 512 + i);
      }
      forall x | 0 <= x < 512
        ensures fast[x] == FastEntry(sl, i + 1, x)
      {
        FastEntryStep(sl, i, x);
      }
    }

    lemma SkipSymbol(sl: seq<nat>, i: nat)
      requires Shape() && Lengths(sl) && i < |sl| && sl[i] == 0
      requires Entered(sl, i) && Accelerated(sl, i)
      ensures Entered(sl, i + 1) && Accelerated(sl, i + 1)
    {
      forall x | 0 <= x < 512
        ensures fast[x] == FastEntry(sl, i + 1, x)
      {
        FastEntryStep(sl, i, x);
      }
    }

    // Repeats `entry` at every index whose low bits are the reversed code.
    method EnterFast(c: nat, s: nat, entry: nat)
      requires Shape() && 1 <= s <= FAST_BITS && c < Pow2(s)
      modifies fast
      ensures forall x :: 0 <= x < 512 ==> fast[x] == if Rev(x, s) == c then entry else old(fast[x])
    {
      ReverseIsRev(c, s);
      var j := Reverse(c, s);
      LowOfSmall(j, s);
      forall x | 0 <= x < j
        ensures Low(x, s) != Rev(c, s)
      {
        if Low(x, s) == Low(j, s) {
          SameLow(x, j, s);
        }
      }
      while j < 512
        invariant Low(j, s) == Rev(c, s)
        invariant forall x :: 0 <= x < 512 ==>
          fast[x] == if x < j && Low(x, s) == Rev(c, s) then entry else old(fast[x])
        decreases 512 - j
      {
        fast[j] := entry;
        forall x | j < x < j + Pow2(s)
          ensures Low(x, s) != Rev(c, s)
        {
          if Low(x, s) == Low(j, s) {
            SameLow(j, x, s);
          }
        }
        LowPeriod(j, s);
        j := j + Pow2(s);
      }
      forall x | 0 <= x < 512
        ensures Rev(x, s) == c <==> Low(x, s) == Rev(c, s)
      {
        RevClass(x, s, c);
      }
    }
  }
}
