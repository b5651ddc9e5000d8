// Reading DEFLATE codes from a byte string through a bit buffer.
module BitReader {
  import opened Bits
  import opened BitReverse
  import opened CanonicalCode
  import opened ZHuffman

  // ---- which symbol comes next at a stream position ------------------------

  // The code of symbol `i`, highest bit first, is written at bit `pos`.
  predicate CodeAt(sl: seq<nat>, i: nat, f: Stream, pos: nat)
    requires i < |sl|
  {
    Match(sl, i, Peek(f, pos, sl[i]))
  }

  // The symbol whose code is written at bit `pos`, or -1.
  function NextSymbol(sl: seq<nat>, f: Stream, pos: nat): (r: int)
    ensures -1 <= r < |sl|
  {
    SearchSymbol(sl, |sl|, f, pos)
  }

  function SearchSymbol(sl: seq<nat>, n: nat, f: Stream, pos: nat): (r: int)
    requires n <= |sl|
    ensures -1 <= r < n
  {
    if n == 0 then -1
    else if CodeAt(sl, n - 1, f, pos) then n - 1
    else SearchSymbol(sl, n - 1, f, pos)
  }

  lemma {:induction false} SearchSymbolFinds(sl: seq<nat>, n: nat, f: Stream, pos: nat)
    requires n <= |sl|
    ensures var r := SearchSymbol(sl, n, f, pos);
            if r >= 0 then CodeAt(sl, r, f, pos)
            else forall i :: 0 <= i < n ==> !CodeAt(sl, i, f, pos)
  {
    if n > 0 {
      SearchSymbolFinds(sl, n - 1, f, pos);
    }
  }

  lemma MatchLow(sl: seq<nat>, i: nat, x: nat, y: nat)
    requires i < |sl| && Low(x, sl[i]) == Low(y, sl[i])
    ensures Match(sl, i, x) <==> Match(sl, i, y)
  {
    RevLow(x, sl[i]);
    RevLow(y, sl[i]);
  }

  // A window of at least `sl[i]` bits shows whether symbol `i` comes next.
  lemma CodeInWindow(sl: seq<nat>, i: nat, f: Stream, pos: nat, n: nat)
    requires i < |sl| && sl[i] <= n
    ensures CodeAt(sl, i, f, pos) <==> Match(sl, i, Peek(f, pos, n))
  {
    PeekDrop(f, pos, n, sl[i]);
    PeekDrop(f, pos, sl[i], sl[i]);
    MatchLow(sl, i, Peek(f, pos, n), Peek(f, pos, sl[i]));
  }

  // Any window of at least 15 bits shows the next symbol.
  lemma NextInWindow(sl: seq<nat>, f: Stream, pos: nat, n: nat)
    requires Lengths(sl) && n >= MAX_BITS
    ensures Next(sl, Peek(f, pos, n)) == NextSymbol(sl, f, pos)
  {
    var x := Peek(f, pos, n);
    var r, r' := Next(sl, x), NextSymbol(sl, f, pos);
    SearchSymbolFinds(sl, |sl|, f, pos);
    if r >= 0 {
      CodeInWindow(sl, r, f, pos, n);
    }
    if r' >= 0 {
      CodeInWindow(sl, r', f, pos, n);
    }
    if r >= 0 && r' >= 0 {
      PrefixFree(sl, x, r, r');
    }
  }

  // ---- the two stages of decoding ------------------------------------------

  // A nonzero fast entry names the next symbol and its length.
  lemma FastHit(sl: seq<nat>, x: nat)
    requires Lengths(sl) && FastEntry(sl, |sl|, Low(x, FAST_BITS)) != 0
    ensures var b := FastEntry(sl, |sl|, Low(x, FAST_BITS));
            var r := Next(sl, x);
            r >= 0 && b % 512 == r && b / 512 == sl[r]
  {
    var low := Low(x, FAST_BITS);
    var r := SymbolAt(sl, |sl|, low);
    LowLow(x, sl[r], FAST_BITS);
    MatchLow(sl, r, x, low);
    PrefixFree(sl, x, r, Next(sl, x));
    DivMod512(sl[r], r);
  }

  lemma DivMod512(s: nat, r: nat)
    requires r < 512
    ensures (s * 512 + r) % 512 == r && (s * 512 + r) / 512 == s
  {
  }

  // A zero fast entry means that no short code comes next.
  lemma FastMiss(sl: seq<nat>, x: nat, i: nat)
    requires FastEntry(sl, |sl|, Low(x, FAST_BITS)) == 0
    requires i < |sl| && Match(sl, i, x)
    ensures sl[i] > FAST_BITS
  {
    if sl[i] <= FAST_BITS {
      var low := Low(x, FAST_BITS);
      LowLow(x, sl[i], FAST_BITS);
      MatchLow(sl, i, x, low);
      PrefixFree(sl, low, i, SymbolAt(sl, |sl|, low));
    }
  }

  // The comparison of the slow path, on 16 reversed bits against a bound shifted
  // to 16 bits, compares the first `s` bits with the end of the codes.
  lemma SlowCompare(sl: seq<nat>, x: nat, n: nat, s: nat)
    requires 1 <= s <= n
    ensures Rev(x, n) < Shl(EndCode(sl, s), n - s) <==> Rev(x, s) < EndCode(sl, s)
    ensures Shr(Rev(x, n), n - s) == Rev(x, s)
  {
    RevPrefix(x, n, s);
    ShrBelow(Rev(x, n), EndCode(sl, s), n - s);
  }

  // The first length at which the input is below the end has the next symbol.
  lemma SlowHit(sl: seq<nat>, x: nat, s: nat) returns (i: nat)
    requires FAST_BITS < s <= MAX_BITS && Rev(x, s) < EndCode(sl, s)
    requires forall t :: FAST_BITS < t < s ==> Rev(x, t) >= EndCode(sl, t)
    requires FastEntry(sl, |sl|, Low(x, FAST_BITS)) == 0
    ensures i < |sl| && Match(sl, i, x) && sl[i] == s && Next(sl, x) == i
  {
    i := BelowEndHasMatch(sl, x, s);
    FastMiss(sl, x, i);
    MatchIsBelowEnd(sl, x, i, sl[i]);
    PrefixFree(sl, x, i, Next(sl, x));
  }

  lemma SlowMiss(sl: seq<nat>, x: nat)
    requires Lengths(sl)
    requires forall t :: FAST_BITS < t <= MAX_BITS ==> Rev(x, t) >= EndCode(sl, t)
    requires FastEntry(sl, |sl|, Low(x, FAST_BITS)) == 0
    ensures Next(sl, x) == -1
  {
    var r := Next(sl, x);
    if r >= 0 {
      FastMiss(sl, x, r);
      MatchIsBelowEnd(sl, x, r, sl[r]);
    }
  }

  class Reader {
    const data: seq<Byte>
    var zbuffer: nat
    var numBits: nat
    var codeBuffer: nat
    var hitZeofOnce: bool
    // How many bits of the stream have been consumed.
    ghost var pos: nat
    // The data as a stream of bits.
    ghost const stream: Stream

    ghost predicate Valid()
      reads this
    {
      && StreamOf(stream, data)
      && zbuffer <= |data| && numBits < 33
      && codeBuffer == Peek(stream, pos, numBits)
      && (zbuffer < |data| ==> pos + numBits == 8 * zbuffer)
      && (zbuffer == |data| ==> pos + numBits >= 8 * |data|)
      && (hitZeofOnce ==> zbuffer == |data| && pos + numBits >= 8 * |data| + 16)
    }

    constructor (input: seq<Byte>)
      ensures Valid() && data == input && pos == 0 && !hitZeofOnce
    {
      data := input;
      stream := (k: nat) => Bit(input, k);
      zbuffer, numBits, codeBuffer, hitZeofOnce, pos := 0, 0, 0, false, 0;
    }

    predicate Zeof()
      reads this
    {
      zbuffer >= |data|
    }

    method Get8() returns (b: Byte)
      requires zbuffer <= |data|
      modifies this`zbuffer
      ensures b == ByteAt(data, old(zbuffer))
      ensures zbuffer == if old(zbuffer) < |data| then old(zbuffer) + 1 else old(zbuffer)
    {
      if Zeof() {
        b := 0;
      } else {
        b := data[zbuffer];
        zbuffer := zbuffer + 1;
      }
    }

    // Buffers bytes until more than 24 bits are held.
    method FillBits()
      requires Valid() && numBits <= 24
      modifies this`zbuffer, this`codeBuffer, this`numBits
      ensures Valid() && 24 < numBits
    {
      while true
        invariant Valid() && numBits <= 24
        decreases 24 - numBits
      {
        PeekBound(stream, pos, numBits);
        // A buffer with bits above numBits counts as the end of input.
        assert codeBuffer < Pow2(numBits);
        PeekAppend(stream, data, pos, numBits, zbuffer);
        var b := Get8();
        codeBuffer := codeBuffer + Shl(b, numBits);
        numBits := numBits + 8;
        if numBits > 24 {
          return;
        }
      }
    }

    // Drops `n` buffered bits.
    method Consume(n: nat)
      requires Valid() && n <= numBits
      modifies this`codeBuffer, this`numBits, this`pos
      ensures Valid() && pos == old(pos) + n && numBits == old(numBits) - n
    {
      PeekDrop(stream, pos, numBits, n);
      codeBuffer := Shr(codeBuffer, n);
      numBits := numBits - n;
      pos := pos + n;
    }

    // Reads an `n`-bit number, lowest bit first.
    method Receive(n: nat) returns (k: nat)
      requires Valid() && n < 25
      modifies this`zbuffer, this`codeBuffer, this`numBits, this`pos
      ensures Valid() && pos == old(pos) + n && k == Peek(stream, old(pos), n)
    {
      if numBits < n {
        FillBits();
      }
      PeekDrop(stream, pos, numBits, n);
      k := Low(codeBuffer, n);
      Consume(n);
    }

    // Makes sure of 16 buffered bits. At the end of the input 16 zero bits are
    // added, once; asking again after they are used up fails.
    method Refill() returns (more: bool)
      requires Valid()
      modifies this`zbuffer, this`codeBuffer, this`numBits, this`hitZeofOnce
      ensures Valid()
      ensures more ==> numBits >= 16
      ensures !more ==> pos > 8 * |data|
    {
      more := true;
      if numBits < 16 {
        if Zeof() {
          if !hitZeofOnce {
            hitZeofOnce := true;
            PeekPad(stream, data, pos, numBits, 16);
            numBits := numBits + 16;
          } else {
            more := false;
          }
        } else {
          FillBits();
        }
      }
    }

    // The next symbol of the code `sl`, or -1. Within the input the answer is
    // the one the code defines; it is refused only after reading past the end.
    method Decode(h: Tables, ghost sl: seq<nat>) returns (r: int)
      requires Valid() && h.Represents(sl)
      modifies this
      ensures Valid()
      ensures r == NextSymbol(sl, stream, old(pos)) || (r == -1 && old(pos) > 8 * |data|)
      ensures pos == old(pos) + if r >= 0 then sl[r] else 0
    {
      var more := Refill();
      if !more {
        return -1;
      }
      NextInWindow(sl, stream, pos, numBits);
      var low := Index512(codeBuffer);
      var b := h.fast[low];
      assert b == FastEntry(sl, |sl|, low);
      if b != 0 {
        FastHit(sl, codeBuffer);
        Consume(b / 512);
        return b % 512;
      }
      r := DecodeSlowPath(h, sl);
    }

    method DecodeSlowPath(h: Tables, ghost sl: seq<nat>) returns (r: int)
      requires Valid() && h.Represents(sl) && numBits >= 16
      requires FastEntry(sl, |sl|, Low(codeBuffer, FAST_BITS)) == 0
      modifies this`codeBuffer, this`numBits, this`pos
      ensures Valid()
      ensures r == Next(sl, old(codeBuffer))
      ensures pos == old(pos) + if r >= 0 then sl[r] else 0
    {
      var k := Reverse(codeBuffer, 16);
      ReverseIsRev(codeBuffer, 16);
      ghost var x := codeBuffer;
      var s := SearchLength(h, sl, k, x);
      if s >= 16 {
        SlowMiss(sl, x);
        return -1;
      }
      ghost var i := SlowHit(sl, x, s);
      var b := Shr(k, 16 - s) - h.firstcode[s] + h.firstsymbol[s];
      // A place outside the list, or of another length, is refused too.
      assert b == Index(sl, i) && b < MAX_SYMBOLS && h.size[b] == s;
      r := h.value[b];
      Consume(s);
    }

    // The first length above the fast ones at which `k` is below the bound; 16
    // when there is none.
    method SearchLength(h: Tables, ghost sl: seq<nat>, k: nat, ghost x: nat) returns (s: nat)
      requires h.Represents(sl) && k == Rev(x, 16)
      ensures FAST_BITS < s <= 16
      ensures forall t :: FAST_BITS < t < s ==> Rev(x, t) >= EndCode(sl, t)
      ensures s < 16 ==> Rev(x, s) < EndCode(sl, s) && Shr(k, 16 - s) == Rev(x, s)
    {
      hide FastEntry, Tables.Entered, Tables.Accelerated, Count;
      assert k < 0x1_0000 by {
        Pow2Small();
      }
      s := FAST_BITS + 1;
      while k >= h.maxcode[s]
        invariant FAST_BITS < s <= 16
        invariant forall t :: FAST_BITS < t < s ==> Rev(x, t) >= EndCode(sl, t)
        decreases 16 - s
      {
        SlowCompare(sl, x, 16, s);
        s := s + 1;
      }
      if s < 16 {
        SlowCompare(sl, x, 16, s);
      }
    }
  }

  function Index512(x: nat): (k: nat)
    ensures k == Low(x, FAST_BITS) && k < 512
  {
    Pow2Small();
    Low(x, FAST_BITS)
  }
}
