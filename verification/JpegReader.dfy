// Reading JPEG coefficients: Huffman codes, magnitudes, and the table that
// decodes short pairs of both at once.
module JpegReader {
  import opened Bits
  import opened CanonicalCode
  import opened JpegCode
  import opened JpegHuffman
  import opened JpegBits

  // ---- the reference -------------------------------------------------------

  // The signed value that `n` bits `x` stand for (section F.2.2.1 of ITU-T T.81).
  function Extend(x: int, n: nat): int {
    if n == 0 then 0
    else if x < Pow2(n - 1) then x - Pow2(n) + 1
    else x
  }

  // One step of an AC block: nothing decodable, a value that ends the block,
  // sixteen zeros, or zeros and a coefficient.
  datatype Step = NoCode | EndOfBlock | Skip16 | Coefficient(run: nat, value: int)

  // What stands at bit `pos`, and how many bits it takes.
  datatype Found = Found(step: Step, bits: nat)

  function Next16(sl: seq<nat>, f: Stream, pos: nat): (r: int)
    ensures -1 <= r < |sl|
  {
    NextOf(sl, V(f, pos, 16))
  }

  // The step that begins with symbol `i`, whose code takes `len` bits.
  function StepFrom(i: int, len: nat, values: seq<Byte>, f: Stream, pos: nat): Found
    requires i < 256 == |values|
  {
    if i < 0 then Found(NoCode, 0)
    else
      var run, mag := values[i] / 16, values[i] % 16;
      if mag == 0 then Found(if values[i] == 0xF0 then Skip16 else EndOfBlock, len)
      else Found(Coefficient(run, Extend(V(f, pos + len, mag), mag)), len + mag)
  }

  function Reference(sl: seq<nat>, values: seq<Byte>, f: Stream, pos: nat): Found
    requires |sl| <= 256 == |values|
  {
    var i := Next16(sl, f, pos);
    StepFrom(i, if i < 0 then 0 else sl[i], values, f, pos)
  }

  // The step as the two stages of decoding see it.
  function Seen(sl: seq<nat>, values: seq<Byte>, f: Stream, pos: nat): Found
    requires |sl| <= 256 == |values|
  {
    var code := FastThenSlow(sl, V(f, pos, 16));
    StepFrom(code.0, code.1, values, f, pos)
  }

  lemma SeenIsReference(sl: seq<nat>, values: seq<Byte>, f: Stream, pos: nat)
    requires Sizes(sl) && |values| == 256 && LastIsLong(sl)
    ensures Seen(sl, values, f, pos) == Reference(sl, values, f, pos)
  {
    hide V, Pow2, NextOf, FastThenSlow;
    WindowTop(f, pos);
    StagesAgree(sl, V(f, pos, 16));
  }

  // ---- the combined table --------------------------------------------------

  function Packed(run: nat, value: int, bits: nat): int {
    value * 256 + run * 16 + bits
  }

  // The bits behind the code in the nine bits `c`.
  function Magnitude(c: nat, len: nat, mag: nat): nat
    requires len + mag <= FAST_BITS
  {
    Shr(Low(c, FAST_BITS - len), FAST_BITS - len - mag)
  }

  // What the combined table holds for the nine bits `c`: 0 for nothing.
  function FastAc(sl: seq<nat>, values: seq<Byte>, c: nat): int
    requires |sl| <= 256 == |values|
  {
    var e := FastEntry(sl, |sl|, c);
    if e == 255 then 0
    else
      var run, mag, len := values[e] / 16, values[e] % 16, sl[e];
      if mag == 0 || len + mag > FAST_BITS then 0
      else
        var k := Extend(Magnitude(c, len, mag), mag);
        if -128 <= k <= 127 then Packed(run, k, len + mag) else 0
  }

  lemma Unpack(run: nat, value: int, bits: nat)
    requires run < 16 && bits < 16
    ensures var r := Packed(run, value, bits);
            r % 16 == bits && r / 16 % 16 == run && r / 256 == value
  {
    var r := Packed(run, value, bits);
    assert r == 16 * (value * 16 + run) + bits;
    assert r / 16 == value * 16 + run;
  }

  // A nonzero entry says the same as decoding step by step.
  lemma FastAcIsReference(sl: seq<nat>, values: seq<Byte>, f: Stream, pos: nat)
    requires Sizes(sl) && |values| == 256 && FastAc(sl, values, V(f, pos, 9)) != 0
    ensures var r := FastAc(sl, values, V(f, pos, 9));
            && Reference(sl, values, f, pos) == Found(Coefficient(r / 16 % 16, r / 256), r % 16)
            && Seen(sl, values, f, pos) == Reference(sl, values, f, pos)
    ensures FastAc(sl, values, V(f, pos, 9)) % 16 <= FAST_BITS
  {
    hide V, Shr, Low, Pow2, Packed, NextOf, FastEntry;
    var c := V(f, pos, 9);
    var e := FastEntry(sl, |sl|, c);
    var len, mag := sl[e], values[e] % 16;
    WindowTop(f, pos);
    FastIsNext(sl, V(f, pos, 16));
    MagnitudeIs(f, pos, len, mag);
    Unpack(values[e] / 16, Extend(Magnitude(c, len, mag), mag), len + mag);
  }

  lemma WindowTop(f: Stream, pos: nat)
    ensures Shr(V(f, pos, 16), 7) == V(f, pos, 9) && V(f, pos, 16) < Pow2(16)
  {
    hide V, Shr, Low, Pow2;
    VParts(f, pos, 9, 7);
    VBound(f, pos, 16);
  }

  lemma MagnitudeIs(f: Stream, pos: nat, len: nat, mag: nat)
    requires len + mag <= FAST_BITS
    ensures Magnitude(V(f, pos, 9), len, mag) == V(f, pos + len, mag)
  {
    hide V, Shr, Low, Pow2;
    VParts(f, pos, len, FAST_BITS - len);
    VParts(f, pos + len, mag, FAST_BITS - len - mag);
  }

  // ---- building the combined table -----------------------------------------

  // Shifting left in nine bits and down again leaves the bits behind the code.
  lemma ShiftedMagnitude(c: nat, len: nat, mag: nat)
    requires len + mag <= FAST_BITS
    ensures Shr(Low(Shl(c, len), FAST_BITS), FAST_BITS - mag) == Magnitude(c, len, mag)
  {
    hide Shl, Shr, Low;
    LowOfShl(c, len, FAST_BITS - len);
    assert len + (FAST_BITS - len) == FAST_BITS;
    var y := Low(c, FAST_BITS - len);
    assert len + (FAST_BITS - len - mag) == FAST_BITS - mag;
    ShrAdd(Shl(y, len), len, FAST_BITS - len - mag);
    ShrShl(y, len);
  }

  method BuildFastAc(fac: array<int>, h: Huffman, ghost sl: seq<nat>)
    requires fac.Length == 512 && h.Represents(sl) && h.delta != fac
    modifies fac
    ensures forall c {:trigger fac[c]} :: 0 <= c < 512 ==> fac[c] == FastAc(sl, h.values[..], c)
  {
    hide Shl, Shr, Low, Pow2, Huffman.Levels;
    for i := 0 to 512
      invariant forall c {:trigger fac[c]} :: 0 <= c < i ==> fac[c] == FastAc(sl, h.values[..], c)
      modifies fac
    {
      var fast := h.fast[i];
      fac[i] := 0;
      if fast < 255 {
        var rs := h.values[fast];
        var run, magbits := rs / 16, rs % 16;
        h.InList(sl, fast);
        var len := h.size[fast];
        if magbits != 0 && len + magbits <= FAST_BITS {
          ShiftedMagnitude(i, len, magbits);
          var k: int := Shr(Low(Shl(i, len), FAST_BITS), FAST_BITS - magbits);
          var m := Pow2(magbits - 1);
          if k < m {
            k := k - Pow2(magbits) + 1;
          }
          if k >= -128 && k <= 127 {
            fac[i] := k * 256 + run * 16 + (len + magbits);
          }
        }
      }
    }
  }

  // ---- the reader ----------------------------------------------------------

  class Reader {
    const data: seq<Byte>
    var at: nat
    var codeBuffer: nat
    var codeBits: nat
    var nomore: bool
    // The entropy-coded bytes, how many of them have been loaded (zeros follow
    // the last one), and how many bits have been used.
    ghost const bytes: seq<Byte>
    ghost const stream: Stream
    ghost var loaded: nat
    ghost var pos: nat

    constructor (data: seq<Byte>, at: nat)
      requires at <= |data|
      ensures Valid() && this.data == data && bytes == Entropy(data, at) && pos == 0
    {
      this.data, this.at := data, at;
      codeBuffer, codeBits, nomore := 0, 0, false;
      bytes := Entropy(data, at);
      stream := BitsOf(Entropy(data, at));
      loaded, pos := 0, 0;
      new;
      ShlZero(32);
    }

    ghost predicate Valid()
      reads this
    {
      && at <= |data| && stream == BitsOf(bytes) && codeBits <= 32 && pos + codeBits == 8 * loaded
      && codeBuffer == Shl(V(stream, pos, codeBits), 32 - codeBits)
      && (if loaded <= |bytes| then bytes[loaded..] == Rest() else Rest() == [])
    }

    // What is still to be loaded.
    ghost function Rest(): seq<Byte>
      reads this
    {
      if nomore then [] else Entropy(data, at)
    }

    // The buffer shows the stream: there are enough bits, or only zeros follow.
    ghost predicate Shows(n: nat)
      reads this
    {
      codeBits >= n || pos + codeBits >= 8 * |bytes|
    }

    method Get8() returns (b: Byte)
      modifies this`at
      ensures b == ByteAt(data, old(at))
      ensures at == if old(at) < |data| then old(at) + 1 else old(at)
    {
      if at < |data| {
        b := data[at];
        at := at + 1;
      } else {
        b := 0;
      }
    }

    // Loads bytes while there is room, or until a marker.
    method Grow()
      requires Valid() && codeBits <= 24
      modifies this`at, this`codeBuffer, this`codeBits, this`nomore, this`loaded
      ensures Valid() && Shows(25) && codeBits >= old(codeBits)
    {
      hide V, Shl, Entropy, BitsOf;
      while true
        invariant Valid() && codeBits <= 24 && codeBits >= old(codeBits)
        decreases 24 - codeBits
      {
        var more, b := NextByte();
        if !more {
          return;
        }
        AppendByte(bytes, pos, codeBits, loaded);
        codeBuffer := codeBuffer + Shl(b, 24 - codeBits);
        codeBits := codeBits + 8;
        loaded := loaded + 1;
        if codeBits > 24 {
          return;
        }
      }
    }

    // Reads past fill bytes to the next one that is not 0xFF.
    method PastFill() returns (c: Byte)
      requires at <= |data|
      modifies this`at
      ensures at <= |data|
      ensures var q := SkipFill(data, old(at)); c == ByteAt(data, q) && at == if q < |data| then q + 1 else |data|
    {
      ghost var p := at;
      c := Get8();
      while c == 255
        invariant c == ByteAt(data, p) && old(at) <= p <= |data| && at == if p < |data| then p + 1 else |data|
        invariant SkipFill(data, old(at)) == SkipFill(data, p)
        decreases |data| - p
      {
        p := at;
        c := Get8();
      }
      assert SkipFill(data, p) == p;
    }

    // The next byte of the scan; none when a marker has come up just now.
    method NextByte() returns (more: bool, b: Byte)
      requires Valid()
      modifies this`at, this`nomore
      ensures more ==> b == ByteAt(bytes, loaded) && at <= |data|
      ensures more ==> if loaded + 1 <= |bytes| then bytes[loaded + 1..] == Rest() else Rest() == []
      ensures !more ==> Valid() && Shows(25)
    {
      hide V, Shl, SkipFill;
      EntropyAt(data, at);
      ghost var rest := Rest();
      assert rest != [] ==> loaded < |bytes| && bytes[loaded] == rest[0] && bytes[loaded + 1..] == rest[1..];
      if nomore {
        b := 0;
      } else {
        b := Get8();
      }
      if b == 255 {
        var c := PastFill();
        if c != 0 {
          nomore := true;
          return false, b;
        }
      }
      more := true;
    }

    lemma Top(m: nat)
      requires Valid() && Shows(m) && m <= 32
      ensures Shr(codeBuffer, 32 - m) == V(stream, pos, m)
    {
      hide Shr, Shl, V, BitsOf, Entropy;
      TopOfBuffer(bytes, pos, codeBits, m);
    }

    // Fills up to at least sixteen bits, if there are that many.
    method Refill()
      requires Valid()
      modifies this`at, this`codeBuffer, this`codeBits, this`nomore, this`loaded
      ensures Valid() && Shows(16) && (old(Shows(9)) ==> codeBits >= old(codeBits))
    {
      hide Shl, V, BitsOf, Entropy;
      if codeBits < 16 {
        Grow();
      }
    }

    method Consume(n: nat)
      requires Valid() && n <= codeBits
      modifies this`codeBuffer, this`codeBits, this`pos
      ensures Valid() && pos == old(pos) + n && codeBits == old(codeBits) - n
    {
      hide Shl, Low, V, BitsOf, Entropy;
      ShiftOut(stream, pos, codeBits, n);
      codeBuffer := Shl(Low(codeBuffer, 32 - n), n);
      codeBits := codeBits - n;
      pos := pos + n;
    }

    // The value of the next code, as the two stages see it, or -1.
    method HuffDecode(h: Huffman, ghost sl: seq<nat>) returns (r: int)
      requires Valid() && h.Represents(sl)
      modifies this`at, this`codeBuffer, this`codeBits, this`nomore, this`loaded, this`pos
      ensures var code := FastThenSlow(sl, V(stream, old(pos), 16));
        if r >= 0 then code.0 >= 0 && r == h.values[code.0] && pos == old(pos) + code.1 && Valid()
        else code.0 < 0 || old(pos) + code.1 > 8 * |bytes|
    {
      hide Shr, Shl, Low, V, BitsOf, Entropy, NextOf, Fits, Pow2, FirstBelow, FastEntry;
      Refill();
      Top(9);
      Top(16);
      WindowTop(stream, pos);
      ghost var v := V(stream, pos, 16);
      FastIndex(stream, pos);
      var c := Shr(codeBuffer, 32 - FAST_BITS);
      var k := h.fast[c];
      if k < 255 {
        h.InList(sl, k);
        var s := h.size[k];
        if s > codeBits {
          return -1;
        }
        Consume(s);
        return h.values[k];
      }
      var temp := Shr(codeBuffer, 16);
      k := SearchLength(h, sl, temp);
      if k == 17 {
        return -1;
      }
      if k > codeBits {
        return -1;
      }
      TopOfTop(codeBuffer, k);
      var id := Shr(codeBuffer, 32 - k) + h.delta[k];
      if id < 0 || id >= 256 {
        return -1;
      }
      Consume(k);
      r := h.values[id];
    }

    // The first length from 10 on whose bound is above the top sixteen bits.
    method SearchLength(h: Huffman, ghost sl: seq<nat>, temp: nat) returns (k: nat)
      requires h.Represents(sl) && temp < Pow2(16)
      ensures k == FirstBelow(sl, temp, FAST_BITS + 1)
    {
      hide Shl, Shr, EndCode, Pow2;
      Pow2Small();
      k := FAST_BITS + 1;
      while true
        invariant FAST_BITS + 1 <= k <= 17 && FirstBelow(sl, temp, FAST_BITS + 1) == FirstBelow(sl, temp, k)
        decreases 17 - k
      {
        if k < 17 {
          ShrBelow(temp, EndCode(sl, k), 16 - k);
        }
        if temp < h.maxcode[k] {
          return;
        }
        k := k + 1;
      }
    }

    // The next `n` bits as a signed value; 0 when they are not all there.
    method ExtendReceive(n: nat) returns (k: int)
      requires Valid() && 1 <= n <= 15
      modifies this`at, this`codeBuffer, this`codeBits, this`nomore, this`loaded, this`pos
      ensures Valid()
      ensures old(pos) + n <= 8 * |bytes| || pos == old(pos) + n ==>
        k == Extend(V(stream, old(pos), n), n) && pos == old(pos) + n
      ensures k != 0 || pos == old(pos) + n || old(pos) + n > 8 * |bytes|
    {
      hide Shr, Shl, Low, V, BitsOf, Entropy, Pow2;
      if codeBits < n {
        Grow();
      }
      if codeBits < n {
        return 0;
      }
      Top(1);
      Top(n);
      SignBit(stream, pos, n);
      var sgn := Shr(codeBuffer, 31);
      k := Shr(codeBuffer, 32 - n);
      Consume(n);
      k := k + if sgn == 1 then 0 else 1 - Pow2(n);
    }

    // One step of an AC block, by the combined table when it can.
    method DecodeAc(fac: array<int>, h: Huffman, ghost sl: seq<nat>) returns (r: Step)
      requires Valid() && h.Represents(sl)
      requires fac.Length == 512 && forall c {:trigger fac[c]} :: 0 <= c < 512 ==> fac[c] == FastAc(sl, h.values[..], c)
      modifies this`at, this`codeBuffer, this`codeBits, this`nomore, this`loaded, this`pos
      ensures var found := Seen(sl, h.values[..], stream, old(pos));
        && (found.step == NoCode ==> r == NoCode)
        && (old(pos) + found.bits <= 8 * |bytes| ==>
              r == found.step && (r != NoCode ==> Valid() && pos == old(pos) + found.bits))
    {
      hide Shr, Shl, Low, V, BitsOf, Entropy, NextOf, Fits, Pow2, Huffman.Represents, FastAc, FastThenSlow;
      Refill();
      Top(9);
      FastIndex(stream, pos);
      var c := Shr(codeBuffer, 32 - FAST_BITS);
      var e := fac[c];
      if e != 0 {
        ItsSizes(h, sl);
        FastAcIsReference(sl, h.values[..], stream, pos);
        var s := e % 16;
        if s > codeBits {
          return NoCode;
        }
        Consume(s);
        return Coefficient(e / 16 % 16, e / 256);
      }
      r := DecodeAcSlowly(h, sl);
    }

    method DecodeAcSlowly(h: Huffman, ghost sl: seq<nat>) returns (r: Step)
      requires Valid() && h.Represents(sl)
      modifies this`at, this`codeBuffer, this`codeBits, this`nomore, this`loaded, this`pos
      ensures var found := Seen(sl, h.values[..], stream, old(pos));
        && (found.step == NoCode ==> r == NoCode)
        && (old(pos) + found.bits <= 8 * |bytes| ==>
              r == found.step && (r != NoCode ==> Valid() && pos == old(pos) + found.bits))
    {
      hide Shr, Shl, Low, V, BitsOf, Entropy, NextOf, Fits, Pow2, Huffman.Represents, Extend, Reader.Valid;
      hide FastThenSlow;
      ItsSizes(h, sl);
      ghost var values := h.values[..];
      var rs := HuffDecode(h, sl);
      assert values == h.values[..];
      if rs < 0 {
        return NoCode;
      }
      var s, run := rs % 16, rs / 16;
      if s == 0 {
        return if rs != 0xF0 then EndOfBlock else Skip16;
      }
      var value := ExtendReceive(s);
      r := Coefficient(run, value);
    }
  }

  lemma ItsSizes(h: Huffman, sl: seq<nat>)
    requires h.Represents(sl)
    ensures Sizes(sl) && h.values.Length == 256
  {
  }

  // The top nine bits are an index of the fast tables.
  lemma FastIndex(f: Stream, pos: nat)
    ensures V(f, pos, 9) < 512
  {
    VBound(f, pos, 9);
    Pow2Small();
  }

  // The top `k` bits of a buffer are those of its upper half.
  lemma TopOfTop(x: nat, k: nat)
    requires k <= 16
    ensures Shr(x, 32 - k) == Shr(Shr(x, 16), 16 - k)
  {
    hide Shr;
    ShrAdd(x, 16, 16 - k);
    assert 16 + (16 - k) == 32 - k;
  }

  // The first bit says whether a value is in the upper half.
  lemma SignBit(f: Stream, pos: nat, n: nat)
    requires n >= 1
    ensures V(f, pos, 1) < 2 && (V(f, pos, 1) == 1 <==> V(f, pos, n) >= Pow2(n - 1))
  {
    VSplit(f, pos, 1, n - 1);
    VBound(f, pos + 1, n - 1);
    VBound(f, pos, 1);
    ShiftsAreArithmetic(1, n - 1);
    ShiftsAreArithmetic(0, n - 1);
    assert Pow2(1) == 2;
  }

  lemma EntropyAt(data: seq<Byte>, at: nat)
    ensures at >= |data| ==> Entropy(data, at) == []
    ensures at < |data| && data[at] != 255 ==> Entropy(data, at) == [data[at]] + Entropy(data, at + 1)
    ensures at < |data| && data[at] == 255 ==>
      var q := SkipFill(data, at + 1);
      Entropy(data, at) ==
        if ByteAt(data, q) == 0 then [255] + Entropy(data, if q < |data| then q + 1 else |data|) else []
  {
    if at < |data| && data[at] == 255 {
      var q := SkipFill(data, at + 1);
      if q >= |data| {
        assert Entropy(data, q + 1) == [] && Entropy(data, |data|) == [];
      }
    }
  }
}
