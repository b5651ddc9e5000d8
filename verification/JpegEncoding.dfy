// Writing the steps of an AC block: the inverse of decoding them.
module JpegEncoding {
  import opened Bits
  import opened BitWriter
  import opened BlockEncoding
  import opened CanonicalCode
  import opened JpegBits
  import opened JpegCode
  import opened JpegHuffman
  import opened JpegReader

  // ---- magnitudes ----------------------------------------------------------

  function Abs(v: int): nat {
    if v < 0 then 0 - v else v
  }

  // The category of a value: how many bits its magnitude has.
  function BitLength(a: nat): nat {
    if a == 0 then 0 else 1 + BitLength(a / 2)
  }

  lemma {:induction false} BitLengthIs(a: nat)
    ensures a < Pow2(BitLength(a))
    ensures a > 0 ==> BitLength(a) >= 1 && Pow2(BitLength(a) - 1) <= a
  {
    if a > 0 {
      BitLengthIs(a / 2);
    }
  }

  function Flipped(bits: BitList): (r: BitList)
    ensures |r| == |bits|
  {
    if bits == [] then [] else Flipped(bits[..|bits| - 1]) + [1 - bits[|bits| - 1]]
  }

  // The bits that follow the code: those of the magnitude, highest first, and the
  // opposite ones for a negative value.
  function ValueBits(v: int): BitList {
    var bits := CodeBits(Abs(v), BitLength(Abs(v)));
    if v < 0 then Flipped(bits) else bits
  }

  lemma {:induction false} ReadBits(f: Stream, pos: nat, x: nat, n: nat)
    requires x < Pow2(n) && BitsAt(f, pos, CodeBits(x, n))
    ensures V(f, pos, n) == x
    decreases n
  {
    if n > 0 {
      BitsAtSplit(f, pos, CodeBits(x / 2, n - 1), [x % 2]);
      assert [x % 2][0] == x % 2;
      ReadBits(f, pos, x / 2, n - 1);
    }
  }

  lemma {:induction false} ReadFlipped(f: Stream, pos: nat, x: nat, n: nat)
    requires x < Pow2(n) && BitsAt(f, pos, Flipped(CodeBits(x, n)))
    ensures V(f, pos, n) == Pow2(n) - 1 - x
    decreases n
  {
    if n > 0 {
      var bits := CodeBits(x, n);
      assert bits[..n - 1] == CodeBits(x / 2, n - 1) && bits[n - 1] == x % 2;
      BitsAtSplit(f, pos, Flipped(CodeBits(x / 2, n - 1)), [1 - x % 2]);
      assert [1 - x % 2][0] == 1 - x % 2;
      ReadFlipped(f, pos, x / 2, n - 1);
    }
  }

  // ---- the table of values -------------------------------------------------

  // Values of `n` bits have a magnitude of `n` bits, are negative exactly when the
  // first bit is zero, and follow the order of the bits.
  lemma ExtendIsTable(x: nat, y: nat, n: nat)
    requires 1 <= n && x < Pow2(n)
    ensures Pow2(n - 1) <= Abs(Extend(x, n)) < Pow2(n)
    ensures Extend(x, n) < 0 <==> x < Pow2(n - 1)
    ensures x < y < Pow2(n) ==> Extend(x, n) < Extend(y, n)
  {
  }

  // Reading the bits of a value gives the value.
  lemma ValueRoundTrip(v: int, f: Stream, pos: nat)
    requires BitsAt(f, pos, ValueBits(v))
    ensures Extend(V(f, pos, |ValueBits(v)|), |ValueBits(v)|) == v
  {
    hide CodeBits, Flipped, V;
    var a := Abs(v);
    var n := BitLength(a);
    BitLengthIs(a);
    if v < 0 {
      ReadFlipped(f, pos, a, n);
    } else {
      ReadBits(f, pos, a, n);
    }
  }

  // ---- steps ---------------------------------------------------------------

  // What can be written: a run below sixteen, a value of up to fifteen bits.
  predicate Writes(step: Step) {
    match step
    case Coefficient(run, value) => run < 16 && value != 0 && BitLength(Abs(value)) <= 15
    case NoCode => false
    case _ => true
  }

  // The value of the symbol: run and category, or one of the special ones.
  function SymbolOf(step: Step): nat {
    match step
    case Coefficient(run, value) => 16 * run + BitLength(Abs(value))
    case Skip16 => 0xF0
    case _ => 0
  }

  function Appended(step: Step): BitList {
    if step.Coefficient? then ValueBits(step.value) else []
  }

  // A symbol of the table and the bits that go with it.
  function StepBits(sl: seq<nat>, i: nat, step: Step): BitList
    requires i < |sl| && sl[i] >= 1
  {
    CodeBits(Code(sl, i), sl[i]) + Appended(step)
  }

  lemma CodeIsShort(sl: seq<nat>, i: nat)
    requires Sizes(sl) && Fits(sl) && i < |sl|
    ensures Code(sl, i) < Pow2(sl[i])
  {
    RankBounds(sl, i);
    assert FitsAt(sl, sl[i]);
  }

  // A code that is written is read as its own symbol.
  lemma CodeIsNext(sl: seq<nat>, i: nat, f: Stream, pos: nat)
    requires Sizes(sl) && Fits(sl) && i < |sl| && BitsAt(f, pos, CodeBits(Code(sl, i), sl[i]))
    ensures Next16(sl, f, pos) == i
  {
    hide Code, V, CodeBits, NextOf, Fits;
    var s := sl[i];
    CodeIsShort(sl, i);
    ReadBits(f, pos, Code(sl, i), s);
    VParts(f, pos, s, 16 - s);
    assert s + (16 - s) == 16;
    VBound(f, pos, 16);
    NextOfIs(sl, V(f, pos, 16), i);
  }

  // Every step that is written is the step that the reference reads there, and it
  // takes exactly the bits written.
  lemma StepRoundTrip(sl: seq<nat>, values: seq<Byte>, i: nat, step: Step, f: Stream, pos: nat)
    requires Sizes(sl) && Fits(sl) && i < |sl| && |values| == 256 && values[i] == SymbolOf(step)
    requires Writes(step) && BitsAt(f, pos, StepBits(sl, i, step))
    ensures Reference(sl, values, f, pos) == Found(step, |StepBits(sl, i, step)|)
  {
    hide Code, V, CodeBits, NextOf, Extend, Flipped, Fits;
    BitsAtSplit(f, pos, CodeBits(Code(sl, i), sl[i]), Appended(step));
    CodeIsNext(sl, i, f, pos);
    if step.Coefficient? {
      BitLengthIs(Abs(step.value));
      ValueRoundTrip(step.value, f, pos + sl[i]);
    }
  }

  // The decoder, with its fast tables, reads a step that is written and lies in
  // the data as that step, and stops right behind it.
  method DecodeWritten(reader: Reader, fac: array<int>, h: Huffman, ghost sl: seq<nat>, ghost i: nat, ghost step: Step)
    returns (r: Step)
    requires reader.Valid() && h.Represents(sl) && LastIsLong(sl)
    requires fac.Length == 512 && forall c {:trigger fac[c]} :: 0 <= c < 512 ==> fac[c] == FastAc(sl, h.values[..], c)
    requires i < |sl| && h.values[i] == SymbolOf(step) && Writes(step)
    requires BitsAt(reader.stream, reader.pos, StepBits(sl, i, step))
    requires reader.pos + |StepBits(sl, i, step)| <= 8 * |reader.bytes|
    modifies reader`at, reader`codeBuffer, reader`codeBits, reader`nomore, reader`loaded, reader`pos
    ensures r == step && reader.Valid() && reader.pos == old(reader.pos) + |StepBits(sl, i, step)|
  {
    hide V, NextOf, FastThenSlow, Seen, Reference, StepBits, FastAc, SymbolOf, Appended;
    ItsSizes(h, sl);
    ghost var values := h.values[..];
    StepRoundTrip(sl, values, i, step, reader.stream, reader.pos);
    SeenIsReference(sl, values, reader.stream, reader.pos);
    r := reader.DecodeAc(fac, h, sl);
  }
}
