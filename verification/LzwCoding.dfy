// GIF LZW over bits: the reference decoder, and an encoder that it inverts.
module LzwCoding {
  import opened Bits
  import opened BitWriter
  import opened Lzw

  datatype Decoded = Done(text: Str) | Bad(error: Error)

  function Prepend(t: Str, d: Decoded): Decoded {
    if d.Done? then Done(t + d.text) else d
  }

  // What the codes in bits `pos` to `end` of the stream stand for. Running out
  // of bits ends the text like the end code does.
  function Decode(minSize: nat, f: Stream, pos: nat, end: nat, s: State): Decoded
    requires s.size > 0
    decreases end - pos
  {
    if pos + s.size > end then Done([])
    else
      match Step(minSize, s, Peek(f, pos, s.size))
      case Next(s', t) => Prepend(t, Decode(minSize, f, pos + s.size, end, s'))
      case End => Done([])
      case Fail(e) => Bad(e)
  }

  // Before the first clear code.
  function Initial(minSize: nat): State {
    State(false, minSize + 1, [])
  }

  function Cleared(minSize: nat): State {
    State(true, minSize + 1, [])
  }

  // ---- the code size -------------------------------------------------------

  // A code size leaves room for every code that can come, up to 12 bits, and
  // is no larger than that needs.
  ghost predicate SizeFits(minSize: nat, s: State) {
    var avail := Avail(Pow2(minSize), s.phrases);
    && minSize + 1 <= s.size <= 12
    && (s.phrases == [] ==> s.size == minSize + 1)
    && (avail < Pow2(s.size) || s.size == 12)
    && (s.size > minSize + 1 ==> Pow2(s.size - 1) <= avail)
  }

  // Below twice the power, only zero and the power itself have no low bits.
  lemma LowIsZero(n: nat, w: nat)
    requires n < 2 * Pow2(w)
    ensures Low(n, w) == 0 <==> n == 0 || n == Pow2(w)
  {
    if n < Pow2(w) {
      LowOfSmall(n, w);
    } else {
      LowPeriod(n - Pow2(w), w);
      LowOfSmall(n - Pow2(w), w);
    }
  }

  lemma Pow2AtLeast(n: nat)
    requires n >= 2
    ensures Pow2(n) >= 4 && Pow2(n + 1) == 2 * Pow2(n)
  {
    Pow2Monotone(2, n);
    assert Pow2(2) == 4;
  }

  lemma SizeKept(minSize: nat, s: State, c: nat)
    requires 2 <= minSize <= 11 && SizeFits(minSize, s) && Step(minSize, s, c).Next?
    ensures SizeFits(minSize, Step(minSize, s, c).state)
  {
    hide Grow, Pow2, Phrase;
    var clear, s' := Pow2(minSize), Step(minSize, s, c).state;
    Pow2AtLeast(minSize);
    Pow2AtLeast(s.size);
    if c != clear {
      GrownSize(s.size, Avail(clear, s.phrases), Avail(clear, s'.phrases));
    }
  }

  // The size that follows when the next free code moves on by at most one.
  lemma GrownSize(size: nat, before: nat, avail: nat)
    requires 3 <= size <= 12 && before <= avail <= before + 1 && avail > 0
    requires before < Pow2(size) || size == 12
    ensures var size' := Grow(size, avail);
            && size <= size' <= 12 && size' <= size + 1
            && (avail < Pow2(size') || size' == 12)
            && (size' > size ==> Pow2(size) <= avail)
  {
    hide Pow2;
    if size == 12 {
      GrowsTo12(avail);
    } else {
      assert Pow2(size + 1) == 2 * Pow2(size) && Pow2(size) >= 4 by {
        Pow2AtLeast(size);
      }
      LowIsZero(avail, size);
      Pow2Monotone(size, 11);
      Pow2Eleven();
    }
  }

  lemma Pow2Eleven()
    ensures Pow2(11) == 2048 && Pow2(12) == 4096
  {
    Pow2Small();
    assert Pow2(10) == 2 * Pow2(9);
    assert Pow2(11) == 2 * Pow2(10);
  }

  // A full 12-bit table does not grow further.
  lemma GrowsTo12(avail: nat)
    requires avail > 0
    ensures Grow(12, avail) == 12
  {
    if avail <= 0xFFF {
      Pow2Eleven();
      LowOfSmall(avail, 12);
    }
  }

  // ---- the encoder ---------------------------------------------------------

  predicate Usable(clear: nat, ps: seq<Str>, c: nat) {
    c < clear || clear + 2 <= c < clear + 2 + |ps|
  }

  // The code of the longest phrase that the rest of the text starts with,
  // among the entries below number `n`.
  function Longest(clear: nat, ps: seq<Str>, d: Str, n: nat): (c: nat)
    requires d != [] && n <= |ps| && d[0] < clear
    ensures Usable(clear, ps, c) && First(d) == First(Phrase(ps, clear, c)) && Phrase(ps, clear, c) <= d
  {
    if n == 0 then d[0]
    else
      var c, e := Longest(clear, ps, d, n - 1), clear + 2 + n - 1;
      var p := Phrase(ps, clear, e);
      if p != [] && p <= d && |p| > |Phrase(ps, clear, c)| then e else c
  }

  predicate Symbols(clear: nat, d: Str) {
    forall i :: 0 <= i < |d| ==> d[i] < clear
  }

  predicate Full(clear: nat, ps: seq<Str>) {
    clear + 2 + |ps| >= 4096
  }

  // Writes the rest of a text, code by code in the size the decoder is in.
  function EncodeFrom(minSize: nat, s: State, d: Str): BitList
    requires 2 <= minSize <= 8 && s.started && Symbols(Pow2(minSize), d)
    decreases |d|, |s.phrases|
  {
    var clear := Pow2(minSize);
    if d == [] then NumberBits(clear + 1, s.size)
    else if Full(clear, s.phrases) && s.phrases != [] then
      NumberBits(clear, s.size) + EncodeFrom(minSize, Cleared(minSize), d)
    else
      var c := Longest(clear, s.phrases, d, |s.phrases|);
      var p := Phrase(s.phrases, clear, c);
      var ps := s.phrases + [p];
      NumberBits(c, s.size)
      + if p == [] then [] else EncodeFrom(minSize, State(true, Grow(s.size, Avail(clear, ps)), ps), d[|p|..])
  }

  // A text starts with a clear code.
  function Encode(minSize: nat, d: Str): BitList
    requires 2 <= minSize <= 8 && Symbols(Pow2(minSize), d)
  {
    NumberBits(Pow2(minSize), minSize + 1) + EncodeFrom(minSize, Cleared(minSize), d)
  }

  // What decoding one written code gives.
  lemma DecodeOne(minSize: nat, f: Stream, pos: nat, end: nat, s: State, c: nat, rest: BitList)
    requires s.size > 0 && c < Pow2(s.size) && BitsAt(f, pos, NumberBits(c, s.size) + rest)
    requires pos + s.size + |rest| <= end
    ensures BitsAt(f, pos + s.size, rest)
    ensures Decode(minSize, f, pos, end, s) ==
      match Step(minSize, s, c)
      case Next(s', t) => Prepend(t, Decode(minSize, f, pos + s.size, end, s'))
      case End => Done([])
      case Fail(e) => Bad(e)
  {
    BitsAtSplit(f, pos, NumberBits(c, s.size), rest);
    PeekNumber(f, pos, c, s.size);
  }

  lemma ClearFits(minSize: nat)
    requires 2 <= minSize <= 8
    ensures 4 <= Pow2(minSize) <= 256 && SizeFits(minSize, Cleared(minSize)) && Pow2(minSize + 1) == 2 * Pow2(minSize)
  {
    Pow2AtLeast(minSize);
    Pow2Monotone(minSize, 8);
    Pow2Small();
  }

  // Codes that can come fit in the code size.
  lemma CodesFit(minSize: nat, s: State, c: nat)
    requires 2 <= minSize <= 8 && SizeFits(minSize, s) && c < Pow2(12)
    requires c <= Avail(Pow2(minSize), s.phrases)
    ensures c < Pow2(s.size)
  {
  }

  lemma StepUsable(minSize: nat, s: State, c: nat)
    requires s.started && Usable(Pow2(minSize), s.phrases, c) && Pow2(minSize) + 2 + |s.phrases| < LIMIT
    ensures var p := Phrase(s.phrases, Pow2(minSize), c);
            var ps := s.phrases + [p];
            Step(minSize, s, c) == Next(State(true, Grow(s.size, Avail(Pow2(minSize), ps)), ps), p)
  {
    hide Pow2, Grow;
  }

  // One phrase of the text: its code, and the state that both sides go to.
  lemma EncodeOne(minSize: nat, s: State, d: Str) returns (c: nat, p: Str, s': State)
    requires 2 <= minSize <= 8 && s.started && Symbols(Pow2(minSize), d) && SizeFits(minSize, s)
    requires Nonempty(s.phrases) && d != [] && (s.phrases == [] || !Full(Pow2(minSize), s.phrases))
    ensures p != [] && p <= d && d == p + d[|p|..] && Symbols(Pow2(minSize), d[|p|..])
    ensures s.size > 0 && c < Pow2(s.size) && Step(minSize, s, c) == Next(s', p)
    ensures s'.started && SizeFits(minSize, s') && Nonempty(s'.phrases)
    ensures EncodeFrom(minSize, s, d) == NumberBits(c, s.size) + EncodeFrom(minSize, s', d[|p|..])
  {
    hide Pow2, Grow, NumberBits, Longest, Step;
    var clear, ps := Pow2(minSize), s.phrases;
    assert s.size > 0;
    hide SizeFits;
    ClearFits(minSize);
    Pow2Eleven();
    c := Longest(clear, ps, d, |ps|);
    p := Phrase(ps, clear, c);
    CodesFit(minSize, s, c);
    s' := State(true, Grow(s.size, Avail(clear, ps + [p])), ps + [p]);
    StepUsable(minSize, s, c);
    SizeKept(minSize, s, c);
  }

  lemma {:induction false} DecodeEncodedFrom(minSize: nat, s: State, d: Str, f: Stream, pos: nat, end: nat)
    requires 2 <= minSize <= 8 && s.started && Symbols(Pow2(minSize), d) && SizeFits(minSize, s)
    requires Nonempty(s.phrases)
    requires BitsAt(f, pos, EncodeFrom(minSize, s, d)) && pos + |EncodeFrom(minSize, s, d)| <= end
    ensures Decode(minSize, f, pos, end, s) == Done(d)
    decreases |d|, |s.phrases|
  {
    hide EncodeFrom, NumberBits, Step, SizeFits, Decode, BitsAt, Symbols, Pow2, Full;
    var clear, ps := Pow2(minSize), s.phrases;
    if d != [] && (ps == [] || !Full(clear, ps)) {
      var c, p, s' := EncodeOne(minSize, s, d);
      DecodeOne(minSize, f, pos, end, s, c, EncodeFrom(minSize, s', d[|p|..]));
      DecodeEncodedFrom(minSize, s', d[|p|..], f, pos + s.size, end);
    } else {
      DecodeEndOrClear(minSize, s, d, f, pos, end);
      if d != [] {
        ClearFits(minSize);
        DecodeEncodedFrom(minSize, Cleared(minSize), d, f, pos + s.size, end);
      }
    }
  }

  lemma DecodeEndOrClear(minSize: nat, s: State, d: Str, f: Stream, pos: nat, end: nat)
    requires 2 <= minSize <= 8 && s.started && Symbols(Pow2(minSize), d) && SizeFits(minSize, s)
    requires d == [] || (s.phrases != [] && Full(Pow2(minSize), s.phrases))
    requires BitsAt(f, pos, EncodeFrom(minSize, s, d)) && pos + |EncodeFrom(minSize, s, d)| <= end
    ensures d == [] ==> Decode(minSize, f, pos, end, s) == Done([])
    ensures d != [] ==>
      && BitsAt(f, pos + s.size, EncodeFrom(minSize, Cleared(minSize), d))
      && pos + s.size + |EncodeFrom(minSize, Cleared(minSize), d)| <= end
      && Decode(minSize, f, pos, end, s) == Prepend([], Decode(minSize, f, pos + s.size, end, Cleared(minSize)))
  {
    var clear := Pow2(minSize);
    ClearFits(minSize);
    Pow2Eleven();
    hide Pow2, Decode, Grow, SizeFits, NumberBits, Longest, BitsAt, Symbols;
    if d == [] {
      CodesFit(minSize, s, clear + 1);
      assert NumberBits(clear + 1, s.size) + [] == NumberBits(clear + 1, s.size);
      DecodeOne(minSize, f, pos, end, s, clear + 1, []);
    } else {
      CodesFit(minSize, s, clear);
      DecodeOne(minSize, f, pos, end, s, clear, EncodeFrom(minSize, Cleared(minSize), d));
    }
  }

  predicate Nonempty(ps: seq<Str>) {
    forall i :: 0 <= i < |ps| ==> ps[i] != []
  }

  // Decoding gives back every text, wherever it is written in the stream.
  lemma RoundTrip(minSize: nat, d: Str, f: Stream, pos: nat, end: nat)
    requires 2 <= minSize <= 8 && Symbols(Pow2(minSize), d)
    requires BitsAt(f, pos, Encode(minSize, d)) && pos + |Encode(minSize, d)| <= end
    ensures Decode(minSize, f, pos, end, Initial(minSize)) == Done(d)
  {
    hide Decode, EncodeFrom, NumberBits;
    ClearFits(minSize);
    DecodeOne(minSize, f, pos, end, Initial(minSize), Pow2(minSize), EncodeFrom(minSize, Cleared(minSize), d));
    DecodeEncodedFrom(minSize, Cleared(minSize), d, f, pos + minSize + 1, end);
  }
}
