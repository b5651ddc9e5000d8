// Decoding one GIF image: data blocks to codes, codes to symbols, symbols to
// pixels.
module Gif {
  import opened Arith
  import opened Bits
  import opened Lzw
  import opened LzwCoding
  import opened GifRaster

  datatype Result = Image | TooLarge | Corrupt(error: Error)
  datatype Progress = Continue | Finished | Error(error: Error)

  // The data bytes of a chain of blocks, `len` of the current block to come.
  // Past the end of the input bytes read as zero, which ends the chain.
  function Payload(input: seq<Byte>, pos: nat, len: nat): seq<Byte>
    decreases if pos < |input| then |input| - pos else 0, len
  {
    if len == 0 then
      var n := ByteAt(input, pos);
      if n == 0 then [] else Payload(input, pos + 1, n)
    else [ByteAt(input, pos)] + Payload(input, pos + 1, len - 1)
  }

  function BitsOf(data: seq<Byte>): Stream {
    (k: nat) => Bit(data, k)
  }

  // All that the input holds of an image.
  function Meaning(input: seq<Byte>): Decoded
    requires ByteAt(input, 0) <= 12
  {
    var data := Payload(input, 1, 0);
    Decode(ByteAt(input, 0), BitsOf(data), 0, 8 * |data|, Initial(ByteAt(input, 0)))
  }

  class Decoder {
    const area: Area
    const shown: set<Byte>
    const codes: array<Entry>
    var minSize: nat
    var clear: nat
    var avail: nat
    var prevCode: int
    var codeSize: nat
    var first: bool
    var curX: nat
    var curY: nat
    var step: nat
    var parse: nat
    var pixels: Pixels
    // The reference decoder's state, and the symbols given out.
    ghost var state: State
    ghost var text: Str

    constructor (area: Area, shown: set<Byte>, interlaced: bool, was: Pixels)
      ensures fresh(codes) && codes.Length == LIMIT && this.area == area && this.shown == shown
      ensures View() == Canvas(Start(area, interlaced), was) && text == []
    {
      this.area, this.shown := area, shown;
      codes := new Entry[LIMIT](_ => Entry(0, 0, 0));
      curX, curY := 0, if area.w == 0 then area.h else 0;
      step, parse := if interlaced then 8 else 1, if interlaced then 3 else 0;
      pixels := was;
      minSize, clear, avail, prevCode, codeSize, first := 0, 0, 0, 0, 0, true;
      state, text := State(false, 1, []), [];
    }

    function View(): Canvas
      reads this
    {
      Canvas(Cursor(curX, curY, step, parse), pixels)
    }

    ghost predicate Valid()
      reads this, codes
    {
      && codes.Length == LIMIT && minSize <= 12 && clear == Pow2(minSize)
      && state.started == !first && state.size == codeSize
      && prevCode >= -1 && minSize < codeSize && (codeSize <= 12 || codeSize == minSize + 1)
      && Stands(codes[..], clear, avail, prevCode, state.phrases)
    }

    method Plot(symbol: Byte)
      modifies this`curX, this`curY, this`step, this`parse, this`pixels
      ensures View() == GifRaster.Plot(area, shown, old(View()), symbol)
    {
      hide Pow2;
      if curY >= area.h {
        return;
      }
      if symbol in shown {
        pixels := pixels[(curX, curY) := symbol];
      }
      curX := curX + 1;
      if curX >= area.w {
        curX := 0;
        curY := curY + step;
        ghost var c := Cursor(curX, curY, step, parse);
        while curY >= area.h && parse > 0
          invariant curX == 0 && NextPass(area, Cursor(curX, curY, step, parse)) == NextPass(area, c)
          decreases parse
          modifies this`curY, this`step, this`parse
        {
          step := Pow2(parse);
          curY := step / 2;
          parse := parse - 1;
        }
      }
    }

    // Gives out what the code stands for, prefixes first.
    method OutCode(code: nat, ghost end: nat)
      requires codes.Length == LIMIT && TableOk(codes[..], clear, end) && Defined(clear, end, code)
      modifies this`curX, this`curY, this`step, this`parse, this`pixels, this`text
      ensures code < LIMIT && text == old(text) + Expand(codes[..], code)
      ensures View() == PlotAll(area, shown, old(View()), Expand(codes[..], code))
      decreases code
    {
      hide GifRaster.Plot;
      assert EntryOk(codes[..], clear, end, code);
      ghost var v := View();
      ghost var prefix := [];
      if codes[code].prefix >= 0 {
        prefix := Expand(codes[..], codes[code].prefix);
        OutCode(codes[code].prefix, end);
      }
      ghost var all := Expand(codes[..], code);
      assert all == prefix + [codes[code].suffix] && all[..|all| - 1] == prefix;
      Plot(codes[code].suffix);
      text := text + [codes[code].suffix];
    }

    // Acts on one code.
    method TakeCode(code: nat) returns (r: Progress)
      requires Valid() && code < LIMIT
      modifies this`avail, this`prevCode, this`codeSize, this`first, this`state, codes
      modifies this`curX, this`curY, this`step, this`parse, this`pixels, this`text
      ensures match Step(minSize, old(state), code)
              case Next(s, t) =>
                && r == Continue && Valid() && state == s && text == old(text) + t
                && View() == PlotAll(area, shown, old(View()), t)
              case End => r == Finished && text == old(text) && View() == old(View())
              case Fail(e) => r == Error(e)
    {
      hide Expand, GifRaster.Plot, PlotAll, Pow2, Stands, Low, TableOk;
      ghost var ps := state.phrases;
      StandsFacts(codes[..], clear, avail, prevCode, ps);
      if code == clear {
        StandsCleared(codes[..], clear, avail, prevCode, ps);
        codeSize := minSize + 1;
        avail := clear + 2;
        prevCode := -1;
        first := false;
        state := Cleared(minSize);
        PlotNothing(area, shown, View());
        assert text + [] == text;
        return Continue;
      }
      if code == clear + 1 {
        return Finished;
      }
      if code > avail {
        return Error(IllegalCode);
      }
      if first {
        return Error(NoClearCode);
      }
      r := Accept(code);
    }

    // Acts on a code that is not special.
    method Accept(code: nat) returns (r: Progress)
      requires Valid() && !first && code < LIMIT && code <= avail && code != clear && code != clear + 1
      modifies this`avail, this`prevCode, this`codeSize, this`state, codes
      modifies this`curX, this`curY, this`step, this`parse, this`pixels, this`text
      ensures match Step(minSize, old(state), code)
              case Next(s, t) =>
                && r == Continue && Valid() && state == s && text == old(text) + t
                && View() == PlotAll(area, shown, old(View()), t)
              case End => false
              case Fail(e) => r == Error(e)
    {
      hide Expand, GifRaster.Plot, PlotAll, Pow2, Stands, Low, TableOk, Phrase;
      ghost var ps := state.phrases;
      StandsFacts(codes[..], clear, avail, prevCode, ps);
      r := Learn(code);
      if r != Continue {
        return;
      }
      ghost var ps' := ps + [Phrase(ps, clear, code)];
      StandsFacts(codes[..], clear, avail, code, ps');
      OutCode(code, avail);
      GrowBound(codeSize, avail);
      state := State(true, Grow(codeSize, avail), ps');
      if Low(avail, codeSize) == 0 && avail <= 0xFFF {
        codeSize := codeSize + 1;
      }
      prevCode := code;
    }

    // Adds an entry unless this is the first code; refuses codes without meaning.
    method Learn(code: nat) returns (r: Progress)
      requires Valid() && code < LIMIT && code <= avail && code != clear && code != clear + 1
      modifies this`avail, codes
      ensures r == (if prevCode < 0 && code == old(avail) then Error(IllegalCode)
                    else if prevCode >= 0 && old(avail) + 1 > LIMIT then Error(TooManyCodes) else Continue)
      ensures r == Continue ==>
        && Usable(clear, state.phrases, code)
        && Stands(codes[..], clear, avail, code, state.phrases + [Phrase(state.phrases, clear, code)])
        && Expand(codes[..], code) == Phrase(state.phrases, clear, code)
    {
      hide Expand, Pow2, Stands, TableOk, Phrase;
      ghost var ps := state.phrases;
      StandsFacts(codes[..], clear, avail, prevCode, ps);
      r := Continue;
      if prevCode >= 0 {
        if avail + 1 > LIMIT {
          return Error(TooManyCodes);
        }
        AddCode(code);
      } else if code == avail {
        return Error(IllegalCode);
      } else {
        StandsForFirst(codes[..], clear, avail, code);
        ExpandLiteral(codes[..], clear, avail, code);
        assert ps + [Phrase(ps, clear, code)] == [Phrase(ps, clear, code)];
      }
    }

    // Makes the entry for the previous phrase and the first symbol of this one.
    method AddCode(code: nat)
      requires codes.Length == LIMIT && prevCode >= 0 && avail < LIMIT
      requires Stands(codes[..], clear, avail, prevCode, state.phrases)
      requires Defined(clear, avail, code) || code == avail
      modifies this`avail, codes
      ensures avail == old(avail) + 1 && Usable(clear, state.phrases, code)
      ensures Stands(codes[..], clear, avail, code, state.phrases + [Phrase(state.phrases, clear, code)])
      ensures code < LIMIT && Expand(codes[..], code) == Phrase(state.phrases, clear, code)
    {
      hide Expand, Stands, Phrase;
      ghost var was := codes[..];
      StandsFacts(codes[..], clear, avail, prevCode, state.phrases);
      StandsForNext(codes[..], clear, avail, prevCode, state.phrases, code);
      var p := avail;
      avail := avail + 1;
      codes[p] := codes[p].(prefix := prevCode, first := codes[prevCode].first);
      // The test for the new code itself compares with the advanced counter and
      // never succeeds; its `first`, just written, is read from the table.
      assert code != avail;
      codes[p] := codes[p].(suffix := codes[code].first);
      assert codes[..] == was[p := NewEntry(was, p, prevCode, code)];
    }

    // Takes codes from the data until it ends, the end code, or an error.
    method ProcessRaster(input: seq<Byte>) returns (r: Result)
      requires codes.Length == LIMIT
      modifies this, codes
      ensures ByteAt(input, 0) > 12 ==> r == TooLarge
      ensures ByteAt(input, 0) <= 12 ==>
        match Meaning(input)
        case Done(t) =>
          r == Image && text == old(text) + t && View() == PlotAll(area, shown, old(View()), t)
        case Bad(e) => r == Corrupt(e)
    {
      hide Pow2, Decode, Stands, Shl, Shr, Low;
      minSize := ByteAt(input, 0);
      if minSize > 12 {
        return TooLarge;
      }
      InitTable();
      r := TakeCodes(input);
    }

    method InitTable()
      requires codes.Length == LIMIT && minSize <= 12
      modifies this`clear, this`avail, this`prevCode, this`codeSize, this`first, this`state, codes
      ensures Valid() && state == Initial(minSize)
    {
      hide Stands, Pow2;
      clear := Pow2(minSize);
      ClearBound(minSize);
      first := true;
      codeSize := minSize + 1;
      for i := 0 to clear
        invariant forall j {:trigger codes[j]} :: 0 <= j < i ==> codes[j] == Entry(-1, j % 256, j % 256)
        modifies codes
      {
        codes[i] := Entry(-1, i % 256, i % 256);
      }
      avail := clear + 2;
      prevCode := -1;
      state := Initial(minSize);
      StandsAtStart(codes[..], clear);
    }

    method TakeCodes(input: seq<Byte>) returns (r: Result)
      requires Valid() && state == Initial(minSize) && minSize == ByteAt(input, 0)
      modifies this`avail, this`prevCode, this`codeSize, this`first, this`state, codes
      modifies this`curX, this`curY, this`step, this`parse, this`pixels, this`text
      ensures match Meaning(input)
              case Done(t) =>
                r == Image && text == old(text) + t && View() == PlotAll(area, shown, old(View()), t)
              case Bad(e) => r == Corrupt(e)
    {
      hide Pow2, Decode, Stands, Shl, Shr, Low, Peek, Step, PlotAll, Bit;
      ghost var data := Payload(input, 1, 0);
      ghost var f := BitsOf(data);
      ghost var end := 8 * |data|;
      // Bits used and bytes loaded so far, and what has been given out.
      ghost var pos: nat, loaded: nat := 0, 0;
      ghost var done: Str := [];
      ghost var view, before := View(), text;
      var at, len := 1, 0;
      var bits: nat, validBits: nat := 0, 0;
      PlotNothing(area, shown, view);
      PeekNothing(f);
      while true
        invariant Valid() && minSize == ByteAt(input, 0)
        invariant pos + validBits == 8 * loaded && loaded <= |data| && data[loaded..] == Payload(input, at, len)
        invariant bits == Peek(f, pos, validBits)
        invariant Meaning(input) == Prepend(done, Decode(minSize, f, pos, end, state))
        invariant text == before + done && View() == PlotAll(area, shown, view, done)
        decreases |data| - loaded, len == 0, validBits
      {
        if validBits < codeSize {
          if len == 0 {
            len := ByteAt(input, at);
            if len == 0 {
              DecodeEnds(minSize, f, pos, end, state);
              assert done + [] == done;
              return Image;
            }
            at := at + 1;
          }
          LoadByte(data, f, pos, validBits, loaded, input, at, len);
          len := len - 1;
          bits := bits + Shl(ByteAt(input, at), validBits);
          at := at + 1;
          validBits := validBits + 8;
          loaded := loaded + 1;
        } else {
          PeekDrop(f, pos, validBits, codeSize);
          var code := Low(bits, codeSize);
          bits := Shr(bits, codeSize);
          validBits := validBits - codeSize;
          CodeBound(codeSize);
          DecodeStep(minSize, f, pos, end, state);
          ghost var s, size := state, codeSize;
          var p := TakeCode(code);
          if p == Finished {
            assert done + [] == done;
            return Image;
          }
          if p.Error? {
            return Corrupt(p.error);
          }
          pos := pos + size;
          ghost var t := Step(minSize, s, code).text;
          PlotAppend(area, shown, view, done, t);
          done := done + t;
        }
      }
    }
  }

  lemma StandsFacts(codes: Table, clear: nat, avail: nat, prev: int, ps: seq<Str>)
    requires Stands(codes, clear, avail, prev, ps)
    ensures |codes| == LIMIT && avail == Avail(clear, ps) && avail <= LIMIT && (prev < 0 <==> ps == [])
    ensures TableOk(codes, clear, avail) && (prev >= 0 ==> Defined(clear, avail, prev) && prev < LIMIT)
  {
    if prev >= 0 {
      assert EntryOk(codes, clear, avail, prev);
    }
  }

  lemma StandsCleared(codes: Table, clear: nat, avail: nat, prev: int, ps: seq<Str>)
    requires Stands(codes, clear, avail, prev, ps)
    ensures Stands(codes, clear, clear + 2, -1, [])
  {
    forall c | 0 <= c < clear
      ensures codes[c] == Entry(-1, c % 256, c % 256)
    {
      assert EntryOk(codes, clear, avail, c);
    }
  }

  lemma ExpandLiteral(codes: Table, clear: nat, avail: nat, c: nat)
    requires c < clear && Stands(codes, clear, avail, c, [Phrase([], clear, c)])
    ensures Expand(codes, c) == Phrase([], clear, c)
  {
  }

  lemma GrowBound(size: nat, avail: nat)
    requires avail > 0
    ensures size >= 12 ==> Grow(size, avail) == size
    ensures Grow(size, avail) <= size + 1
  {
    if size >= 12 && avail <= 0xFFF {
      Pow2Eleven();
      Pow2Monotone(12, size);
      LowOfSmall(avail, size);
    }
  }

  lemma ClearBound(minSize: nat)
    requires minSize <= 12
    ensures 0 < Pow2(minSize) <= 4096
  {
    Pow2Eleven();
    Pow2Monotone(minSize, 12);
  }

  lemma CodeBound(size: nat)
    requires size <= 13
    ensures Pow2(size) <= LIMIT
  {
    Pow2Eleven();
    Pow2Monotone(size, 13);
    assert Pow2(13) == 2 * Pow2(12);
  }

  lemma PeekNothing(f: Stream)
    ensures Peek(f, 0, 0) == 0
  {
  }

  lemma PlotNothing(a: Area, shown: set<Byte>, v: Canvas)
    ensures PlotAll(a, shown, v, []) == v
  {
  }

  // Out of data: fewer bits are left than a code has.
  lemma DecodeEnds(minSize: nat, f: Stream, pos: nat, end: nat, s: State)
    requires s.size > 0 && pos + s.size > end
    ensures Decode(minSize, f, pos, end, s) == Done([])
  {
  }

  lemma DecodeStep(minSize: nat, f: Stream, pos: nat, end: nat, s: State)
    requires s.size > 0 && pos + s.size <= end
    ensures Decode(minSize, f, pos, end, s) ==
      match Step(minSize, s, Peek(f, pos, s.size))
      case Next(s', t) => Prepend(t, Decode(minSize, f, pos + s.size, end, s'))
      case End => Done([])
      case Fail(e) => Bad(e)
  {
  }

  // The next byte of the block goes on top of the bits at hand.
  lemma LoadByte(data: seq<Byte>, f: Stream, pos: nat, n: nat, k: nat, input: seq<Byte>, at: nat, len: nat)
    requires f == BitsOf(data) && pos + n == 8 * k && k <= |data| && len > 0
    requires data[k..] == Payload(input, at, len)
    ensures k < |data| && data[k + 1..] == Payload(input, at + 1, len - 1)
    ensures Peek(f, pos, n + 8) == Peek(f, pos, n) + Shl(ByteAt(input, at), n)
  {
    hide Shl, Peek, Bit;
    assert data[k..][0] == ByteAt(input, at);
    assert data[k..][1..] == data[k + 1..];
    PeekAppend(f, data, pos, n, k);
  }
}
