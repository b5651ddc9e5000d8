// Writing DEFLATE blocks: the inverse of decoding, symbol by symbol and token
// by token.
module BlockEncoding {
  import opened Bits
  import opened BitWriter
  import opened CanonicalCode
  import opened BitReader
  import opened Lz77

  // A code of `s` bits, highest bit first.
  function CodeBits(code: nat, s: nat): (r: BitList)
    ensures |r| == s
  {
    if s == 0 then [] else CodeBits(code / 2, s - 1) + [code % 2]
  }

  // Reading one more bit of a code appends it at the low end.
  lemma RevPeekLast(f: Stream, pos: nat, n: nat)
    ensures Rev(Peek(f, pos, n + 1), n + 1) == 2 * Rev(Peek(f, pos, n), n) + f(pos + n)
  {
    var x, y := Peek(f, pos, n + 1), Peek(f, pos, n);
    PeekDrop(f, pos, n + 1, n);
    PeekDrop(f, pos, n, n);
    RevLow(x, n);
    RevLow(y, n);
    RevLast(x, n);
    PeekStep(f, pos + n, 1);
    assert Peek(f, pos + n + 1, 0) == 0;
  }

  lemma {:induction false} PeekCode(f: Stream, pos: nat, code: nat, s: nat)
    requires code < Pow2(s) && BitsAt(f, pos, CodeBits(code, s))
    ensures Rev(Peek(f, pos, s), s) == code
    decreases s
  {
    if s > 0 {
      BitsAtSplit(f, pos, CodeBits(code / 2, s - 1), [code % 2]);
      PeekCode(f, pos, code / 2, s - 1);
      RevPeekLast(f, pos, s - 1);
      assert [code % 2][0] == code % 2;
    }
  }

  // ---- symbols -------------------------------------------------------------

  predicate Used(sl: seq<nat>, i: nat) {
    i < |sl| && sl[i] >= 1
  }

  function SymbolBits(sl: seq<nat>, i: nat): BitList
    requires Used(sl, i)
  {
    CodeBits(Code(sl, i), sl[i])
  }

  // A written code is read as its own symbol.
  lemma SymbolRoundTrip(sl: seq<nat>, i: nat, f: Stream, pos: nat)
    requires Lengths(sl) && Accepted(sl) && Used(sl, i)
    requires BitsAt(f, pos, SymbolBits(sl, i))
    ensures NextSymbol(sl, f, pos) == i
  {
    CodeFits(sl, i);
    PeekCode(f, pos, Code(sl, i), sl[i]);
    SearchSymbolFinds(sl, |sl|, f, pos);
    var r := NextSymbol(sl, f, pos);
    assert CodeAt(sl, i, f, pos);
    CodesDoNotOverlap(sl, f, pos, i, r);
  }

  lemma CodesDoNotOverlap(sl: seq<nat>, f: Stream, pos: nat, i: nat, j: nat)
    requires i < |sl| && j < |sl| && Lengths(sl)
    requires CodeAt(sl, i, f, pos) && CodeAt(sl, j, f, pos)
    ensures i == j
  {
    CodeInWindow(sl, i, f, pos, MAX_BITS);
    CodeInWindow(sl, j, f, pos, MAX_BITS);
    PrefixFree(sl, Peek(f, pos, MAX_BITS), i, j);
  }

  function EncodeSymbols(sl: seq<nat>, symbols: seq<nat>): BitList
    requires forall k :: 0 <= k < |symbols| ==> Used(sl, symbols[k])
  {
    if symbols == [] then [] else SymbolBits(sl, symbols[0]) + EncodeSymbols(sl, symbols[1..])
  }

  // The next `n` symbols, as repeated decoding gives them.
  function DecodeSymbols(sl: seq<nat>, f: Stream, pos: nat, n: nat): seq<int>
    decreases n
  {
    if n == 0 then []
    else
      var r := NextSymbol(sl, f, pos);
      if r < 0 then [r] else [r] + DecodeSymbols(sl, f, pos + sl[r], n - 1)
  }

  // Decoding undoes encoding for every symbol sequence.
  lemma {:induction false} SymbolsRoundTrip(sl: seq<nat>, symbols: seq<nat>, f: Stream, pos: nat)
    requires Lengths(sl) && Accepted(sl)
    requires forall k :: 0 <= k < |symbols| ==> Used(sl, symbols[k])
    requires BitsAt(f, pos, EncodeSymbols(sl, symbols))
    ensures DecodeSymbols(sl, f, pos, |symbols|) == symbols
    decreases |symbols|
  {
    if symbols != [] {
      BitsAtSplit(f, pos, SymbolBits(sl, symbols[0]), EncodeSymbols(sl, symbols[1..]));
      SymbolRoundTrip(sl, symbols[0], f, pos);
      SymbolsRoundTrip(sl, symbols[1..], f, pos + sl[symbols[0]]);
    }
  }

  // ---- tokens --------------------------------------------------------------

  // How a token is written: a literal, or a copy by its length symbol, its
  // distance symbol and the extra bits of both.
  datatype Writing = WriteLiteral(value: Byte)
                   | WriteCopy(k: nat, lengthBits: nat, d: nat, distanceBits: nat)

  predicate Writable(c: BlockCode, w: Writing)
    requires c.Valid()
  {
    match w
    case WriteLiteral(b) => Used(c.ll, b)
    case WriteCopy(k, lengthBits, d, distanceBits) =>
      && k < 29 && Used(c.ll, 257 + k) && lengthBits < Pow2(c.copies.lengthExtra[k])
      && d < 30 && Used(c.dl, d) && distanceBits < Pow2(c.copies.distExtra[d])
  }

  function Written(c: BlockCode, w: Writing): Token
    requires c.Valid() && Writable(c, w)
  {
    match w
    case WriteLiteral(b) => Literal(b)
    case WriteCopy(k, lengthBits, d, distanceBits) =>
      Copy(c.copies.lengthBase[k] + lengthBits, c.copies.distBase[d] + distanceBits)
  }

  function LengthPart(c: BlockCode, k: nat, lengthBits: nat): BitList
    requires c.Valid() && k < 29 && Used(c.ll, 257 + k)
  {
    SymbolBits(c.ll, 257 + k) + NumberBits(lengthBits, c.copies.lengthExtra[k])
  }

  function DistancePart(c: BlockCode, d: nat, distanceBits: nat): BitList
    requires c.Valid() && d < 30 && Used(c.dl, d)
  {
    SymbolBits(c.dl, d) + NumberBits(distanceBits, c.copies.distExtra[d])
  }

  function TokenBits(c: BlockCode, w: Writing): BitList
    requires c.Valid() && Writable(c, w)
  {
    match w
    case WriteLiteral(b) => SymbolBits(c.ll, b)
    case WriteCopy(k, lengthBits, d, distanceBits) =>
      LengthPart(c, k, lengthBits) + DistancePart(c, d, distanceBits)
  }

  lemma TokenRoundTrip(c: BlockCode, w: Writing, f: Stream, pos: nat)
    requires c.Valid() && Accepted(c.ll) && Accepted(c.dl) && Writable(c, w)
    requires BitsAt(f, pos, TokenBits(c, w))
    ensures NextToken(c, f, pos) == Produce(Written(c, w), pos + |TokenBits(c, w)|)
  {
    hide CodeBits, NumberBits, CanonicalCode.Code, SearchSymbol, Window, ValueOf;
    match w
    case WriteLiteral(b) =>
      SymbolRoundTrip(c.ll, b, f, pos);
    case WriteCopy(k, lengthBits, d, distanceBits) =>
      CopyRoundTrip(c, k, lengthBits, d, distanceBits, f, pos);
  }

  lemma CopyRoundTrip(c: BlockCode, k: nat, lengthBits: nat, d: nat, distanceBits: nat, f: Stream, pos: nat)
    requires c.Valid() && Accepted(c.ll) && Accepted(c.dl) && Writable(c, WriteCopy(k, lengthBits, d, distanceBits))
    requires BitsAt(f, pos, LengthPart(c, k, lengthBits) + DistancePart(c, d, distanceBits))
    ensures NextToken(c, f, pos) ==
            Produce(Copy(c.copies.lengthBase[k] + lengthBits, c.copies.distBase[d] + distanceBits),
                    pos + |LengthPart(c, k, lengthBits)| + |DistancePart(c, d, distanceBits)|)
  {
    hide CodeBits, NumberBits, CanonicalCode.Code, SearchSymbol, Window, ValueOf;
    var length, distance := LengthPart(c, k, lengthBits), DistancePart(c, d, distanceBits);
    BitsAtSplit(f, pos, length, distance);
    LengthRoundTrip(c, k, lengthBits, f, pos);
    DistanceRoundTrip(c, c.copies.lengthBase[k] + lengthBits, d, distanceBits, f, pos + |length|);
  }

  lemma LengthRoundTrip(c: BlockCode, k: nat, lengthBits: nat, f: Stream, pos: nat)
    requires c.Valid() && Accepted(c.ll) && k < 29 && Used(c.ll, 257 + k)
    requires lengthBits < Pow2(c.copies.lengthExtra[k])
    requires BitsAt(f, pos, LengthPart(c, k, lengthBits))
    ensures NextToken(c, f, pos) ==
            DistanceToken(c, f, c.copies.lengthBase[k] + lengthBits, pos + |LengthPart(c, k, lengthBits)|)
  {
    hide CodeBits, NumberBits, CanonicalCode.Code, SearchSymbol, Window, ValueOf, DistanceToken, Accepted;
    BitsAtSplit(f, pos, SymbolBits(c.ll, 257 + k), NumberBits(lengthBits, c.copies.lengthExtra[k]));
    SymbolRoundTrip(c.ll, 257 + k, f, pos);
    PeekNumber(f, pos + c.ll[257 + k], lengthBits, c.copies.lengthExtra[k]);
  }

  lemma DistanceRoundTrip(c: BlockCode, length: nat, d: nat, distanceBits: nat, f: Stream, pos: nat)
    requires c.Valid() && Accepted(c.dl) && d < 30 && Used(c.dl, d)
    requires distanceBits < Pow2(c.copies.distExtra[d])
    requires BitsAt(f, pos, DistancePart(c, d, distanceBits))
    ensures DistanceToken(c, f, length, pos) ==
            Produce(Copy(length, c.copies.distBase[d] + distanceBits), pos + |DistancePart(c, d, distanceBits)|)
  {
    BitsAtSplit(f, pos, SymbolBits(c.dl, d), NumberBits(distanceBits, c.copies.distExtra[d]));
    SymbolRoundTrip(c.dl, d, f, pos);
    PeekNumber(f, pos + c.dl[d], distanceBits, c.copies.distExtra[d]);
  }

  // ---- blocks --------------------------------------------------------------

  ghost predicate AllWritable(c: BlockCode, ws: seq<Writing>)
    requires c.Valid()
  {
    forall i :: 0 <= i < |ws| ==> Writable(c, ws[i])
  }

  function AllWritten(c: BlockCode, ws: seq<Writing>): seq<Token>
    requires c.Valid() && AllWritable(c, ws)
  {
    if ws == [] then [] else [Written(c, ws[0])] + AllWritten(c, ws[1..])
  }

  function BlockBits(c: BlockCode, ws: seq<Writing>): BitList
    requires c.Valid() && AllWritable(c, ws) && Used(c.ll, END_OF_BLOCK)
  {
    if ws == [] then SymbolBits(c.ll, END_OF_BLOCK)
    else TokenBits(c, ws[0]) + BlockBits(c, ws[1..])
  }

  lemma EmptyBlock(c: BlockCode, f: Stream, pos: nat)
    requires c.Valid() && Accepted(c.ll) && Accepted(c.dl) && Used(c.ll, END_OF_BLOCK)
    requires BitsAt(f, pos, BlockBits(c, []))
    ensures BlockAt(c, f, pos, [], pos + |BlockBits(c, [])|)
  {
    SymbolRoundTrip(c.ll, END_OF_BLOCK, f, pos);
    assert TokensAt(c, f, pos, [], pos);
  }

  // Whatever way the tokens of a block are written, reading gives them back and
  // ends right after the block.
  lemma {:induction false} BlockRoundTrip(c: BlockCode, ws: seq<Writing>, f: Stream, pos: nat)
    requires c.Valid() && Accepted(c.ll) && Accepted(c.dl)
    requires AllWritable(c, ws) && Used(c.ll, END_OF_BLOCK)
    requires BitsAt(f, pos, BlockBits(c, ws))
    ensures BlockAt(c, f, pos, AllWritten(c, ws), pos + |BlockBits(c, ws)|)
    decreases |ws|
  {
    hide BlockBits, NextToken, TokensAt, BlockAt, BitsAt, Accepted, Used, AllWritable, Writable, Written;
    hide BlockCode.Valid;
    if ws == [] {
      EmptyBlock(c, f, pos);
    } else {
      var next := BlockHead(c, ws, f, pos);
      BlockRoundTrip(c, ws[1..], f, next);
      BlockCons(c, f, pos, Written(c, ws[0]), next, AllWritten(c, ws[1..]), pos + |BlockBits(c, ws)|);
    }
  }

  lemma BlockHead(c: BlockCode, ws: seq<Writing>, f: Stream, pos: nat) returns (next: nat)
    requires c.Valid() && Accepted(c.ll) && Accepted(c.dl)
    requires ws != [] && AllWritable(c, ws) && Used(c.ll, END_OF_BLOCK)
    requires BitsAt(f, pos, BlockBits(c, ws))
    ensures Writable(c, ws[0]) && NextToken(c, f, pos) == Produce(Written(c, ws[0]), next)
    ensures AllWritable(c, ws[1..]) && BitsAt(f, next, BlockBits(c, ws[1..]))
    ensures next + |BlockBits(c, ws[1..])| == pos + |BlockBits(c, ws)|
  {
    hide CodeBits, NumberBits, CanonicalCode.Code, SearchSymbol, Window, ValueOf;
    var bits, rest := TokenBits(c, ws[0]), BlockBits(c, ws[1..]);
    BitsAtSplit(f, pos, bits, rest);
    TokenRoundTrip(c, ws[0], f, pos);
    next := pos + |bits|;
  }

  lemma BlockCons(c: BlockCode, f: Stream, pos: nat, token: Token, next: nat, rest: seq<Token>, end: nat)
    requires c.Valid() && NextToken(c, f, pos) == Produce(token, next)
    requires BlockAt(c, f, next, rest, end)
    ensures BlockAt(c, f, pos, [token] + rest, end)
  {
    var p :| TokensAt(c, f, next, rest, p) && NextToken(c, f, p) == End(end);
    assert ([token] + rest)[1..] == rest;
    assert TokensAt(c, f, pos, [token] + rest, p);
  }
}
