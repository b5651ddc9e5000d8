// Decoding a block that was written.
module InflateEncoding {
  import opened Bits
  import opened BitWriter
  import opened CanonicalCode
  import opened ZHuffman
  import opened BitReader
  import opened Lz77
  import opened Inflate
  import opened BlockEncoding

  // The decoder appends what the tokens written mean and stops right behind the
  // block, unless it refuses; it does not where the block lies within the input,
  // its copies within the output, and there is room.
  method ParseWritten(inflater: Inflater, c: BlockCode, ghost ws: seq<Writing>) returns (ok: bool)
    requires inflater.Ready(c) && Accepted(c.ll) && Accepted(c.dl)
    requires AllWritable(c, ws) && Used(c.ll, END_OF_BLOCK)
    requires BitsAt(inflater.reader.stream, inflater.reader.pos, BlockBits(c, ws))
    modifies inflater.reader, inflater.output, inflater.output.buf
    ensures inflater.reader.Valid() && inflater.output.Valid()
    ensures ok ==>
      && Fits(AllWritten(c, ws), |old(inflater.output.Bytes())|)
      && inflater.output.Bytes() == Expand(old(inflater.output.Bytes()), AllWritten(c, ws))
      && inflater.reader.pos == old(inflater.reader.pos) + |BlockBits(c, ws)|
    ensures
      && old(inflater.reader.pos) + |BlockBits(c, ws)| <= 8 * |inflater.reader.data|
      && Fits(AllWritten(c, ws), |old(inflater.output.Bytes())|)
      && |old(inflater.output.Bytes())| + Size(AllWritten(c, ws)) <= old(inflater.output.Limit())
      ==> ok
  {
    hide Tables.Represents, BlockBits, BlockAt, BitsAt, Accepted, Used, AllWritable, AllWritten, Expand, Fits, Size;
    ghost var f, pos := inflater.reader.stream, inflater.reader.pos;
    BlockRoundTrip(c, ws, f, pos);
    ghost var tokens;
    ok, tokens := inflater.ParseBlock(c);
    if ok {
      BlockUnique(c, f, pos, tokens, inflater.reader.pos, AllWritten(c, ws), pos + |BlockBits(c, ws)|);
    }
  }

  // ---- any tokens, with the tables of DEFLATE ------------------------------

  // The symbol whose range a length or distance lies in: the last one, up to number
  // `k`, that starts at or below it.
  function SymbolFor(bases: seq<nat>, x: nat, k: nat): (r: nat)
    requires k < |bases| && bases[0] <= x
    ensures r <= k && bases[r] <= x && forall j :: r < j <= k ==> bases[j] > x
  {
    if bases[k] <= x then k else SymbolFor(bases, x, k - 1)
  }

  // What DEFLATE can say: a byte, or a copy of 3 to 258 bytes from up to 32768 back.
  predicate Expressible(token: Token) {
    match token
    case Literal(b) => b < 256
    case Copy(length, distance) => 3 <= length <= 258 && 1 <= distance <= 32768
  }

  // How a token is written.
  function WritingOf(token: Token): Writing
    requires Expressible(token)
  {
    match token
    case Literal(b) => WriteLiteral(b)
    case Copy(length, distance) =>
      DeflateCodesProper();
      RangesAreAdjacent();
      var t := DEFLATE_CODES;
      var k, d := SymbolFor(t.lengthBase, length, 28), SymbolFor(t.distBase, distance, 29);
      WriteCopy(k, length - t.lengthBase[k], d, distance - t.distBase[d])
  }

  lemma ExtraBitsSuffice(token: Token)
    requires Expressible(token) && token.Copy?
    ensures var t, w := DEFLATE_CODES, WritingOf(token);
            && t.Proper() && w.WriteCopy? && w.k < 29 && w.d < 30
            && w.lengthBits < Pow2(t.lengthExtra[w.k]) && w.distanceBits < Pow2(t.distExtra[w.d])
            && t.lengthBase[w.k] + w.lengthBits == token.length && t.distBase[w.d] + w.distanceBits == token.distance
  {
    DeflateCodesProper();
    var t := DEFLATE_CODES;
    var k := SymbolFor(t.lengthBase, token.length, 28);
    var d := SymbolFor(t.distBase, token.distance, 29);
    LengthInRange(token.length, k);
    DistanceInRange(token.distance, d);
  }

  lemma LengthInRange(length: nat, k: nat)
    requires 3 <= length <= 258 && k <= 28 && DEFLATE_CODES.Proper() && DEFLATE_CODES.lengthBase[k] <= length
    requires forall j :: k < j <= 28 ==> DEFLATE_CODES.lengthBase[j] > length
    ensures length - DEFLATE_CODES.lengthBase[k] < Pow2(DEFLATE_CODES.lengthExtra[k])
  {
    hide Pow2;
    RangesAreAdjacent();
    LastRanges();
    assert k < 28 ==> DEFLATE_CODES.lengthBase[k + 1] > length;
  }

  lemma DistanceInRange(distance: nat, d: nat)
    requires 1 <= distance <= 32768 && d <= 29 && DEFLATE_CODES.Proper() && DEFLATE_CODES.distBase[d] <= distance
    requires forall j :: d < j <= 29 ==> DEFLATE_CODES.distBase[j] > distance
    ensures distance - DEFLATE_CODES.distBase[d] < Pow2(DEFLATE_CODES.distExtra[d])
  {
    hide Pow2;
    RangesAreAdjacent();
    assert d < 29 ==> DEFLATE_CODES.distBase[d + 1] > distance;
  }

  lemma LastRanges()
    ensures Pow2(0) == 1 && Pow2(DEFLATE_CODES.lengthExtra[27]) == 32
  {
    SmallPowers();
  }

  function WritingsOf(tokens: seq<Token>): (ws: seq<Writing>)
    requires forall i :: 0 <= i < |tokens| ==> Expressible(tokens[i])
    ensures |ws| == |tokens| && forall i :: 0 <= i < |ws| ==> ws[i] == WritingOf(tokens[i])
  {
    seq(|tokens|, i requires 0 <= i < |tokens| => WritingOf(tokens[i]))
  }

  // The codes have all symbols that the tokens need.
  ghost predicate HasSymbols(ll: seq<nat>, dl: seq<nat>, tokens: seq<Token>)
    requires forall i :: 0 <= i < |tokens| ==> Expressible(tokens[i])
  {
    && Used(ll, END_OF_BLOCK)
    && forall i :: 0 <= i < |tokens| ==>
         match WritingOf(tokens[i])
         case WriteLiteral(b) => Used(ll, b)
         case WriteCopy(k, _, d, _) => Used(ll, 257 + k) && Used(dl, d)
  }

  lemma {:induction false} WrittenAsTokens(c: BlockCode, tokens: seq<Token>)
    requires c.Valid() && c.copies == DEFLATE_CODES
    requires (forall i :: 0 <= i < |tokens| ==> Expressible(tokens[i])) && HasSymbols(c.ll, c.dl, tokens)
    ensures AllWritable(c, WritingsOf(tokens)) && AllWritten(c, WritingsOf(tokens)) == tokens
    ensures Used(c.ll, END_OF_BLOCK)
    decreases |tokens|
  {
    hide WritingOf, Pow2, Used;
    forall i | 0 <= i < |tokens|
      ensures Writable(c, WritingsOf(tokens)[i]) && Written(c, WritingsOf(tokens)[i]) == tokens[i]
    {
      WrittenAsToken(c, tokens[i]);
    }
    if tokens != [] {
      assert WritingsOf(tokens)[1..] == WritingsOf(tokens[1..]);
      WrittenAsTokens(c, tokens[1..]);
    }
  }

  lemma WrittenAsToken(c: BlockCode, token: Token)
    requires c.Valid() && c.copies == DEFLATE_CODES && Expressible(token)
    requires match WritingOf(token)
             case WriteLiteral(b) => Used(c.ll, b)
             case WriteCopy(k, _, d, _) => Used(c.ll, 257 + k) && Used(c.dl, d)
    ensures Writable(c, WritingOf(token)) && Written(c, WritingOf(token)) == token
  {
    hide Pow2;
    if token.Copy? {
      hide WritingOf;
      ExtraBitsSuffice(token);
    }
  }

  // ---- what tokens say about data ------------------------------------------

  // From byte `at` on the data is what the tokens say: the byte of a literal, and for
  // a copy bytes equal to those that lie its distance before them.
  ghost predicate Describes(tokens: seq<Token>, at: nat, data: seq<Byte>)
    decreases |tokens|
  {
    if tokens == [] then at == |data|
    else
      && at + TokenSize(tokens[0]) <= |data|
      && (match tokens[0]
          case Literal(b) => data[at] == b
          case Copy(length, distance) =>
            && 1 <= distance <= at
            && forall j {:trigger data[j]} :: at <= j < at + length ==> data[j] == data[j - distance])
      && Describes(tokens[1..], at + TokenSize(tokens[0]), data)
  }

  lemma {:induction false} CopyDescribed(data: seq<Byte>, at: nat, distance: nat, length: nat)
    requires 1 <= distance <= at && at + length <= |data|
    requires forall j {:trigger data[j]} :: at <= j < at + length ==> data[j] == data[j - distance]
    ensures CopyBack(data[..at], distance, length) == data[..at + length]
    decreases length
  {
    if length > 0 {
      CopyDescribed(data, at, distance, length - 1);
      var j := at + length - 1;
      assert data[j] == data[j - distance];
      assert data[..at + length] == data[..j] + [data[j]];
    }
  }

  // Tokens that describe data expand to the data, whatever lay before them.
  lemma {:induction false} DescribedIsExpanded(tokens: seq<Token>, at: nat, data: seq<Byte>)
    requires at <= |data| && Describes(tokens, at, data)
    ensures Fits(tokens, at) && at + Size(tokens) == |data| && Expand(data[..at], tokens) == data
    decreases |tokens|
  {
    if tokens == [] {
      assert data[..at] == data;
    } else {
      var next := at + TokenSize(tokens[0]);
      if tokens[0].Copy? {
        CopyDescribed(data, at, tokens[0].distance, tokens[0].length);
      }
      assert Emit(data[..at], tokens[0]) == data[..next];
      DescribedIsExpanded(tokens[1..], next, data);
    }
  }

  // Data that was compressed with any tokens that describe it, and any codes that
  // have their symbols, is what the decoder puts out.
  method ParseCompressed(inflater: Inflater, ll: seq<nat>, dl: seq<nat>, ghost tokens: seq<Token>,
                         ghost data: seq<Byte>)
    returns (ok: bool)
    requires inflater.Ready(BlockCode(ll, dl, DEFLATE_CODES)) && Accepted(ll) && Accepted(dl)
    requires forall i :: 0 <= i < |tokens| ==> Expressible(tokens[i])
    requires HasSymbols(ll, dl, tokens) && AllWritable(BlockCode(ll, dl, DEFLATE_CODES), WritingsOf(tokens))
    requires |inflater.output.Bytes()| <= |data| && inflater.output.Bytes() == data[..|inflater.output.Bytes()|]
    requires Describes(tokens, |inflater.output.Bytes()|, data)
    requires var bits := BlockBits(BlockCode(ll, dl, DEFLATE_CODES), WritingsOf(tokens));
             && BitsAt(inflater.reader.stream, inflater.reader.pos, bits)
             && inflater.reader.pos + |bits| <= 8 * |inflater.reader.data|
    requires |data| <= inflater.output.Limit()
    modifies inflater.reader, inflater.output, inflater.output.buf
    ensures inflater.reader.Valid() && inflater.output.Valid()
    ensures ok && inflater.output.Bytes() == data
    ensures inflater.reader.pos ==
            old(inflater.reader.pos) + |BlockBits(BlockCode(ll, dl, DEFLATE_CODES), WritingsOf(tokens))|
  {
    hide Tables.Represents, BlockBits, BitsAt, Accepted, Used, AllWritable, AllWritten, Expand, Fits, Size;
    hide Describes, HasSymbols, Pow2, WritingOf;
    var c := BlockCode(ll, dl, DEFLATE_CODES);
    DescribedIsExpanded(tokens, |inflater.output.Bytes()|, data);
    WrittenAsTokens(c, tokens);
    ok := ParseWritten(inflater, c, WritingsOf(tokens));
  }
}
