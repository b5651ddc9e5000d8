// What a DEFLATE block means: literals and copies of earlier output
// (sections 3.2.3 and 3.2.5 of RFC 1951).
module Lz77 {
  import opened Arith
  import opened Bits
  import opened CanonicalCode
  import opened BitReader

  datatype Token = Literal(value: Byte) | Copy(length: nat, distance: nat)

  const END_OF_BLOCK := 256

  // What the length and distance symbols stand for: a base value and how many
  // more bits are added to it.
  datatype CopyCodes = CopyCodes(lengthBase: seq<nat>, lengthExtra: seq<nat>, distBase: seq<nat>, distExtra: seq<nat>) {
    predicate Proper() {
      && |lengthBase| == |lengthExtra| == 31 && |distBase| == |distExtra| == 32
      && (forall k :: 0 <= k < 29 ==> lengthBase[k] >= 3)
      && (forall k :: 0 <= k < 29 ==> lengthExtra[k] < 6)
      && (forall k :: 0 <= k < 30 ==> distBase[k] >= 1)
      && (forall k :: 0 <= k < 30 ==> distExtra[k] < 14)
    }
  }

  const DEFLATE_CODES := CopyCodes(
    [3, 4, 5, 6, 7, 8, 9, 10, 11, 13, 15, 17, 19, 23, 27, 31, 35, 43, 51, 59, 67, 83, 99, 115, 131, 163, 195, 227,
     258, 0, 0],
    [0, 0, 0, 0, 0, 0, 0, 0, 1, 1, 1, 1, 2, 2, 2, 2, 3, 3, 3, 3, 4, 4, 4, 4, 5, 5, 5, 5, 0, 0, 0],
    [1, 2, 3, 4, 5, 7, 9, 13, 17, 25, 33, 49, 65, 97, 129, 193, 257, 385, 513, 769,
     1025, 1537, 2049, 3073, 4097, 6145, 8193, 12289, 16385, 24577, 0, 0],
    [0, 0, 0, 0, 1, 1, 2, 2, 3, 3, 4, 4, 5, 5, 6, 6, 7, 7, 8, 8, 9, 9, 10, 10, 11, 11, 12, 12, 13, 13, 0, 0])

  lemma DeflateCodesProper()
    ensures DEFLATE_CODES.Proper()
  {
    LengthBases();
    LengthExtras();
    DistBases();
    DistExtras();
  }

  lemma LengthBases()
    ensures |DEFLATE_CODES.lengthBase| == 31 && forall k :: 0 <= k < 29 ==> DEFLATE_CODES.lengthBase[k] >= 3
  {
    var base := DEFLATE_CODES.lengthBase;
    forall k | 0 <= k < 29
      ensures base[k] >= 3
    {
    }
  }

  lemma LengthExtras()
    ensures |DEFLATE_CODES.lengthExtra| == 31 && forall k :: 0 <= k < 29 ==> DEFLATE_CODES.lengthExtra[k] < 6
  {
  }

  lemma DistBases()
    ensures |DEFLATE_CODES.distBase| == 32 && forall k :: 0 <= k < 30 ==> DEFLATE_CODES.distBase[k] >= 1
  {
  }

  lemma DistExtras()
    ensures |DEFLATE_CODES.distExtra| == 32 && forall k :: 0 <= k < 30 ==> DEFLATE_CODES.distExtra[k] < 14
  {
  }

  // Each symbol's range starts where the one before it ends, so every length from
  // 3 to 258 and every distance from 1 to 32768 can be written. Only the last range
  // of lengths starts a place early: symbol 284 with all its extra bits set also
  // stands for 258.
  lemma RangesAreAdjacent()
    ensures var t := DEFLATE_CODES;
      && t.lengthBase[0] == 3 && t.lengthBase[28] == 258 && t.lengthExtra[28] == 0
      && (forall k :: 0 <= k < 27 ==> t.lengthBase[k + 1] == t.lengthBase[k] + Pow2(t.lengthExtra[k]))
      && t.lengthBase[27] + (Pow2(t.lengthExtra[27]) - 1) == t.lengthBase[28]
      && t.distBase[0] == 1 && t.distBase[29] + Pow2(t.distExtra[29]) == 32769
      && (forall d :: 0 <= d < 29 ==> t.distBase[d + 1] == t.distBase[d] + Pow2(t.distExtra[d]))
  {
    hide Pow2;
    LengthRanges();
    DistRanges();
  }

  // How many extra bits follow the symbols (the tables in section 3.2.5 of RFC 1951):
  // with the ranges adjacent, these determine where each range starts.
  lemma ExtraBitsAsSpecified()
    ensures forall k :: 0 <= k < 28 ==> DEFLATE_CODES.lengthExtra[k] == if k < 8 then 0 else k / 4 - 1
    ensures forall d :: 0 <= d < 30 ==> DEFLATE_CODES.distExtra[d] == if d < 4 then 0 else d / 2 - 1
    ensures DEFLATE_CODES.lengthExtra[28] == 0
  {
    LengthExtras();
    DistExtras();
  }

  lemma LengthRanges()
    ensures var t := DEFLATE_CODES;
      && t.lengthBase[0] == 3 && t.lengthBase[28] == 258 && t.lengthExtra[28] == 0
      && (forall k :: 0 <= k < 27 ==> t.lengthBase[k + 1] == t.lengthBase[k] + Pow2(t.lengthExtra[k]))
      && t.lengthBase[27] + (Pow2(t.lengthExtra[27]) - 1) == t.lengthBase[28]
  {
    hide Pow2;
    SmallPowers();
  }

  lemma DistRanges()
    ensures var t := DEFLATE_CODES;
      && t.distBase[0] == 1 && t.distBase[29] + Pow2(t.distExtra[29]) == 32769
      && (forall d :: 0 <= d < 29 ==> t.distBase[d + 1] == t.distBase[d] + Pow2(t.distExtra[d]))
  {
    hide Pow2;
    SmallPowers();
  }

  lemma SmallPowers()
    ensures Pow2(0) == 1 && Pow2(1) == 2 && Pow2(2) == 4 && Pow2(3) == 8 && Pow2(4) == 16
    ensures Pow2(5) == 32 && Pow2(6) == 64 && Pow2(7) == 128 && Pow2(8) == 256 && Pow2(9) == 512
    ensures Pow2(10) == 1024 && Pow2(11) == 2048 && Pow2(12) == 4096 && Pow2(13) == 8192
  {
    assert Pow2(4) == 16;
    assert Pow2(8) == 256;
    assert Pow2(12) == 4096;
  }

  // The codes in force in one block: code lengths of the literal/length symbols
  // and of the distance symbols.
  datatype BlockCode = BlockCode(ll: seq<nat>, dl: seq<nat>, copies: CopyCodes) {
    predicate Valid() {
      Lengths(ll) && Lengths(dl) && copies.Proper()
    }
  }

  // ---- output --------------------------------------------------------------

  // Appends `length` bytes, each equal to the one `distance` bytes before it.
  function CopyBack(out: seq<Byte>, distance: nat, length: nat): (r: seq<Byte>)
    requires 1 <= distance <= |out|
    ensures |r| == |out| + length
  {
    if length == 0 then out
    else
      var r := CopyBack(out, distance, length - 1);
      r + [r[|r| - distance]]
  }

  lemma CopyBackSteps(out: seq<Byte>, distance: nat, k: nat)
    requires 1 <= distance <= |out|
    ensures CopyBack(out, distance, 0) == out
    ensures var r := CopyBack(out, distance, k);
            CopyBack(out, distance, k + 1) == r + [r[|r| - distance]]
  {
  }

  // A copy keeps the output before it and repeats its last `distance` bytes,
  // also when it reads bytes that it wrote itself.
  lemma CopyIsPeriodic(out: seq<Byte>, distance: nat, length: nat)
    requires 1 <= distance <= |out|
    ensures CopyBack(out, distance, length)[..|out|] == out
    ensures forall j :: 0 <= j < length ==>
              CopyBack(out, distance, length)[|out| + j] == out[|out| - distance + j % distance]
  {
    CopyHasPeriod(out, distance, length);
    forall j | 0 <= j < length
      ensures CopyBack(out, distance, length)[|out| + j] == out[|out| - distance + j % distance]
    {
      assert CopyBack(out, distance, length)[|out| + j] == PeriodAt(out, distance, j);
      hide CopyBack;
    }
  }

  // The byte that the copy repeats at place `j`.
  function PeriodAt(out: seq<Byte>, distance: nat, j: nat): Byte
    requires 1 <= distance <= |out|
  {
    out[|out| - distance + j % distance]
  }

  lemma {:induction false} CopyHasPeriod(out: seq<Byte>, distance: nat, length: nat)
    requires 1 <= distance <= |out|
    ensures CopyBack(out, distance, length)[..|out|] == out
    ensures forall j: nat :: j < length ==> CopyBack(out, distance, length)[|out| + j] == PeriodAt(out, distance, j)
  {
    hide CopyBack, PeriodAt;
    CopyBackSteps(out, distance, 0);
    if length > 0 {
      var r := CopyBack(out, distance, length - 1);
      CopyBackSteps(out, distance, length - 1);
      CopyHasPeriod(out, distance, length - 1);
      CopiedByte(out, r, distance, length - 1);
      OneMoreByte(r, r[|r| - distance], |out|);
    }
  }

  lemma OneMoreByte(r: seq<Byte>, b: Byte, n: nat)
    requires n <= |r|
    ensures (r + [b])[..n] == r[..n]
  {
  }

  lemma CopiedByte(out: seq<Byte>, r: seq<Byte>, distance: nat, j: nat)
    requires 1 <= distance <= |out| && |r| == |out| + j && r[..|out|] == out
    requires forall i: nat :: i < j ==> r[|out| + i] == PeriodAt(out, distance, i)
    ensures r[|r| - distance] == PeriodAt(out, distance, j)
  {
    if j >= distance {
      ModStep(j, distance);
      assert r[|out| + (j - distance)] == PeriodAt(out, distance, j - distance);
    } else {
      DivModUnique(j, distance, 0, j);
      assert r[|r| - distance] == r[..|out|][|out| - distance + j];
    }
  }

  predicate TokenFits(token: Token, size: nat) {
    token.Copy? ==> 1 <= token.distance <= size
  }

  function TokenSize(token: Token): nat {
    if token.Literal? then 1 else token.length
  }

  function Emit(out: seq<Byte>, token: Token): (r: seq<Byte>)
    requires TokenFits(token, |out|)
    ensures |r| == |out| + TokenSize(token)
  {
    match token
    case Literal(b) => out + [b]
    case Copy(length, distance) => CopyBack(out, distance, length)
  }

  // No copy reaches back before the first byte of the output.
  predicate Fits(tokens: seq<Token>, size: nat) {
    tokens == [] || (TokenFits(tokens[0], size) && Fits(tokens[1..], size + TokenSize(tokens[0])))
  }

  function Size(tokens: seq<Token>): nat {
    if tokens == [] then 0 else TokenSize(tokens[0]) + Size(tokens[1..])
  }

  // The output after a list of tokens.
  function Expand(out: seq<Byte>, tokens: seq<Token>): (r: seq<Byte>)
    requires Fits(tokens, |out|)
    ensures |r| == |out| + Size(tokens)
    decreases |tokens|
  {
    if tokens == [] then out else Expand(Emit(out, tokens[0]), tokens[1..])
  }

  lemma {:induction false} ExpandAppend(out: seq<Byte>, tokens: seq<Token>, token: Token)
    requires Fits(tokens, |out|) && TokenFits(token, |out| + Size(tokens))
    ensures Fits(tokens + [token], |out|)
    ensures Expand(out, tokens + [token]) == Emit(Expand(out, tokens), token)
    decreases |tokens|
  {
    if tokens == [] {
      assert [token][1..] == [];
    } else {
      assert (tokens + [token])[1..] == tokens[1..] + [token];
      ExpandAppend(Emit(out, tokens[0]), tokens[1..], token);
    }
  }

  lemma {:induction false} SizeAppend(tokens: seq<Token>, token: Token)
    ensures Size(tokens + [token]) == Size(tokens) + TokenSize(token)
  {
    if tokens == [] {
      assert [token][1..] == [];
    } else {
      assert (tokens + [token])[1..] == tokens[1..] + [token];
      SizeAppend(tokens[1..], token);
    }
  }

  // Earlier output is never changed.
  lemma {:induction false} ExpandKeeps(out: seq<Byte>, tokens: seq<Token>)
    requires Fits(tokens, |out|)
    ensures Expand(out, tokens)[..|out|] == out
    decreases |tokens|
  {
    if tokens != [] {
      var next := Emit(out, tokens[0]);
      if tokens[0].Copy? {
        CopyIsPeriodic(out, tokens[0].distance, tokens[0].length);
      }
      assert next[..|out|] == out;
      ExpandKeeps(next, tokens[1..]);
      assert Expand(out, tokens)[..|out|] == Expand(out, tokens)[..|next|][..|out|];
    }
  }

  // ---- input ---------------------------------------------------------------

  datatype Step = Produce(token: Token, next: nat) | End(next: nat) | Bad

  // The token written at bit `pos`.
  function NextToken(c: BlockCode, f: Stream, pos: nat): (s: Step)
    requires c.Valid()
    ensures !s.Bad? ==> s.next >= pos
  {
    var z := NextSymbol(c.ll, f, pos);
    if z < 0 then Bad
    else if z < END_OF_BLOCK then Produce(Literal(z), pos + c.ll[z])
    else if z == END_OF_BLOCK then End(pos + c.ll[z])
    else if z >= 286 then Bad
    else CopyToken(c, f, z - 257, pos + c.ll[z])
  }

  // The copy with length symbol `k`, from bit `p1` just after that symbol.
  function CopyToken(c: BlockCode, f: Stream, k: nat, p1: nat): (s: Step)
    requires c.Valid() && k < 29
    ensures s.Produce? ==> s.next >= p1
    ensures !s.End?
  {
    var extra := c.copies.lengthExtra[k];
    DistanceToken(c, f, c.copies.lengthBase[k] + Peek(f, p1, extra), p1 + extra)
  }

  // The copy of `length` bytes whose distance symbol is at bit `p2`.
  function DistanceToken(c: BlockCode, f: Stream, length: nat, p2: nat): (s: Step)
    requires c.Valid()
    ensures s.Produce? ==> s.next >= p2
    ensures !s.End?
  {
    var d := NextSymbol(c.dl, f, p2);
    if d < 0 || d >= 30 then Bad else FinishCopy(c, f, length, d, p2 + c.dl[d])
  }

  // The copy with distance symbol `d`, from bit `p3` just after that symbol.
  function FinishCopy(c: BlockCode, f: Stream, length: nat, d: nat, p3: nat): (s: Step)
    requires c.Valid() && d < 30
    ensures s.Produce? && s.next >= p3
  {
    var extra := c.copies.distExtra[d];
    Produce(Copy(length, c.copies.distBase[d] + Peek(f, p3, extra)), p3 + extra)
  }

  // Bits `pos` to `next` write exactly `tokens`.
  predicate TokensAt(c: BlockCode, f: Stream, pos: nat, tokens: seq<Token>, next: nat)
    requires c.Valid()
    decreases |tokens|
  {
    if tokens == [] then pos == next
    else
      var step := NextToken(c, f, pos);
      step.Produce? && step.token == tokens[0] && TokensAt(c, f, step.next, tokens[1..], next)
  }

  // Bits `pos` to `end` write `tokens` and the end-of-block code.
  ghost predicate BlockAt(c: BlockCode, f: Stream, pos: nat, tokens: seq<Token>, end: nat)
    requires c.Valid()
  {
    exists p :: TokensAt(c, f, pos, tokens, p) && NextToken(c, f, p) == End(end)
  }

  lemma {:induction false} TokensAtAppend(c: BlockCode, f: Stream, pos: nat, tokens: seq<Token>, next: nat)
    requires c.Valid()
    requires TokensAt(c, f, pos, tokens, next) && NextToken(c, f, next).Produce?
    ensures TokensAt(c, f, pos, tokens + [NextToken(c, f, next).token], NextToken(c, f, next).next)
    decreases |tokens|
  {
    var step := NextToken(c, f, next);
    if tokens == [] {
      assert [step.token][1..] == [];
    } else {
      assert (tokens + [step.token])[1..] == tokens[1..] + [step.token];
      TokensAtAppend(c, f, NextToken(c, f, pos).next, tokens[1..], next);
    }
  }

  // A block that begins with `done` goes on from where `done` ends.
  lemma {:induction false} Continue(c: BlockCode, f: Stream, pos: nat, done: seq<Token>, next: nat,
                                    tokens: seq<Token>, end: nat)
    requires c.Valid()
    requires TokensAt(c, f, pos, done, next) && BlockAt(c, f, pos, tokens, end)
    ensures |done| <= |tokens| && done == tokens[..|done|]
    ensures BlockAt(c, f, next, tokens[|done|..], end)
    decreases |done|
  {
    hide NextToken;
    if done == [] {
      assert tokens[0..] == tokens;
    } else {
      var p :| TokensAt(c, f, pos, tokens, p) && NextToken(c, f, p) == End(end);
      assert tokens != [];
      Continue(c, f, NextToken(c, f, pos).next, done[1..], next, tokens[1..], end);
      assert tokens[1..][..|done| - 1] == tokens[1..|done|];
      assert tokens[1..][|done| - 1..] == tokens[|done|..];
    }
  }

  // The input determines the tokens and where the block ends.
  lemma BlockUnique(c: BlockCode, f: Stream, pos: nat, tokens: seq<Token>, end: nat, tokens': seq<Token>, end': nat)
    requires c.Valid()
    requires BlockAt(c, f, pos, tokens, end) && BlockAt(c, f, pos, tokens', end')
    ensures tokens == tokens' && end == end'
  {
    var p :| TokensAt(c, f, pos, tokens, p) && NextToken(c, f, p) == End(end);
    Continue(c, f, pos, tokens, p, tokens', end');
    assert tokens'[|tokens|..] == [];
  }

  lemma {:induction false} FitsSplit(tokens: seq<Token>, k: nat, size: nat)
    requires k <= |tokens| && Fits(tokens, size)
    ensures Fits(tokens[k..], size + Size(tokens[..k]))
    ensures Size(tokens[..k]) + Size(tokens[k..]) == Size(tokens)
    decreases k
  {
    if k == 0 {
      assert tokens[0..] == tokens;
    } else {
      FitsSplit(tokens[1..], k - 1, size + TokenSize(tokens[0]));
      assert tokens[1..][k - 1..] == tokens[k..];
      assert tokens[..k][1..] == tokens[1..][..k - 1];
    }
  }

  // From bit `start` to bit `pos` the input writes `tokens`, which turn the
  // output `before` into `now`.
  ghost predicate Decoded(c: BlockCode, f: Stream, start: nat, tokens: seq<Token>, pos: nat, before: seq<Byte>,
                          now: seq<Byte>)
    requires c.Valid()
  {
    TokensAt(c, f, start, tokens, pos) && Fits(tokens, |before|) && now == Expand(before, tokens)
  }

  lemma DecodedMore(c: BlockCode, f: Stream, start: nat, tokens: seq<Token>, pos: nat, before: seq<Byte>)
    requires c.Valid()
    requires Fits(tokens, |before|) && Decoded(c, f, start, tokens, pos, before, Expand(before, tokens))
    requires NextToken(c, f, pos).Produce? && TokenFits(NextToken(c, f, pos).token, |before| + Size(tokens))
    ensures var token := NextToken(c, f, pos).token;
            && Size(tokens + [token]) == Size(tokens) + TokenSize(token)
            && Decoded(c, f, start, tokens + [token], NextToken(c, f, pos).next, before,
                       Emit(Expand(before, tokens), token))
  {
    TokensAtAppend(c, f, start, tokens, pos);
    ExpandAppend(before, tokens, NextToken(c, f, pos).token);
    SizeAppend(tokens, NextToken(c, f, pos).token);
  }

  // Every code moves forward.
  lemma {:induction false} PositionsGrow(c: BlockCode, f: Stream, pos: nat, tokens: seq<Token>, next: nat)
    requires c.Valid()
    requires TokensAt(c, f, pos, tokens, next)
    ensures pos <= next
    decreases |tokens|
  {
    if tokens != [] {
      assert NextToken(c, f, pos).Produce?;
      PositionsGrow(c, f, NextToken(c, f, pos).next, tokens[1..], next);
    }
  }

  // A block that begins with `done` either ends there, or has the token written
  // there as its next one, which then fits and ends within the block.
  lemma NextOfBlock(c: BlockCode, f: Stream, pos: nat, done: seq<Token>, p: nat, tokens: seq<Token>, end: nat,
                    size: nat)
    requires c.Valid()
    requires TokensAt(c, f, pos, done, p)
    requires BlockAt(c, f, pos, tokens, end) && Fits(tokens, size)
    ensures p <= end && Size(done) <= Size(tokens)
    ensures NextToken(c, f, p) == End(end)
         || (&& NextToken(c, f, p).Produce? && NextToken(c, f, p).next <= end
             && TokenFits(NextToken(c, f, p).token, size + Size(done))
             && Size(done) + TokenSize(NextToken(c, f, p).token) <= Size(tokens))
  {
    hide NextToken;
    Continue(c, f, pos, done, p, tokens, end);
    FitsSplit(tokens, |done|, size);
    var rest := tokens[|done|..];
    var q :| TokensAt(c, f, p, rest, q) && NextToken(c, f, q) == End(end);
    PositionsGrow(c, f, p, rest, q);
    if rest != [] {
      PositionsGrow(c, f, NextToken(c, f, p).next, rest[1..], q);
    }
  }

  // When the token after `tokens` is bad, lies past bit `bound`, does not fit or
  // makes the output longer than `limit`, so does every block that begins here.
  lemma RefusedForGood(c: BlockCode, f: Stream, start: nat, tokens: seq<Token>, pos: nat,
                       size: nat, bound: nat, limit: nat)
    requires c.Valid() && TokensAt(c, f, start, tokens, pos)
    requires var step := NextToken(c, f, pos);
             || step == Bad || step.next > bound
             || (step.Produce? && (TokenFits(step.token, size + Size(tokens)) ==>
                                   size + Size(tokens) + TokenSize(step.token) > limit))
    ensures forall want, end: nat :: BlockAt(c, f, start, want, end) && Fits(want, size) ==>
              end > bound || size + Size(want) > limit
  {
    forall want, end: nat | BlockAt(c, f, start, want, end) && Fits(want, size)
      ensures end > bound || size + Size(want) > limit
    {
      NextOfBlock(c, f, start, tokens, pos, want, end, size);
    }
  }
}
