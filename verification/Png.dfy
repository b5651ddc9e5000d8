// Decoding PNG rows in two alternating buffers.
module Png {
  import opened Bits
  import opened PngFilter

  // Where line `j` starts: each has a filter byte before `nk` bytes.
  function Offset(nk: nat, j: nat): nat {
    if j == 0 then 0 else Offset(nk, j - 1) + nk + 1
  }

  lemma {:induction false} OffsetGrows(nk: nat, i: nat, j: nat)
    requires i <= j
    ensures Offset(nk, i) + (j - i) <= Offset(nk, j)
    decreases j
  {
    if i < j {
      OffsetGrows(nk, i, j - 1);
    }
  }

  function LineAt(raw: seq<Byte>, nk: nat, at: nat): Line
    requires at + nk < |raw|
  {
    Line(raw[at], raw[at + 1..at + 1 + nk])
  }

  function Lines(raw: seq<Byte>, nk: nat, y: nat): (r: seq<Line>)
    requires Offset(nk, y) <= |raw|
    ensures |r| == y && LinesOf(r, nk)
  {
    if y == 0 then [] else Lines(raw, nk, y - 1) + [LineAt(raw, nk, Offset(nk, y - 1))]
  }

  class RowDecoder {
    const nk: nat
    const bpp: nat
    // Two rows of `nk` bytes.
    const buf: array<Byte>

    constructor (nk: nat, bpp: nat, junk: nat -> Byte)
      requires 0 < bpp <= nk
      ensures this.nk == nk && this.bpp == bpp && fresh(buf) && Valid()
    {
      this.nk, this.bpp := nk, bpp;
      buf := new Byte[2 * nk](i => if i >= 0 then junk(i) else 0);
    }

    predicate Valid() {
      0 < bpp <= nk && buf.Length == 2 * nk
    }

    predicate Halves(cur: nat, prior: nat) {
      (cur == 0 && prior == nk) || (cur == nk && prior == 0)
    }

    // The first `k` bytes of the row in the making are those of `r`.
    ghost predicate Done(cur: nat, prior: nat, r: Row, above: Row, k: nat)
      reads buf
    {
      && Valid() && Halves(cur, prior) && |r| == nk && k <= nk
      && buf[prior..prior + nk] == above
      && forall i {:trigger r[i]} :: 0 <= i < k ==> buf[cur + i] == r[i]
    }

    lemma RowIs(cur: nat, prior: nat, r: Row, above: Row)
      requires Done(cur, prior, r, above, nk)
      ensures buf[cur..cur + nk] == r
    {
    }

    // cur[k] = raw[k]
    method CopyRow(cur: nat, prior: nat, raw: Row, to: nat, ghost filter: nat, ghost r: Row, ghost above: Row)
      requires Valid() && |r| == nk && Done(cur, prior, r, above, 0) && Solves(filter, bpp, raw, above, r)
      requires to <= nk && (filter == NONE || (to == bpp && (filter == SUB || filter == AVERAGE_FIRST)))
      modifies buf
      ensures Done(cur, prior, r, above, to)
    {
      hide Solves, Paeth, Mean, Plus, RowDecoder.Done;
      var k := 0;
      while k < to
        invariant 0 <= k <= to && Done(cur, prior, r, above, k)
      {
        SolvesAt(filter, bpp, raw, above, r, k);
        SameRow(cur, prior, r, above, k);
        Put(cur, prior, k, raw[k], r, above);
        k := k + 1;
      }
    }

    // cur[k] = raw[k] + up
    method AddUp(cur: nat, prior: nat, raw: Row, to: nat, ghost filter: nat, ghost r: Row, ghost above: Row)
      requires Valid() && |r| == nk && Done(cur, prior, r, above, 0) && Solves(filter, bpp, raw, above, r)
      requires to <= nk && (filter == UP || (to == bpp && filter == PAETH))
      modifies buf
      ensures Done(cur, prior, r, above, to)
    {
      hide Solves, Paeth, Mean, Plus, RowDecoder.Done;
      var k := 0;
      while k < to
        invariant 0 <= k <= to && Done(cur, prior, r, above, k)
      {
        SolvesAt(filter, bpp, raw, above, r, k);
        SameRow(cur, prior, r, above, k);
        Put(cur, prior, k, Plus(raw[k], buf[prior + k]), r, above);
        k := k + 1;
      }
    }

    // cur[k] = raw[k] + up / 2
    method AddHalfUp(cur: nat, prior: nat, raw: Row, ghost filter: nat, ghost r: Row, ghost above: Row)
      requires Valid() && |r| == nk && Done(cur, prior, r, above, 0) && Solves(filter, bpp, raw, above, r)
      requires filter == AVERAGE
      modifies buf
      ensures Done(cur, prior, r, above, bpp)
    {
      hide Solves, Paeth, Mean, Plus, RowDecoder.Done;
      var k := 0;
      while k < bpp
        invariant 0 <= k <= bpp && Done(cur, prior, r, above, k)
      {
        SolvesAt(filter, bpp, raw, above, r, k);
        SameRow(cur, prior, r, above, k);
        Put(cur, prior, k, Plus(raw[k], buf[prior + k] / 2), r, above);
        k := k + 1;
      }
    }

    // cur[k] = raw[k] + left
    method AddLeft(cur: nat, prior: nat, raw: Row, ghost filter: nat, ghost r: Row, ghost above: Row)
      requires Valid() && |r| == nk && Done(cur, prior, r, above, bpp) && Solves(filter, bpp, raw, above, r)
      requires filter == SUB
      modifies buf
      ensures Done(cur, prior, r, above, nk)
    {
      hide Solves, Paeth, Mean, Plus, RowDecoder.Done;
      var k := bpp;
      while k < nk
        invariant bpp <= k <= nk && Done(cur, prior, r, above, k)
      {
        SolvesAt(filter, bpp, raw, above, r, k);
        SameRow(cur, prior, r, above, k);
        Put(cur, prior, k, Plus(raw[k], buf[cur + k - bpp]), r, above);
        k := k + 1;
      }
    }

    // cur[k] = raw[k] + left / 2
    method AddHalfLeft(cur: nat, prior: nat, raw: Row, ghost filter: nat, ghost r: Row, ghost above: Row)
      requires Valid() && |r| == nk && Done(cur, prior, r, above, bpp) && Solves(filter, bpp, raw, above, r)
      requires filter == AVERAGE_FIRST
      modifies buf
      ensures Done(cur, prior, r, above, nk)
    {
      hide Solves, Paeth, Mean, Plus, RowDecoder.Done;
      var k := bpp;
      while k < nk
        invariant bpp <= k <= nk && Done(cur, prior, r, above, k)
      {
        SolvesAt(filter, bpp, raw, above, r, k);
        SameRow(cur, prior, r, above, k);
        Put(cur, prior, k, Plus(raw[k], buf[cur + k - bpp] / 2), r, above);
        k := k + 1;
      }
    }

    // cur[k] = raw[k] + (up + left) / 2
    method AddAverage(cur: nat, prior: nat, raw: Row, ghost filter: nat, ghost r: Row, ghost above: Row)
      requires Valid() && |r| == nk && Done(cur, prior, r, above, bpp) && Solves(filter, bpp, raw, above, r)
      requires filter == AVERAGE
      modifies buf
      ensures Done(cur, prior, r, above, nk)
    {
      hide Solves, Paeth, Mean, Plus, RowDecoder.Done;
      var k := bpp;
      while k < nk
        invariant bpp <= k <= nk && Done(cur, prior, r, above, k)
      {
        SolvesAt(filter, bpp, raw, above, r, k);
        SameRow(cur, prior, r, above, k);
        Put(cur, prior, k, Plus(raw[k], Mean(buf[prior + k], buf[cur + k - bpp])), r, above);
        k := k + 1;
      }
    }

    // cur[k] = raw[k] + paeth(left, up, up left)
    method AddPaeth(cur: nat, prior: nat, raw: Row, ghost filter: nat, ghost r: Row, ghost above: Row)
      requires Valid() && |r| == nk && Done(cur, prior, r, above, bpp) && Solves(filter, bpp, raw, above, r)
      requires filter == PAETH
      modifies buf
      ensures Done(cur, prior, r, above, nk)
    {
      hide Solves, Paeth, Mean, Plus, RowDecoder.Done;
      var k := bpp;
      while k < nk
        invariant bpp <= k <= nk && Done(cur, prior, r, above, k)
      {
        SolvesAt(filter, bpp, raw, above, r, k);
        SameRow(cur, prior, r, above, k);
        Put(cur, prior, k, Plus(raw[k], Paeth(buf[cur + k - bpp], buf[prior + k], buf[prior + k - bpp])), r, above);
        k := k + 1;
      }
    }

    // Byte `k` of the row in the making.
    method Put(cur: nat, prior: nat, k: nat, b: Byte, ghost r: Row, ghost above: Row)
      requires Done(cur, prior, r, above, k) && k < nk && k < |r| && b == r[k]
      modifies buf
      ensures Done(cur, prior, r, above, k + 1)
    {
      ghost var was := buf[..];
      assert buf[prior..prior + nk] == was[prior..prior + nk];
      buf[cur + k] := b;
      assert buf[prior..prior + nk] == was[prior..prior + nk];
    }

    // The bytes at hand when byte `k` is made.
    lemma SameRow(cur: nat, prior: nat, r: Row, above: Row, k: nat)
      requires Done(cur, prior, r, above, k) && k < nk
      ensures Valid() && cur + nk <= buf.Length && prior + nk <= buf.Length
      ensures |above| == nk && above[k] == buf[prior + k]
      ensures k >= bpp ==> above[k - bpp] == buf[prior + k - bpp] && r[k - bpp] == buf[cur + k - bpp]
    {
      assert k >= bpp ==> buf[cur + (k - bpp)] == r[k - bpp] && above[k - bpp] == buf[prior + (k - bpp)];
    }

    // Undoes the filter of one line.
    method DecodeLine(cur: nat, prior: nat, filter: nat, raw: Row, ghost r: Row)
      requires Valid() && Halves(cur, prior) && Solves(filter, bpp, raw, buf[prior..prior + nk], r) && |r| == nk
      modifies buf
      ensures buf[cur..cur + nk] == r && buf[prior..prior + nk] == old(buf[prior..prior + nk])
    {
      ghost var above := buf[prior..prior + nk];
      assert Done(cur, prior, r, above, 0) && filter <= 5;
      hide Solves, RowDecoder.Done;
      if filter == NONE {
        CopyRow(cur, prior, raw, nk, filter, r, above);
      } else if filter == SUB {
        CopyRow(cur, prior, raw, bpp, filter, r, above);
        AddLeft(cur, prior, raw, filter, r, above);
      } else if filter == UP {
        AddUp(cur, prior, raw, nk, filter, r, above);
      } else if filter == AVERAGE {
        AddHalfUp(cur, prior, raw, filter, r, above);
        AddAverage(cur, prior, raw, filter, r, above);
      } else if filter == PAETH {
        AddUp(cur, prior, raw, bpp, filter, r, above);
        AddPaeth(cur, prior, raw, filter, r, above);
      } else {
        CopyRow(cur, prior, raw, bpp, filter, r, above);
        AddHalfLeft(cur, prior, raw, filter, r, above);
      }
      RowIs(cur, prior, r, above);
      AboveIs(cur, prior, r, above);
    }

    lemma AboveIs(cur: nat, prior: nat, r: Row, above: Row)
      requires Done(cur, prior, r, above, nk)
      ensures buf[prior..prior + nk] == above
    {
    }

    // Decodes one line; the first goes without the row above it.
    method DecodeOne(cur: nat, prior: nat, filter: nat, raw: Row, isFirst: bool, ghost above: Row)
      requires Valid() && Halves(cur, prior) && filter <= 4 && |raw| == nk == |above|
      requires if isFirst then above == Blank(nk) else buf[prior..prior + nk] == above
      modifies buf
      ensures buf[cur..cur + nk] == Recon(filter, bpp, raw, above, nk)
    {
      hide Recon, Solves, Blank;
      ghost var r := Recon(filter, bpp, raw, above, nk);
      var actual := filter;
      if isFirst {
        FirstRowSolves(filter, bpp, raw, buf[prior..prior + nk]);
        actual := FirstRowFilter(filter);
      } else {
        ReconSolves(filter, bpp, raw, above);
      }
      DecodeLine(cur, prior, actual, raw, r);
    }

    // Where row `j` is made.
    function Half(j: nat): (at: nat)
      ensures at == 0 || at == nk
    {
      if j % 2 == 1 then nk else 0
    }

    // A row is made in one half while the row above it stands in the other.
    lemma OtherHalf(j: nat)
      ensures Halves(Half(j), Half(j + 1)) && (j > 0 ==> Half(j + 1) == Half(j - 1))
    {
    }

    // Decodes `y` lines: the rows, or nothing after an unknown filter.
    method DecodeRows(raw: seq<Byte>, y: nat) returns (out: seq<Row>, ok: bool)
      requires Valid() && Offset(nk, y) <= |raw|
      modifies buf
      ensures ReconImage(bpp, nk, Lines(raw, nk, y)) == if ok then Rows(out) else Bad
    {
      hide Recon, Lines, ReconImage, Offset, Blank, RowDecoder.Half;
      StartOffset(nk);
      out, ok := [], true;
      var at := 0;
      var j := 0;
      NoLines(raw, nk, bpp);
      while j < y
        invariant j <= y && at == Offset(nk, j) <= |raw| && |out| == j
        invariant ReconImage(bpp, nk, Lines(raw, nk, j)) == Rows(out)
        invariant j > 0 ==> buf[Half(j - 1)..Half(j - 1) + nk] == out[j - 1]
      {
        var cur, prior := Half(j), Half(j + 1);
        OtherHalf(j);
        OffsetGrows(nk, j + 1, y);
        ghost var line := LineAt(raw, nk, at);
        OneMore(raw, nk, bpp, j);
        var filter := raw[at];
        at := at + 1;
        if filter > 4 {
          OneBad(raw, nk, bpp, j, y);
          return out, false;
        }
        DecodeOne(cur, prior, filter, raw[at..at + nk], j == 0, Above(out, nk));
        at := at + nk;
        out := out + [buf[cur..cur + nk]];
        j := j + 1;
      }
    }
  }

  // ---- whole images --------------------------------------------------------

  // The data of an image: each line a filter byte and the filtered row.
  function Serialized(lines: seq<Line>): seq<Byte>
    requires Known(lines)
  {
    if lines == [] then []
    else
      var n := |lines| - 1;
      Serialized(lines[..n]) + [lines[n].filter] + lines[n].raw
  }

  lemma {:induction false} LinesOfSerialized(nk: nat, lines: seq<Line>, rest: seq<Byte>)
    requires LinesOf(lines, nk) && Known(lines)
    ensures |Serialized(lines)| == Offset(nk, |lines|)
    ensures Lines(Serialized(lines) + rest, nk, |lines|) == lines
    decreases |lines|
  {
    if lines != [] {
      var n := |lines| - 1;
      var more := [lines[n].filter] + lines[n].raw + rest;
      LinesOfSerialized(nk, lines[..n], more);
      assert Serialized(lines) + rest == Serialized(lines[..n]) + more;
      var raw, at := Serialized(lines) + rest, Offset(nk, n);
      assert raw[at] == more[0] && raw[at + 1..at + 1 + nk] == lines[n].raw;
      assert lines[..n] + [lines[n]] == lines;
    }
  }

  // Decoding the data of an image gives its rows back, whatever filters they use.
  method DecodeWritten(decoder: RowDecoder, raw: seq<Byte>, y: nat, ghost rows: seq<Row>, ghost filters: seq<nat>,
                       ghost rest: seq<Byte>)
    returns (out: seq<Row>, ok: bool)
    requires decoder.Valid() && Choice(decoder.nk, rows, filters) && |rows| == y
    requires raw == Serialized(FilterImage(decoder.bpp, decoder.nk, rows, filters)) + rest
    modifies decoder.buf
    ensures ok && out == rows
  {
    hide FilterImage, ReconImage, Serialized, Lines, Offset, Choice;
    LinesOfSerialized(decoder.nk, FilterImage(decoder.bpp, decoder.nk, rows, filters), rest);
    ImageRoundTrip(decoder.bpp, decoder.nk, rows, filters);
    out, ok := decoder.DecodeRows(raw, y);
  }

  lemma StartOffset(nk: nat)
    ensures Offset(nk, 0) == 0 && forall j: nat :: Offset(nk, j + 1) == Offset(nk, j) + nk + 1
  {
  }

  lemma NoLines(raw: seq<Byte>, nk: nat, bpp: nat)
    requires bpp > 0
    ensures ReconImage(bpp, nk, Lines(raw, nk, 0)) == Rows([])
  {
  }

  lemma OneMore(raw: seq<Byte>, nk: nat, bpp: nat, j: nat)
    requires bpp > 0 && Offset(nk, j + 1) <= |raw|
    ensures var before := ReconImage(bpp, nk, Lines(raw, nk, j));
            var line := LineAt(raw, nk, Offset(nk, j));
            before.Rows? && line.filter <= 4 ==>
              ReconImage(bpp, nk, Lines(raw, nk, j + 1)) ==
              Rows(before.rows + [Recon(line.filter, bpp, line.raw, Above(before.rows, nk), nk)])
  {
    hide Recon, ReconImage;
    ReconLast(bpp, nk, Lines(raw, nk, j), LineAt(raw, nk, Offset(nk, j)));
  }

  // An unknown filter anywhere makes the whole image bad.
  lemma {:induction false} OneBad(raw: seq<Byte>, nk: nat, bpp: nat, j: nat, y: nat)
    requires bpp > 0 && j < y && Offset(nk, y) <= |raw|
    requires Offset(nk, j) + nk < |raw| && raw[Offset(nk, j)] > 4
    ensures ReconImage(bpp, nk, Lines(raw, nk, y)) == Bad
    decreases y
  {
    hide ReconImage;
    OffsetGrows(nk, y - 1, y);
    ReconLast(bpp, nk, Lines(raw, nk, y - 1), LineAt(raw, nk, Offset(nk, y - 1)));
    if j < y - 1 {
      OneBad(raw, nk, bpp, j, y - 1);
    }
  }
}
