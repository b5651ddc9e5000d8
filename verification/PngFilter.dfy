// PNG rows: the reference reconstruction, and that it undoes filtering.
module PngFilter {
  import opened Bits

  const NONE := 0
  const SUB := 1
  const UP := 2
  const AVERAGE := 3
  const PAETH := 4

  type Row = seq<Byte>

  // ---- the predictor -------------------------------------------------------

  function Abs(x: int): nat {
    if x < 0 then -x else x
  }

  // The neighbour closest to a + b - c; ties go to the left, then up.
  function PaethReference(a: int, b: int, c: int): int {
    var p := a + b - c;
    var pa, pb, pc := Abs(p - a), Abs(p - b), Abs(p - c);
    if pa <= pb && pa <= pc then a else if pb <= pc then b else c
  }

  // The decoder's version, by comparing with a threshold.
  function Paeth(a: int, b: int, c: int): (r: int)
    ensures r == PaethReference(a, b, c)
  {
    var thresh := c * 3 - (a + b);
    var lo, hi := if a < b then a else b, if a < b then b else a;
    var t0 := if hi <= thresh then lo else c;
    if thresh <= lo then hi else t0
  }

  // What a filter predicts from the bytes left, up, and up left.
  function Predict(filter: nat, a: Byte, b: Byte, c: Byte): (r: Byte)
    requires filter <= 4
  {
    if filter == NONE then 0
    else if filter == SUB then a
    else if filter == UP then b
    else if filter == AVERAGE then (a + b) / 2
    else PaethReference(a, b, c)
  }

  // ---- rows ----------------------------------------------------------------

  // The byte one pixel to the left; zero outside the image.
  function Left(s: Row, k: nat, bpp: nat): Byte
    requires k < |s| + bpp
  {
    if k >= bpp then s[k - bpp] else 0
  }

  // Addition of bytes, modulo 256.
  function Plus(x: int, y: int): Byte {
    (x + y) % 256
  }

  // The first `n` bytes of a row, each from its filtered byte and neighbours.
  function Recon(filter: nat, bpp: nat, raw: Row, prior: Row, n: nat): (r: Row)
    requires filter <= 4 && bpp > 0 && n <= |raw| && n <= |prior|
    ensures |r| == n
  {
    if n == 0 then []
    else
      var r := Recon(filter, bpp, raw, prior, n - 1);
      r + [Plus(raw[n - 1], Predict(filter, Left(r, n - 1, bpp), prior[n - 1], Left(prior, n - 1, bpp)))]
  }

  // Filtering byte `k` of a row.
  function FilterByte(filter: nat, bpp: nat, cur: Row, prior: Row, k: nat): Byte
    requires filter <= 4 && bpp > 0 && k < |cur| <= |prior|
  {
    (cur[k] - Predict(filter, Left(cur, k, bpp), prior[k], Left(prior, k, bpp))) % 256
  }

  function FilterRow(filter: nat, bpp: nat, cur: Row, prior: Row): (r: Row)
    requires filter <= 4 && bpp > 0 && |cur| <= |prior|
    ensures |r| == |cur|
  {
    seq(|cur|, k requires 0 <= k < |cur| => FilterByte(filter, bpp, cur, prior, k))
  }

  // The filters by their numbers (sections 6.2 to 6.6 of RFC 2083): what is taken from
  // byte `k` is nothing, the byte a pixel to the left, the one above, the mean of both,
  // or the predictor; bytes outside the image are zero.
  lemma FilteredAsSpecified(filter: nat, bpp: nat, cur: Row, prior: Row, k: nat)
    requires filter <= 4 && bpp > 0 && k < |cur| <= |prior|
    ensures var a, c: Byte := if k < bpp then 0 else cur[k - bpp], if k < bpp then 0 else prior[k - bpp];
            var x, y, b := FilterRow(filter, bpp, cur, prior)[k], cur[k], prior[k];
            && (filter == 0 ==> x == y)
            && (filter == 1 ==> x == (y - a) % 256)
            && (filter == 2 ==> x == (y - b) % 256)
            && (filter == 3 ==> x == (y - (a + b) / 2) % 256)
            && (filter == 4 ==> x == (y - PaethReference(a, b, c)) % 256)
  {
    hide PaethReference;
  }

  // The predictor is the neighbour nearest to the sum of left and up less up left;
  // of equally near ones left comes before up, and up before up left.
  lemma PaethIsNearest(a: int, b: int, c: int)
    ensures var p, r := a + b - c, PaethReference(a, b, c);
            && (r == a || r == b || r == c)
            && Abs(p - r) <= Abs(p - a) && Abs(p - r) <= Abs(p - b) && Abs(p - r) <= Abs(p - c)
            && (Abs(p - a) == Abs(p - r) ==> r == a)
            && (Abs(p - a) != Abs(p - r) && Abs(p - b) == Abs(p - r) ==> r == b)
  {
  }

  lemma {:induction false} ReconUndoesFilter(filter: nat, bpp: nat, cur: Row, prior: Row, n: nat)
    requires filter <= 4 && bpp > 0 && n <= |cur| <= |prior|
    ensures Recon(filter, bpp, FilterRow(filter, bpp, cur, prior), prior, n) == cur[..n]
    decreases n
  {
    if n > 0 {
      ReconUndoesFilter(filter, bpp, cur, prior, n - 1);
      FilteredByte(filter, bpp, cur, prior, n - 1);
      LeftOfPrefix(cur, n - 1, bpp);
      hide FilterRow, Predict, Plus, Left;
    }
  }

  lemma FilteredByte(filter: nat, bpp: nat, cur: Row, prior: Row, k: nat)
    requires filter <= 4 && bpp > 0 && k < |cur| <= |prior|
    ensures var predicted := Predict(filter, Left(cur, k, bpp), prior[k], Left(prior, k, bpp));
            Plus(FilterRow(filter, bpp, cur, prior)[k], predicted) == cur[k]
  {
    hide Predict, Plus, Left;
    Undone(cur[k], Predict(filter, Left(cur, k, bpp), prior[k], Left(prior, k, bpp)));
  }

  lemma LeftOfPrefix(s: Row, k: nat, bpp: nat)
    requires k <= |s| && bpp > 0
    ensures Left(s[..k], k, bpp) == Left(s, k, bpp)
  {
  }

  lemma Undone(x: Byte, p: Byte)
    ensures Plus((x - p) % 256, p) == x
  {
  }

  // ---- images --------------------------------------------------------------

  // A filter type and the filtered bytes, row by row.
  datatype Line = Line(filter: nat, raw: Row)

  predicate LinesOf(lines: seq<Line>, nk: nat) {
    forall j :: 0 <= j < |lines| ==> |lines[j].raw| == nk
  }

  function Blank(nk: nat): (r: Row)
    ensures |r| == nk && forall k :: 0 <= k < nk ==> r[k] == 0
  {
    seq(nk, _ => 0)
  }

  // The row above row `j`, which is blank for the first.
  function Above(rows: seq<Row>, nk: nat): Row {
    if rows == [] then Blank(nk) else rows[|rows| - 1]
  }

  // The rows of an image; None after a line with an unknown filter.
  datatype Picture = Bad | Rows(rows: seq<Row>)

  function ReconImage(bpp: nat, nk: nat, lines: seq<Line>): (r: Picture)
    requires bpp > 0 && LinesOf(lines, nk)
    ensures r.Rows? ==> |r.rows| == |lines| && forall j :: 0 <= j < |lines| ==> |r.rows[j]| == nk
  {
    if lines == [] then Rows([])
    else
      var n := |lines| - 1;
      var before := ReconImage(bpp, nk, lines[..n]);
      if before.Bad? || lines[n].filter > 4 then Bad
      else Rows(before.rows + [Recon(lines[n].filter, bpp, lines[n].raw, Above(before.rows, nk), nk)])
  }

  // A filter type for each of the rows.
  predicate Choice(nk: nat, rows: seq<Row>, filters: seq<nat>) {
    && |filters| == |rows|
    && (forall j :: 0 <= j < |rows| ==> |rows[j]| == nk)
    && (forall j :: 0 <= j < |rows| ==> filters[j] <= 4)
  }

  // Filters an image with any choice of filter for each row.
  // All filters are among the five.
  predicate Known(lines: seq<Line>) {
    forall j :: 0 <= j < |lines| ==> lines[j].filter <= 4
  }

  function FilterImage(bpp: nat, nk: nat, rows: seq<Row>, filters: seq<nat>): (r: seq<Line>)
    requires bpp > 0 && Choice(nk, rows, filters)
    ensures |r| == |rows| && LinesOf(r, nk) && Known(r)
  {
    if rows == [] then []
    else
      var n := |rows| - 1;
      FilterImage(bpp, nk, rows[..n], filters[..n])
      + [Line(filters[n], FilterRow(filters[n], bpp, rows[n], Above(rows[..n], nk)))]
  }

  lemma ReconLast(bpp: nat, nk: nat, before: seq<Line>, line: Line)
    requires bpp > 0 && LinesOf(before, nk) && |line.raw| == nk
    ensures LinesOf(before + [line], nk)
    ensures var was := ReconImage(bpp, nk, before);
            ReconImage(bpp, nk, before + [line]) ==
              if was.Bad? || line.filter > 4 then Bad
              else Rows(was.rows + [Recon(line.filter, bpp, line.raw, Above(was.rows, nk), nk)])
  {
    hide Recon;
    assert (before + [line])[..|before|] == before;
  }

  lemma NoRows(bpp: nat, nk: nat, filters: seq<nat>)
    requires bpp > 0 && Choice(nk, [], filters)
    ensures ReconImage(bpp, nk, FilterImage(bpp, nk, [], filters)) == Rows([])
  {
  }

  lemma AddRow(bpp: nat, nk: nat, before: seq<Line>, rows: seq<Row>, cur: Row, filter: nat)
    requires bpp > 0 && LinesOf(before, nk) && ReconImage(bpp, nk, before) == Rows(rows)
    requires filter <= 4 && |cur| == nk && |Above(rows, nk)| == nk
    ensures var line := Line(filter, FilterRow(filter, bpp, cur, Above(rows, nk)));
            LinesOf(before + [line], nk) && ReconImage(bpp, nk, before + [line]) == Rows(rows + [cur])
  {
    hide Recon, FilterRow, ReconImage, Above, LinesOf;
    var line := Line(filter, FilterRow(filter, bpp, cur, Above(rows, nk)));
    ReconLast(bpp, nk, before, line);
    ReconUndoesFilter(filter, bpp, cur, Above(rows, nk), nk);
    assert cur[..nk] == cur;
  }

  // Reconstruction gives every image back, whatever filters its rows use.
  lemma {:induction false} ImageRoundTrip(bpp: nat, nk: nat, rows: seq<Row>, filters: seq<nat>)
    requires bpp > 0 && Choice(nk, rows, filters)
    ensures ReconImage(bpp, nk, FilterImage(bpp, nk, rows, filters)) == Rows(rows)
    decreases |rows|
  {
    hide Recon, FilterRow, ReconImage, FilterImage, Above, Choice, LinesOf;
    if rows == [] {
      NoRows(bpp, nk, filters);
      return;
    }
    var n := |rows| - 1;
    LastRow(bpp, nk, rows, filters);
    ImageRoundTrip(bpp, nk, rows[..n], filters[..n]);
    AddRow(bpp, nk, FilterImage(bpp, nk, rows[..n], filters[..n]), rows[..n], rows[n], filters[n]);
    assert rows[..n] + [rows[n]] == rows;
  }

  lemma LastRow(bpp: nat, nk: nat, rows: seq<Row>, filters: seq<nat>)
    requires bpp > 0 && Choice(nk, rows, filters) && rows != []
    ensures var n := |rows| - 1;
            && |filters| == n + 1 && Choice(nk, rows[..n], filters[..n]) && |rows[n]| == nk && filters[n] <= 4
            && |Above(rows[..n], nk)| == nk
            && FilterImage(bpp, nk, rows, filters) ==
                 FilterImage(bpp, nk, rows[..n], filters[..n])
                 + [Line(filters[n], FilterRow(filters[n], bpp, rows[n], Above(rows[..n], nk)))]
  {
    hide FilterRow;
  }

  // ---- the first row -------------------------------------------------------

  // With a blank row above, three filters become simpler ones.
  lemma FirstRow(filter: nat, a: Byte)
    requires filter <= 4
    ensures Predict(filter, a, 0, 0) ==
      if filter == NONE || filter == UP then 0 else if filter == AVERAGE then a / 2 else a
  {
    assert PaethReference(a, 0, 0) == a;
    hide PaethReference;
  }

  // The substitute for each filter in the first row.
  const AVERAGE_FIRST := 5

  function FirstRowFilter(filter: nat): nat
    requires filter <= 4
  {
    if filter == NONE || filter == UP then NONE else if filter == AVERAGE then AVERAGE_FIRST else SUB
  }

  function PredictRow(filter: nat, a: Byte, b: Byte, c: Byte): Byte
    requires filter <= 5
  {
    if filter == AVERAGE_FIRST then a / 2 else Predict(filter, a, b, c)
  }

  predicate SolvedAt(filter: nat, bpp: nat, raw: Row, prior: Row, r: Row, k: nat)
    requires filter <= 5 && k < |r| && 0 < bpp <= |r| == |raw| == |prior|
  {
    r[k] == Plus(raw[k], PredictRow(filter, Left(r, k, bpp), prior[k], Left(prior, k, bpp)))
  }

  // `r` is what the loops for `filter` make of `raw` with `prior` above.
  ghost predicate Solves(filter: nat, bpp: nat, raw: Row, prior: Row, r: Row) {
    && filter <= 5 && 0 < bpp <= |r| && |raw| == |r| == |prior|
    && forall k: nat {:trigger SolvedAt(filter, bpp, raw, prior, r, k)} ::
         k < |r| ==> SolvedAt(filter, bpp, raw, prior, r, k)
  }

  // Byte `k` of the row, filter by filter.
  lemma SolvesAt(filter: nat, bpp: nat, raw: Row, prior: Row, r: Row, k: nat)
    requires Solves(filter, bpp, raw, prior, r) && k < |r|
    ensures |raw| == |r| == |prior| && 0 < bpp <= |r| && filter <= 5
    ensures filter == NONE ==> r[k] == raw[k]
    ensures filter == UP ==> r[k] == Plus(raw[k], prior[k])
    ensures k < bpp ==>
      && (filter == SUB || filter == AVERAGE_FIRST ==> r[k] == raw[k])
      && (filter == AVERAGE ==> r[k] == Plus(raw[k], prior[k] / 2))
      && (filter == PAETH ==> r[k] == Plus(raw[k], prior[k]))
    ensures k >= bpp ==>
      && (filter == SUB ==> r[k] == Plus(raw[k], r[k - bpp]))
      && (filter == AVERAGE_FIRST ==> r[k] == Plus(raw[k], r[k - bpp] / 2))
      && (filter == AVERAGE ==> r[k] == Plus(raw[k], Mean(prior[k], r[k - bpp])))
      && (filter == PAETH ==> r[k] == Plus(raw[k], Paeth(r[k - bpp], prior[k], prior[k - bpp])))
  {
    assert SolvedAt(filter, bpp, raw, prior, r, k);
  }

  function Mean(a: int, b: int): int {
    (a + b) / 2
  }

  lemma {:induction false} ReconPrefix(filter: nat, bpp: nat, raw: Row, prior: Row, m: nat, n: nat)
    requires filter <= 4 && bpp > 0 && m <= n <= |raw| && n <= |prior|
    ensures Recon(filter, bpp, raw, prior, n)[..m] == Recon(filter, bpp, raw, prior, m)
    decreases n
  {
    if m < n {
      ReconPrefix(filter, bpp, raw, prior, m, n - 1);
    }
  }

  lemma ReconAt(filter: nat, bpp: nat, raw: Row, prior: Row, k: nat)
    requires filter <= 4 && bpp > 0 && k < |raw| == |prior|
    ensures var r := Recon(filter, bpp, raw, prior, |raw|);
            r[k] == Plus(raw[k], Predict(filter, Left(r, k, bpp), prior[k], Left(prior, k, bpp)))
  {
    hide Predict;
    ReconPrefix(filter, bpp, raw, prior, k + 1, |raw|);
    ReconPrefix(filter, bpp, raw, prior, k, k + 1);
    var r := Recon(filter, bpp, raw, prior, |raw|);
    assert r[..k + 1][..k] == r[..k];
    assert r[..k + 1][k] == r[k];
  }

  lemma ReconSolves(filter: nat, bpp: nat, raw: Row, prior: Row)
    requires filter <= 4 && 0 < bpp <= |raw| == |prior|
    ensures Solves(filter, bpp, raw, prior, Recon(filter, bpp, raw, prior, |raw|))
  {
    hide Recon, Predict, Left;
    forall k: nat | k < |raw|
      ensures SolvedAt(filter, bpp, raw, prior, Recon(filter, bpp, raw, prior, |raw|), k)
    {
      ReconAt(filter, bpp, raw, prior, k);
    }
  }

  // In the first row the substitute gives the same, whatever the buffer holds.
  lemma FirstRowSolves(filter: nat, bpp: nat, raw: Row, junk: Row)
    requires filter <= 4 && 0 < bpp <= |raw| == |junk|
    ensures Solves(FirstRowFilter(filter), bpp, raw, junk, Recon(filter, bpp, raw, Blank(|raw|), |raw|))
  {
    hide Recon, Predict;
    var r := Recon(filter, bpp, raw, Blank(|raw|), |raw|);
    forall k: nat | k < |raw|
      ensures SolvedAt(FirstRowFilter(filter), bpp, raw, junk, r, k)
    {
      ReconAt(filter, bpp, raw, Blank(|raw|), k);
      FirstRow(filter, Left(r, k, bpp));
      Substitute(filter, Left(r, k, bpp), junk[k], Left(junk, k, bpp));
    }
  }

  lemma Substitute(filter: nat, a: Byte, b: Byte, c: Byte)
    requires filter <= 4
    ensures PredictRow(FirstRowFilter(filter), a, b, c) == Predict(filter, a, 0, 0)
  {
  }
}
