// Where the symbols of a GIF image go, row by row or interlaced.
module GifRaster {
  import opened Arith
  import opened Bits

  type Pixels = map<(nat, nat), Byte>

  // Column and row of the next pixel, the distance of rows, and the passes left.
  datatype Cursor = Cursor(x: nat, y: nat, step: nat, parse: nat)

  // An image area; rows and columns count from its corner.
  datatype Area = Area(w: nat, h: nat)

  function Start(a: Area, interlaced: bool): Cursor {
    Cursor(0, if a.w == 0 then a.h else 0, if interlaced then 8 else 1, if interlaced then 3 else 0)
  }

  // Goes to the first row of the next pass that has one.
  function NextPass(a: Area, c: Cursor): (r: Cursor)
    ensures r.step > 0 || r == c
    decreases c.parse
  {
    if c.y >= a.h && c.parse > 0 then
      NextPass(a, Cursor(c.x, Pow2(c.parse) / 2, Pow2(c.parse), c.parse - 1))
    else c
  }

  function Advance(a: Area, c: Cursor): Cursor {
    if c.x + 1 < a.w then c.(x := c.x + 1) else NextPass(a, Cursor(0, c.y + c.step, c.step, c.parse))
  }

  datatype Canvas = Canvas(cursor: Cursor, pixels: Pixels)

  // One symbol; transparent ones leave their pixel as it was.
  function Plot(a: Area, shown: set<Byte>, v: Canvas, symbol: Byte): Canvas {
    if v.cursor.y >= a.h then v
    else
      Canvas(Advance(a, v.cursor),
             if symbol in shown then v.pixels[(v.cursor.x, v.cursor.y) := symbol] else v.pixels)
  }

  function PlotAll(a: Area, shown: set<Byte>, v: Canvas, text: seq<Byte>): Canvas {
    if text == [] then v
    else Plot(a, shown, PlotAll(a, shown, v, text[..|text| - 1]), text[|text| - 1])
  }

  lemma {:induction false} PlotAppend(a: Area, shown: set<Byte>, v: Canvas, s: seq<Byte>, t: seq<Byte>)
    ensures PlotAll(a, shown, v, s + t) == PlotAll(a, shown, PlotAll(a, shown, v, s), t)
  {
    if t == [] {
      assert s + t == s;
    } else {
      var n := |t| - 1;
      PlotAppend(a, shown, v, s, t[..n]);
      assert (s + t)[..|s + t| - 1] == s + t[..n];
    }
  }

  // ---- the order of the rows -----------------------------------------------

  // The rows visited from row `y` on.
  function Rows(h: nat, y: nat, step: nat, parse: nat): (r: seq<nat>)
    requires step > 0
    ensures forall i :: 0 <= i < |r| ==> r[i] < h
    decreases parse, if y < h then h - y else 0
  {
    if y < h then [y] + Rows(h, y + step, step, parse)
    else if parse > 0 then Rows(h, Pow2(parse) / 2, Pow2(parse), parse - 1)
    else []
  }

  // The states of the cursor at the start of a row.
  predicate RowState(y: nat, step: nat, parse: nat) {
    || (step == 1 && parse == 0)
    || (step == 8 && parse == 3 && y % 8 == 0)
    || (step == 8 && parse == 2 && y % 8 == 4)
    || (step == 4 && parse == 1 && y % 4 == 2)
    || (step == 2 && parse == 0 && y % 2 == 1)
  }

  // The rows still to come.
  predicate ToCome(y: nat, step: nat, parse: nat, r: nat) {
    || (r >= y && (step == 1
                   || (step == 2 && r % 2 == 1)
                   || (step == 4 && r % 4 == 2)
                   || (step == 8 && r % 8 == (if parse == 3 then 0 else 4))))
    || (parse == 3 && r % 8 == 4) || (parse >= 2 && r % 4 == 2) || (parse >= 1 && r % 2 == 1)
  }

  lemma ToComeStep(y: nat, step: nat, parse: nat, r: nat)
    requires RowState(y, step, parse)
    ensures RowState(y + step, step, parse) && step > 0
    ensures ToCome(y, step, parse, r) <==> r == y || ToCome(y + step, step, parse, r)
    ensures !ToCome(y + step, step, parse, y)
  {
    if step == 8 {
      Same8(r, y);
    } else if step == 4 {
      Same4(r, y);
    } else if step == 2 {
      Same2(r, y);
    }
  }

  // Numbers with the same remainder are equal or a whole divisor apart.
  lemma Same8(r: nat, y: nat)
    ensures (y + 8) % 8 == y % 8
    ensures r % 8 == y % 8 && r >= y ==> r == y || r >= y + 8
    ensures y % 8 == 0 || y % 8 == 4 ==> y % 4 == 0 && y % 2 == 0
  {
    Apart(r / 8, r % 8, r, y / 8, y % 8, y, 8);
    DivModUnique(y + 8, 8, y / 8 + 1, y % 8);
    Halve(y, 8);
  }

  lemma Same4(r: nat, y: nat)
    ensures (y + 4) % 4 == y % 4
    ensures r % 4 == y % 4 && r >= y ==> r == y || r >= y + 4
    ensures y % 4 == 2 ==> y % 2 == 0
  {
    Apart(r / 4, r % 4, r, y / 4, y % 4, y, 4);
    DivModUnique(y + 4, 4, y / 4 + 1, y % 4);
    Halve(y, 4);
  }

  lemma Same2(r: nat, y: nat)
    ensures (y + 2) % 2 == y % 2
    ensures r % 2 == y % 2 && r >= y ==> r == y || r >= y + 2
  {
    Apart(r / 2, r % 2, r, y / 2, y % 2, y, 2);
    DivModUnique(y + 2, 2, y / 2 + 1, y % 2);
  }

  lemma Apart(q: nat, m: nat, r: nat, p: nat, n: nat, y: nat, d: nat)
    requires r == d * q + m && y == d * p + n && m < d && n < d
    ensures m == n && r >= y ==> r == y || r >= y + d
  {
    MulOrder(p, q, d);
    MulOrder(q, p, d);
  }

  // Divisible by four, or two, from the remainder by eight, or four.
  lemma Halve(y: nat, d: nat)
    requires d == 8 || d == 4
    ensures d == 8 && (y % 8 == 0 || y % 8 == 4) ==> y % 4 == 0 && y % 2 == 0
    ensures d == 4 && y % 4 == 2 ==> y % 2 == 0
  {
    if d == 8 && (y % 8 == 0 || y % 8 == 4) {
      DivModUnique(y, 4, 2 * (y / 8) + y % 8 / 4, 0);
      DivModUnique(y, 2, 4 * (y / 8) + y % 8 / 2, 0);
    } else if d == 4 && y % 4 == 2 {
      DivModUnique(y, 2, 2 * (y / 4) + 1, 0);
    }
  }

  lemma ToComePass(y: nat, step: nat, parse: nat, r: nat)
    requires RowState(y, step, parse) && r < y && parse > 0
    ensures RowState(Pow2(parse) / 2, Pow2(parse), parse - 1)
    ensures ToCome(y, step, parse, r) <==> ToCome(Pow2(parse) / 2, Pow2(parse), parse - 1, r)
  {
    assert Pow2(1) == 2 && Pow2(2) == 4 && Pow2(3) == 8;
  }

  lemma StepPositive(y: nat, step: nat, parse: nat, r: nat)
    requires RowState(y, step, parse)
    ensures step > 0 && (parse == 0 && r < y ==> !ToCome(y, step, parse, r))
  {
  }

  // How often `r` occurs.
  function Count(rows: seq<nat>, r: nat): nat {
    if rows == [] then 0 else (if rows[0] == r then 1 else 0) + Count(rows[1..], r)
  }

  lemma CountFront(y: nat, rest: seq<nat>, r: nat)
    ensures Count([y] + rest, r) == (if y == r then 1 else 0) + Count(rest, r)
  {
    assert ([y] + rest)[1..] == rest;
  }

  // How often each row to come is visited.
  lemma {:induction false} RowsToCome(h: nat, y: nat, step: nat, parse: nat, r: nat)
    requires RowState(y, step, parse) && r < h
    ensures step > 0 && Count(Rows(h, y, step, parse), r) == if ToCome(y, step, parse, r) then 1 else 0
    decreases parse, if y < h then h - y else 0
  {
    StepPositive(y, step, parse, r);
    hide ToCome, RowState, Pow2, Count;
    if y < h {
      ToComeStep(y, step, parse, r);
      CountFront(y, Rows(h, y + step, step, parse), r);
      RowsToCome(h, y + step, step, parse, r);
    } else if parse > 0 {
      ToComePass(y, step, parse, r);
      RowsToCome(h, Pow2(parse) / 2, Pow2(parse), parse - 1, r);
    }
  }

  function RowOrder(h: nat, interlaced: bool): seq<nat> {
    if interlaced then Rows(h, 0, 8, 3) else Rows(h, 0, 1, 0)
  }

  // In which of the four passes of an interlaced image a row comes: every eighth row
  // from the first, every eighth from the fifth, every fourth from the third, every
  // second from the second.
  function PassOf(r: nat): nat {
    if r % 8 == 0 then 0 else if r % 8 == 4 then 1 else if r % 4 == 2 then 2 else 3
  }

  predicate Earlier(r: nat, s: nat) {
    PassOf(r) < PassOf(s) || (PassOf(r) == PassOf(s) && r < s)
  }

  // What comes from row `y` on comes in the order of passes and rows.
  lemma {:induction false} RowsInOrder(h: nat, y: nat, step: nat, parse: nat)
    requires RowState(y, step, parse) && step > 1
    ensures forall r :: r in Rows(h, y, step, parse) ==>
      PassOf(r) > 3 - parse || (PassOf(r) == 3 - parse && r >= y)
    ensures forall i, j :: 0 <= i < j < |Rows(h, y, step, parse)| ==>
      Earlier(Rows(h, y, step, parse)[i], Rows(h, y, step, parse)[j])
    decreases parse, if y < h then h - y else 0
  {
    if y < h {
      ToComeStep(y, step, parse, y);
      PassOfState(y, step, parse);
      hide RowState, ToCome, PassOf;
      RowsInOrder(h, y + step, step, parse);
      var rest := Rows(h, y + step, step, parse);
      assert forall k :: 0 <= k < |rest| ==> rest[k] in rest;
    } else if parse > 0 {
      NextPassState(parse);
      RowsInOrder(h, Pow2(parse) / 2, Pow2(parse), parse - 1);
    }
  }

  lemma PassOfState(y: nat, step: nat, parse: nat)
    requires RowState(y, step, parse) && step > 1
    ensures parse <= 3 && PassOf(y) == 3 - parse
  {
  }

  lemma NextPassState(parse: nat)
    requires 1 <= parse <= 3
    ensures RowState(Pow2(parse) / 2, Pow2(parse), parse - 1) && Pow2(parse) > 1
  {
  }

  lemma {:induction false} RowsStraight(h: nat, y: nat)
    requires y <= h
    ensures |Rows(h, y, 1, 0)| == h - y && forall i :: 0 <= i < h - y ==> Rows(h, y, 1, 0)[i] == y + i
    decreases h - y
  {
    if y < h {
      RowsStraight(h, y + 1);
    }
  }

  // An image that is not interlaced is drawn from top to bottom, an interlaced one in
  // four passes, each from top to bottom.
  lemma RowsAsSpecified(h: nat)
    ensures |RowOrder(h, false)| == h && forall i :: 0 <= i < h ==> RowOrder(h, false)[i] == i
    ensures forall i, j :: 0 <= i < j < |RowOrder(h, true)| ==> Earlier(RowOrder(h, true)[i], RowOrder(h, true)[j])
  {
    RowsStraight(h, 0);
    RowsInOrder(h, 0, 8, 3);
  }

  // Interlaced or not, every row of the image is visited exactly once.
  lemma EveryRowOnce(h: nat, interlaced: bool, r: nat)
    requires r < h
    ensures Count(RowOrder(h, interlaced), r) == 1
  {
    hide Rows, Count;
    DivModUnique(r, 4, 2 * (r / 8) + r % 8 / 4, r % 8 % 4);
    DivModUnique(r, 2, 4 * (r / 8) + r % 8 / 2, r % 8 % 2);
    RowsToCome(h, 0, if interlaced then 8 else 1, if interlaced then 3 else 0, r);
  }

  // ---- the pixels ----------------------------------------------------------

  // The cursor after `n` symbols.
  function After(a: Area, c: Cursor, n: nat): Cursor
    decreases n
  {
    if n == 0 then c else After(a, if c.y >= a.h then c else Advance(a, c), n - 1)
  }

  function NextRow(a: Area, c: Cursor): Cursor {
    NextPass(a, Cursor(0, c.y + c.step, c.step, c.parse))
  }

  lemma {:induction false} AfterLast(a: Area, c: Cursor, n: nat)
    ensures After(a, c, n + 1) == var d := After(a, c, n); if d.y >= a.h then d else Advance(a, d)
    decreases n
  {
    if n > 0 {
      AfterLast(a, if c.y >= a.h then c else Advance(a, c), n - 1);
    }
  }

  lemma {:induction false} CursorOfPlotAll(a: Area, shown: set<Byte>, v: Canvas, text: seq<Byte>)
    ensures PlotAll(a, shown, v, text).cursor == After(a, v.cursor, |text|)
  {
    if text != [] {
      CursorOfPlotAll(a, shown, v, text[..|text| - 1]);
      AfterLast(a, v.cursor, |text| - 1);
    }
  }

  lemma {:induction false} AfterAdds(a: Area, c: Cursor, m: nat, n: nat)
    ensures After(a, c, m + n) == After(a, After(a, c, m), n)
    decreases m
  {
    if m > 0 {
      AfterAdds(a, if c.y >= a.h then c else Advance(a, c), m - 1, n);
    }
  }

  // Along a row the column counts up, then comes the next row.
  lemma {:induction false} AlongRow(a: Area, c: Cursor, j: nat)
    requires c.y < a.h && c.x + j <= a.w && c.x < a.w
    ensures After(a, c, j) == if c.x + j < a.w then c.(x := c.x + j) else NextRow(a, c)
    decreases j
  {
    if j > 0 && c.x + 1 < a.w {
      AlongRow(a, c.(x := c.x + 1), j - 1);
    }
  }

  // Rows before the next one that exists are skipped.
  lemma {:induction false} RowsAfterPass(a: Area, c: Cursor)
    requires c.step > 0
    ensures var d := NextPass(a, c);
            d.step > 0 && Rows(a.h, d.y, d.step, d.parse) == Rows(a.h, c.y, c.step, c.parse) && d.x == c.x
    ensures NextPass(a, c).y >= a.h ==> Rows(a.h, c.y, c.step, c.parse) == []
    decreases c.parse
  {
    if c.y >= a.h && c.parse > 0 {
      RowsAfterPass(a, Cursor(c.x, Pow2(c.parse) / 2, Pow2(c.parse), c.parse - 1));
    }
  }

  // Symbol number w * i + j goes to column j of the i-th row of the order.
  lemma {:induction false} PositionOf(a: Area, c: Cursor, i: nat, j: nat)
    requires c.step > 0 && c.x == 0 && j < a.w && i < |Rows(a.h, c.y, c.step, c.parse)| && (c.y < a.h || c.parse == 0)
    ensures var d := After(a, c, a.w * i + j); d.x == j && d.y == Rows(a.h, c.y, c.step, c.parse)[i]
    decreases i
  {
    if i == 0 {
      AlongRow(a, c, j);
    } else {
      var n := NextRow(a, c);
      AlongRow(a, c, a.w);
      AfterAdds(a, c, a.w, a.w * (i - 1) + j);
      assert a.w * i + j == a.w + (a.w * (i - 1) + j);
      RowsAfterPass(a, Cursor(0, c.y + c.step, c.step, c.parse));
      hide After, Rows;
      PositionOf(a, n, i - 1, j);
    }
  }

  lemma {:induction false} CountTwice(rows: seq<nat>, a: nat, b: nat)
    requires a < b < |rows| && rows[a] == rows[b]
    ensures Count(rows, rows[a]) >= 2
  {
    if a > 0 {
      CountTwice(rows[1..], a - 1, b - 1);
    } else {
      CountsOne(rows[1..], b - 1);
    }
  }

  lemma {:induction false} CountsOne(rows: seq<nat>, a: nat)
    requires a < |rows|
    ensures Count(rows, rows[a]) >= 1
  {
    if a > 0 {
      CountsOne(rows[1..], a - 1);
    }
  }

  // Different symbols never go to the same pixel.
  lemma PositionsDiffer(a: Area, interlaced: bool, i: nat, j: nat, i': nat, j': nat)
    requires j < a.w && j' < a.w && a.w * i + j < a.w * i' + j'
    requires i < |RowOrder(a.h, interlaced)| && i' < |RowOrder(a.h, interlaced)|
    ensures j != j' || RowOrder(a.h, interlaced)[i] != RowOrder(a.h, interlaced)[i']
  {
    hide RowOrder, Count;
    var rows := RowOrder(a.h, interlaced);
    RowsInside(a.h, interlaced, i);
    EveryRowOnce(a.h, interlaced, rows[i]);
    if i < i' {
      if rows[i] == rows[i'] {
        CountTwice(rows, i, i');
      }
    } else {
      MulOrder(i', i, a.w);
    }
  }

  lemma RowsInside(h: nat, interlaced: bool, i: nat)
    requires i < |RowOrder(h, interlaced)|
    ensures RowOrder(h, interlaced)[i] < h
  {
  }

  // The position of symbol `n`, or past the last row.
  lemma PositionOrDone(a: Area, interlaced: bool, n: nat) returns (i: nat, j: nat)
    requires a.w > 0
    ensures var d := After(a, Start(a, interlaced), n); var rows := RowOrder(a.h, interlaced);
            && n == a.w * i + j && j < a.w
            && (if i < |rows| then d.x == j && d.y == rows[i] else d.y >= a.h)
  {
    hide After, Rows;
    i, j := n / a.w, n % a.w;
    var c, rows := Start(a, interlaced), RowOrder(a.h, interlaced);
    if i < |rows| {
      StartsAtRow(a, interlaced);
      PositionOf(a, c, i, j);
    } else {
      MulOrder(|rows|, i, a.w);
      AfterRows(a, c);
      AfterAdds(a, c, a.w * |rows|, n - a.w * |rows|);
      AfterDone(a, After(a, c, a.w * |rows|), n - a.w * |rows|);
    }
  }

  lemma StartsAtRow(a: Area, interlaced: bool)
    requires a.w > 0 && RowOrder(a.h, interlaced) != []
    ensures var c := Start(a, interlaced); c.y < a.h || c.parse == 0
  {
    RowsInside(a.h, interlaced, 0);
  }

  lemma {:induction false} AfterDone(a: Area, c: Cursor, n: nat)
    requires c.y >= a.h
    ensures After(a, c, n) == c
    decreases n
  {
    if n > 0 {
      AfterDone(a, c, n - 1);
    }
  }

  lemma OneRowMore(w: nat, n: nat)
    requires n > 0
    ensures w * n == w + w * (n - 1)
  {
  }

  // After all rows the cursor is below the image.
  lemma {:induction false} AfterRows(a: Area, c: Cursor)
    requires c.step > 0 && c.x == 0 && a.w > 0
    ensures After(a, c, a.w * |Rows(a.h, c.y, c.step, c.parse)|).y >= a.h
    decreases |Rows(a.h, c.y, c.step, c.parse)|
  {
    var rows := Rows(a.h, c.y, c.step, c.parse);
    hide After, NextPass;
    if c.y < a.h {
      var n := NextRow(a, c);
      RowsAfterPass(a, Cursor(0, c.y + c.step, c.step, c.parse));
      assert |Rows(a.h, n.y, n.step, n.parse)| == |rows| - 1;
      hide Rows;
      AlongRow(a, c, a.w);
      AfterAdds(a, c, a.w, a.w * (|rows| - 1));
      OneRowMore(a.w, |rows|);
      AfterRows(a, n);
    } else {
      assert c.y >= a.h;
      AfterDone(a, c, a.w * |rows|);
    }
  }

  // Every shown symbol that has a place in the image ends up there.
  lemma {:induction false} DrawnPixel(a: Area, shown: set<Byte>, interlaced: bool, was: Pixels, text: seq<Byte>,
                                      i: nat, j: nat)
    requires j < a.w && i < |RowOrder(a.h, interlaced)| && a.w * i + j < |text| && text[a.w * i + j] in shown
    ensures var v := PlotAll(a, shown, Canvas(Start(a, interlaced), was), text);
            var at := (j, RowOrder(a.h, interlaced)[i]);
            at in v.pixels && v.pixels[at] == text[a.w * i + j]
    decreases |text|
  {
    hide RowOrder, After, Start, Advance, Plot;
    var n := |text| - 1;
    var v := PlotAll(a, shown, Canvas(Start(a, interlaced), was), text[..n]);
    CursorOfPlotAll(a, shown, Canvas(Start(a, interlaced), was), text[..n]);
    var i', j' := PositionOrDone(a, interlaced, n);
    if a.w * i + j < n {
      DrawnPixel(a, shown, interlaced, was, text[..n], i, j);
      if i' < |RowOrder(a.h, interlaced)| {
        PositionsDiffer(a, interlaced, i, j, i', j');
      }
      PlotOthers(a, shown, v, text[n], (j, RowOrder(a.h, interlaced)[i]));
    } else {
      SamePosition(a.w, i, j, i', j');
      RowsInside(a.h, interlaced, i);
      PlotHere(a, shown, v, text[n]);
    }
  }

  // One of the first `n` symbols, number w * i + j, goes to pixel `at`.
  predicate GoesTo(a: Area, interlaced: bool, n: nat, i: nat, j: nat, at: (nat, nat)) {
    j < a.w && i < |RowOrder(a.h, interlaced)| && a.w * i + j < n && at == (j, RowOrder(a.h, interlaced)[i])
  }

  // A pixel that no shown symbol goes to stays as it was.
  lemma {:induction false} UndrawnPixel(a: Area, shown: set<Byte>, interlaced: bool, was: Pixels,
                                        text: seq<Byte>, at: (nat, nat))
    requires a.w > 0
    requires forall i: nat, j: nat :: GoesTo(a, interlaced, |text|, i, j, at) ==> text[a.w * i + j] !in shown
    ensures var v := PlotAll(a, shown, Canvas(Start(a, interlaced), was), text);
            (at in v.pixels <==> at in was) && (at in was ==> v.pixels[at] == was[at])
    decreases |text|
  {
    hide RowOrder, After, Start, Advance, Plot;
    if text != [] {
      var n := |text| - 1;
      var v := PlotAll(a, shown, Canvas(Start(a, interlaced), was), text[..n]);
      CursorOfPlotAll(a, shown, Canvas(Start(a, interlaced), was), text[..n]);
      forall i: nat, j: nat | GoesTo(a, interlaced, n, i, j, at)
        ensures text[..n][a.w * i + j] !in shown
      {
        assert GoesTo(a, interlaced, |text|, i, j, at);
      }
      UndrawnPixel(a, shown, interlaced, was, text[..n], at);
      var i, j := PositionOrDone(a, interlaced, n);
      assert GoesTo(a, interlaced, |text|, i, j, at) ==> text[n] !in shown;
      PlotOthers(a, shown, v, text[n], at);
    }
  }

  lemma PlotOthers(a: Area, shown: set<Byte>, v: Canvas, symbol: Byte, at: (nat, nat))
    requires symbol !in shown || v.cursor.y >= a.h || at != (v.cursor.x, v.cursor.y)
    ensures var v' := Plot(a, shown, v, symbol);
            (at in v'.pixels <==> at in v.pixels) && (at in v.pixels ==> v'.pixels[at] == v.pixels[at])
  {
  }

  lemma PlotHere(a: Area, shown: set<Byte>, v: Canvas, symbol: Byte)
    requires v.cursor.y < a.h && symbol in shown
    ensures var v' := Plot(a, shown, v, symbol);
            var at := (v.cursor.x, v.cursor.y); at in v'.pixels && v'.pixels[at] == symbol
  {
  }

  lemma SamePosition(w: nat, i: nat, j: nat, i': nat, j': nat)
    requires j < w && j' < w && w * i + j == w * i' + j'
    ensures i == i' && j == j'
  {
    MulOrder(i, i', w);
    MulOrder(i', i, w);
  }
}
