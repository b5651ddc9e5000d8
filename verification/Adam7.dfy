// The seven interlacing passes of PNG.
module Adam7 {
  import opened Arith

  const U32 := 0x1_0000_0000

  // First column and row of each pass, and the distances between its pixels.
  function XOrig(p: nat): nat { if p == 1 then 4 else if p == 3 then 2 else if p == 5 then 1 else 0 }
  function YOrig(p: nat): nat { if p == 2 then 4 else if p == 4 then 2 else if p == 6 then 1 else 0 }
  function XSpace(p: nat): (r: nat)
    ensures r > 0
  {
    if p < 2 then 8 else if p < 4 then 4 else if p < 6 then 2 else 1
  }
  function YSpace(p: nat): (r: nat)
    ensures r > 0
  {
    if p < 3 then 8 else if p < 5 then 4 else 2
  }

  // Pixels of a pass along a side of `n`, in 32-bit unsigned arithmetic: the
  // subtraction may wrap around.
  function Along(n: nat, orig: nat, space: nat): nat
    requires space > 0
  {
    (((n - orig) % U32 + space) % U32 - 1) % U32 / space
  }

  function PassWidth(w: nat, p: nat): nat {
    Along(w, XOrig(p), XSpace(p))
  }

  function PassHeight(h: nat, p: nat): nat {
    Along(h, YOrig(p), YSpace(p))
  }

  // The wrapped subtraction wraps back: the count is the rounded-up quotient.
  lemma AlongIsExact(n: nat, orig: nat, space: nat)
    requires orig < space <= 8 && n < U32 - 8
    ensures Along(n, orig, space) == (n + space - 1 - orig) / space
  {
    var d := if n >= orig then n - orig else n - orig + U32;
    Wrap(n - orig, d);
    Wrap(d + space, n - orig + space);
    Wrap(n - orig + space - 1, n - orig + space - 1);
  }

  lemma Wrap(x: int, r: nat)
    requires r < U32 && (x == r || x == r - U32 || x == r + U32)
    ensures x % U32 == r
  {
  }

  // Exactly the indices whose pixel lies inside.
  lemma AlongCovers(n: nat, orig: nat, space: nat, i: nat)
    requires orig < space <= 8 && n < U32 - 8
    ensures i < Along(n, orig, space) <==> orig + space * i < n
  {
    AlongIsExact(n, orig, space);
    hide Along;
    BelowQuotient(n + space - 1 - orig, space, i);
  }

  // The indices below a quotient are those whose whole step fits.
  lemma BelowQuotient(x: nat, d: nat, i: nat)
    requires d > 0
    ensures i < x / d <==> d * i + d <= x
  {
    var q := x / d;
    assert x == d * q + x % d;
    if i < q {
      MulOrder(i, q, d);
    } else {
      MulOrder(q, i, d);
    }
  }

  lemma Origins(p: nat)
    requires p < 7
    ensures XOrig(p) < XSpace(p) <= 8 && YOrig(p) < YSpace(p) <= 8
  {
  }

  // ---- the place of each pixel ---------------------------------------------

  // Pixel (i, j) of pass p.
  datatype Place = Place(p: nat, i: nat, j: nat)

  function Home(x: nat, y: nat): Place {
    if y % 2 == 1 then Place(6, x, y / 2)
    else if x % 2 == 1 then Place(5, x / 2, y / 2)
    else if y % 4 == 2 then Place(4, x / 2, y / 4)
    else if x % 4 == 2 then Place(3, x / 4, y / 4)
    else if y % 8 == 4 then Place(2, x / 4, y / 8)
    else if x % 8 == 4 then Place(1, x / 8, y / 8)
    else Place(0, x / 8, y / 8)
  }

  function ColumnOf(a: Place): nat {
    XOrig(a.p) + XSpace(a.p) * a.i
  }

  function RowOf(a: Place): nat {
    YOrig(a.p) + YSpace(a.p) * a.j
  }

  // The pattern that repeats over the image (section 2.6 of RFC 2083): in which pass,
  // counted from one, a pixel comes.
  const PATTERN: seq<seq<nat>> := [
    [1, 6, 4, 6, 2, 6, 4, 6],
    [7, 7, 7, 7, 7, 7, 7, 7],
    [5, 6, 5, 6, 5, 6, 5, 6],
    [7, 7, 7, 7, 7, 7, 7, 7],
    [3, 6, 4, 6, 3, 6, 4, 6],
    [7, 7, 7, 7, 7, 7, 7, 7],
    [5, 6, 5, 6, 5, 6, 5, 6],
    [7, 7, 7, 7, 7, 7, 7, 7]]

  lemma PassesAsSpecified(x: nat, y: nat)
    ensures |PATTERN| == 8 && |PATTERN[y % 8]| == 8 && Home(x, y).p + 1 == PATTERN[y % 8][x % 8]
  {
    Parts(x);
    Parts(y);
    PatternIs(x % 8, y % 8);
  }

  lemma PatternIs(x: nat, y: nat)
    requires x < 8 && y < 8
    ensures |PATTERN| == 8 && |PATTERN[y]| == 8 && Home(x, y).p + 1 == PATTERN[y][x]
  {
    assert x == 0 || x == 1 || x == 2 || x == 3 || x == 4 || x == 5 || x == 6 || x == 7;
  }

  // Within a pass pixels come row by row, from left to right.
  lemma PassOrder(x: nat, y: nat, x': nat, y': nat)
    requires Home(x, y).p == Home(x', y').p
    ensures Home(x, y).i < Home(x', y').i <==> x < x'
    ensures Home(x, y).j < Home(x', y').j <==> y < y'
  {
    hide ColumnOf, RowOf;
    HomeIsPlace(x, y);
    HomeIsPlace(x', y');
    ColumnOrder(Home(x, y), Home(x', y'));
  }

  lemma ColumnOrder(a: Place, b: Place)
    requires a.p == b.p
    ensures ColumnOf(a) < ColumnOf(b) <==> a.i < b.i
    ensures RowOf(a) < RowOf(b) <==> a.j < b.j
  {
  }

  // Remainders by 2, 4 and 8.
  lemma Parts(n: nat)
    ensures n == 8 * (n / 8) + n % 8 && n == 4 * (n / 4) + n % 4 && n == 2 * (n / 2) + n % 2
    ensures n % 4 == n % 8 % 4 && n % 2 == n % 8 % 2
  {
    DivModUnique(n, 4, 2 * (n / 8) + n % 8 / 4, n % 8 % 4);
    DivModUnique(n, 2, 4 * (n / 8) + n % 8 / 2, n % 8 % 2);
  }

  // Every pixel is in its home's place.
  lemma HomeIsPlace(x: nat, y: nat)
    ensures Home(x, y).p < 7 && ColumnOf(Home(x, y)) == x && RowOf(Home(x, y)) == y
  {
    HomeColumn(x, y);
    HomeRow(x, y);
  }

  lemma HomeColumn(x: nat, y: nat)
    ensures ColumnOf(Home(x, y)) == x
  {
    Parts(x);
  }

  lemma HomeRow(x: nat, y: nat)
    ensures RowOf(Home(x, y)) == y
  {
    Parts(y);
  }

  lemma Remainders(k: nat, m: nat)
    requires m < 8
    ensures (8 * k + m) % 8 == m && (8 * k + m) / 8 == k
    ensures (8 * k + m) % 4 == m % 4 && (8 * k + m) % 2 == m % 2
  {
    DivModUnique(8 * k + m, 8, k, m);
    Parts(8 * k + m);
  }

  lemma Remainders4(k: nat, m: nat)
    requires m < 4
    ensures (4 * k + m) % 4 == m && (4 * k + m) / 4 == k && (4 * k + m) % 2 == m % 2
  {
    DivModUnique(4 * k + m, 4, k, m);
    DivModUnique(4 * k + m, 2, 2 * k + m / 2, m % 2);
  }

  lemma Remainders2(k: nat, m: nat)
    requires m < 2
    ensures (2 * k + m) % 2 == m && (2 * k + m) / 2 == k
  {
    DivModUnique(2 * k + m, 2, k, m);
  }

  // No other place has that pixel.
  lemma PlaceIsHome(a: Place)
    requires a.p < 7
    ensures Home(ColumnOf(a), RowOf(a)) == a
  {
    if a.p < 2 {
      Remainders(a.i, XOrig(a.p));
    } else if a.p < 4 {
      Remainders4(a.i, XOrig(a.p));
    } else if a.p < 6 {
      Remainders2(a.i, XOrig(a.p));
    }
    if a.p < 3 {
      Remainders(a.j, YOrig(a.p));
    } else if a.p < 5 {
      Remainders4(a.j, YOrig(a.p));
    } else {
      Remainders2(a.j, YOrig(a.p));
    }
  }

  predicate InPass(w: nat, h: nat, a: Place) {
    a.p < 7 && a.i < PassWidth(w, a.p) && a.j < PassHeight(h, a.p)
  }

  // The passes of an image hold each of its pixels once, and no other.
  lemma ExactlyOnce(w: nat, h: nat, x: nat, y: nat, a: Place)
    requires w < U32 - 8 && h < U32 - 8
    ensures InPass(w, h, a) && ColumnOf(a) == x && RowOf(a) == y <==> x < w && y < h && a == Home(x, y)
  {
    HomeIsPlace(x, y);
    if a.p < 7 {
      PlaceIsHome(a);
      Origins(a.p);
      AlongCovers(w, XOrig(a.p), XSpace(a.p), a.i);
      AlongCovers(h, YOrig(a.p), YSpace(a.p), a.j);
    }
    hide Along, Home;
  }

  // ---- the sizes add up ----------------------------------------------------

  function Pixels(w: nat, h: nat, p: nat): nat {
    PassWidth(w, p) * PassHeight(h, p)
  }

  lemma PixelCounts(w: nat, h: nat)
    ensures forall p: nat {:trigger Pixels(w, h, p)} :: Pixels(w, h, p) == PassWidth(w, p) * PassHeight(h, p)
  {
    hide PassWidth, PassHeight;
  }

  // The first p passes fill a grid that each further pass makes twice as fine.
  lemma SizesAddUp(w: nat, h: nat)
    requires w < U32 - 8 && h < U32 - 8
    ensures Pixels(w, h, 0) + Pixels(w, h, 1) + Pixels(w, h, 2) + Pixels(w, h, 3)
            + Pixels(w, h, 4) + Pixels(w, h, 5) + Pixels(w, h, 6) == w * h
  {
    hide PassWidth, PassHeight, Pixels;
    Columns(w);
    Rows(h);
    PixelCounts(w, h);
    Telescope(PassWidth(w, 0), PassWidth(w, 1), PassWidth(w, 3), PassWidth(w, 5),
              PassHeight(h, 0), PassHeight(h, 2), PassHeight(h, 4), PassHeight(h, 6));
  }

  lemma Columns(w: nat)
    requires w < U32 - 8
    ensures PassWidth(w, 0) + PassWidth(w, 1) == PassWidth(w, 2)
    ensures PassWidth(w, 2) + PassWidth(w, 3) == PassWidth(w, 4)
    ensures PassWidth(w, 4) + PassWidth(w, 5) == PassWidth(w, 6) == w
  {
    Halves(w);
    AlongIsExact(w, 0, 1);
    hide Along;
  }

  lemma Rows(h: nat)
    requires h < U32 - 8
    ensures PassHeight(h, 0) == PassHeight(h, 1)
    ensures PassHeight(h, 0) + PassHeight(h, 2) == PassHeight(h, 3)
    ensures PassHeight(h, 3) + PassHeight(h, 4) == PassHeight(h, 5)
    ensures PassHeight(h, 5) + PassHeight(h, 6) == h
  {
    Halves(h);
    hide Along;
  }

  lemma Telescope(x0: nat, x1: nat, x3: nat, x5: nat, y0: nat, y2: nat, y4: nat, y6: nat)
    ensures var w4, h4 := x0 + x1, y0 + y2;
            var w2, h2 := w4 + x3, h4 + y4;
            var w, h := w2 + x5, h2 + y6;
            x0 * y0 + x1 * y0 + w4 * y2 + x3 * h4 + w2 * y4 + x5 * h2 + w * y6 == w * h
  {
    var w4, h4 := x0 + x1, y0 + y2;
    var w2, h2 := w4 + x3, h4 + y4;
    Distribute(x0, x1, y0);
    Distribute2(w4, y0, y2);
    Distribute(w4, x3, h4);
    Distribute2(w2, h4, y4);
    Distribute(w2, x5, h2);
    Distribute2(w2 + x5, h2, y6);
  }

  lemma Distribute(a: nat, b: nat, c: nat)
    ensures a * c + b * c == (a + b) * c
  {
  }

  lemma Distribute2(a: nat, b: nat, c: nat)
    ensures a * b + a * c == a * (b + c)
  {
  }

  // Each grid and the one shifted by half make the finer grid.
  lemma Halves(n: nat)
    requires n < U32 - 8
    ensures Along(n, 0, 8) + Along(n, 4, 8) == Along(n, 0, 4)
    ensures Along(n, 0, 4) + Along(n, 2, 4) == Along(n, 0, 2)
    ensures Along(n, 0, 2) + Along(n, 1, 2) == n
  {
    AlongIsExact(n, 0, 8);
    AlongIsExact(n, 4, 8);
    AlongIsExact(n, 0, 4);
    AlongIsExact(n, 2, 4);
    AlongIsExact(n, 0, 2);
    AlongIsExact(n, 1, 2);
    hide Along;
    HalvesOfQuotients(n);
  }

  lemma HalvesOfQuotients(n: nat)
    ensures (n + 7) / 8 + (n + 3) / 8 == (n + 3) / 4
    ensures (n + 3) / 4 + (n + 1) / 4 == (n + 1) / 2
    ensures (n + 1) / 2 + n / 2 == n
  {
    HalfOf8(n / 8, n % 8);
    HalfOf4(n / 4, n % 4);
  }

  lemma HalfOf8(q: nat, m: nat)
    requires m < 8
    ensures var n := 8 * q + m; (n + 7) / 8 + (n + 3) / 8 == (n + 3) / 4
  {
    var n := 8 * q + m;
    DivModUnique(n + 7, 8, q + (m + 7) / 8, (m + 7) % 8);
    DivModUnique(n + 3, 8, q + (m + 3) / 8, (m + 3) % 8);
    DivModUnique(n + 3, 4, 2 * q + (m + 3) / 4, (m + 3) % 4);
  }

  lemma HalfOf4(q: nat, m: nat)
    requires m < 4
    ensures var n := 4 * q + m; (n + 3) / 4 + (n + 1) / 4 == (n + 1) / 2
  {
    var n := 4 * q + m;
    DivModUnique(n + 3, 4, q + (m + 3) / 4, (m + 3) % 4);
    DivModUnique(n + 1, 4, q + (m + 1) / 4, (m + 1) % 4);
    DivModUnique(n + 1, 2, 2 * q + (m + 1) / 2, (m + 1) % 2);
  }

  // ---- de-interlacing ------------------------------------------------------

  // The passes of an image, each row by row.
  ghost predicate Passes<T>(passes: seq<seq<T>>, w: nat, h: nat) {
    |passes| == 7 && forall p: nat :: p < 7 ==> |passes[p]| == Pixels(w, h, p)
  }

  // Pixel `v` is the one that place `a` of the passes holds.
  predicate IsAt<T(==)>(passes: seq<seq<T>>, w: nat, a: Place, v: T) {
    a.p < |passes| && a.j * PassWidth(w, a.p) + a.i < |passes[a.p]|
    && v == passes[a.p][a.j * PassWidth(w, a.p) + a.i]
  }

  lemma IndexInside(i: nat, j: nat, x: nat, y: nat)
    requires i < x && j < y
    ensures j * x + i < x * y
  {
    MulOrder(j, y, x);
  }

  method PlaceLine<T>(w: nat, h: nat, passes: seq<seq<T>>, p: nat, j: nat, final: array2<T>)
    requires w < U32 - 8 && h < U32 - 8 && final.Length0 == h && final.Length1 == w
    requires Passes(passes, w, h) && p < 7 && j < PassHeight(h, p)
    modifies final
    ensures forall x: nat, y: nat {:trigger final[y, x]} :: x < w && y < h ==>
      if Home(x, y).p == p && Home(x, y).j == j then IsAt(passes, w, Home(x, y), final[y, x])
      else final[y, x] == old(final[y, x])
  {
    hide Home, PassWidth, PassHeight, Along, ColumnOf, RowOf, XOrig, YOrig, XSpace, YSpace, IsAt;
    var n := PassWidth(w, p);
    for i := 0 to n
      invariant forall x: nat, y: nat {:trigger final[y, x]} :: x < w && y < h ==>
        if Home(x, y).p == p && Home(x, y).j == j && Home(x, y).i < i then IsAt(passes, w, Home(x, y), final[y, x])
        else final[y, x] == old(final[y, x])
    {
      ghost var a := Place(p, i, j);
      IndexInside(i, j, n, PassHeight(h, p));
      var outX, outY := i * XSpace(p) + XOrig(p), j * YSpace(p) + YOrig(p);
      Lands(w, h, a, outX, outY);
      ItIs(passes, w, a);
      final[outY, outX] := passes[p][j * n + i];
    }
    forall x: nat, y: nat | x < w && y < h && Home(x, y).p == p && Home(x, y).j == j
      ensures Home(x, y).i < n
    {
      HomeInPass(w, h, x, y);
    }
  }

  // Where a pixel of a pass lands is inside, and its home.
  lemma Lands(w: nat, h: nat, a: Place, x: nat, y: nat)
    requires w < U32 - 8 && h < U32 - 8 && InPass(w, h, a)
    requires x == a.i * XSpace(a.p) + XOrig(a.p) && y == a.j * YSpace(a.p) + YOrig(a.p)
    ensures x < w && y < h && Home(x, y) == a
    ensures forall x': nat, y': nat {:trigger Home(x', y')} :: Home(x', y') == a ==> x' == x && y' == y
  {
    hide Along, Home, XSpace, YSpace, XOrig, YOrig;
    assert ColumnOf(a) == x && RowOf(a) == y;
    ExactlyOnce(w, h, x, y, a);
    forall x': nat, y': nat | Home(x', y') == a
      ensures x' == x && y' == y
    {
      HomeIsPlace(x', y');
    }
  }

  lemma ItIs<T>(passes: seq<seq<T>>, w: nat, a: Place)
    requires a.p < |passes| && a.j * PassWidth(w, a.p) + a.i < |passes[a.p]|
    ensures IsAt(passes, w, a, passes[a.p][a.j * PassWidth(w, a.p) + a.i])
  {
  }

  lemma HomeInPass(w: nat, h: nat, x: nat, y: nat)
    requires x < w < U32 - 8 && y < h < U32 - 8
    ensures InPass(w, h, Home(x, y))
  {
    ExactlyOnce(w, h, x, y, Home(x, y));
  }

  method PlacePass<T>(w: nat, h: nat, passes: seq<seq<T>>, p: nat, final: array2<T>)
    requires w < U32 - 8 && h < U32 - 8 && final.Length0 == h && final.Length1 == w
    requires Passes(passes, w, h) && p < 7
    modifies final
    ensures forall x: nat, y: nat {:trigger final[y, x]} :: x < w && y < h ==>
      if Home(x, y).p == p then IsAt(passes, w, Home(x, y), final[y, x])
      else final[y, x] == old(final[y, x])
  {
    hide Home, PassWidth, PassHeight, Along, IsAt, Passes;
    var m := PassHeight(h, p);
    for j := 0 to m
      invariant forall x: nat, y: nat {:trigger final[y, x]} :: x < w && y < h ==>
        if Home(x, y).p == p && Home(x, y).j < j then IsAt(passes, w, Home(x, y), final[y, x])
        else final[y, x] == old(final[y, x])
    {
      PlaceLine(w, h, passes, p, j, final);
    }
    forall x: nat, y: nat | x < w && y < h && Home(x, y).p == p
      ensures Home(x, y).j < m
    {
      HomeInPass(w, h, x, y);
    }
  }

  // Puts the pixels of all passes in their places: the whole image is written,
  // each pixel from the one place that is its home.
  method Deinterlace<T>(w: nat, h: nat, passes: seq<seq<T>>, final: array2<T>)
    requires w < U32 - 8 && h < U32 - 8 && final.Length0 == h && final.Length1 == w
    requires Passes(passes, w, h)
    modifies final
    ensures forall x: nat, y: nat {:trigger final[y, x]} :: x < w && y < h ==> IsAt(passes, w, Home(x, y), final[y, x])
  {
    hide Home, PassWidth, PassHeight, Along, IsAt, Passes;
    for p := 0 to 7
      invariant forall x: nat, y: nat {:trigger final[y, x]} :: x < w && y < h && Home(x, y).p < p ==>
        IsAt(passes, w, Home(x, y), final[y, x])
    {
      if PassWidth(w, p) != 0 && PassHeight(h, p) != 0 {
        PlacePass(w, h, passes, p, final);
      } else {
        forall x: nat, y: nat | x < w && y < h
          ensures Home(x, y).p != p
        {
          HomeInPass(w, h, x, y);
        }
      }
    }
    forall x: nat, y: nat
      ensures Home(x, y).p < 7
    {
      HomeIsPlace(x, y);
    }
  }
}
