/**
 What a bitmap's glyph draws: its contours are clockwise boxes, one for each set cell and nowhere else, and the
 glyph's header holds the least and greatest coordinates of their points.
 */
module GlyphInk {
  import opened Wrappers
  import opened Pieces
  import opened Bytes
  import opened Glyph

  ghost predicate IsPoint(contours: seq<seq<Point>>, p: Point) {
    exists k :: 0 <= k < |contours| && p in contours[k]
  }

  ghost predicate LeastAre(contours: seq<seq<Point>>, x: int, y: int) {
    && (forall p :: IsPoint(contours, p) ==> x <= p.0 && y <= p.1)
    && (exists p :: IsPoint(contours, p) && p.0 == x)
    && (exists p :: IsPoint(contours, p) && p.1 == y)
  }

  ghost predicate GreatestAre(contours: seq<seq<Point>>, x: int, y: int) {
    && (forall p :: IsPoint(contours, p) ==> p.0 <= x && p.1 <= y)
    && (exists p :: IsPoint(contours, p) && p.0 == x)
    && (exists p :: IsPoint(contours, p) && p.1 == y)
  }

  // The signed word at byte `at`.
  function Word(g: Bytes, at: nat): int
    requires at + 2 <= |g|
  {
    FromSigned16(GetBe16(g, at))
  }

  predicate Clockwise(contour: seq<Point>) {
    && |contour| == 4
    && contour[0].0 == contour[1].0 < contour[2].0 == contour[3].0
    && contour[0].1 == contour[3].1 < contour[1].1 == contour[2].1
  }

  predicate Inside(contour: seq<Point>, x: int, y: int) {
    Clockwise(contour) && contour[0].0 <= x <= contour[2].0 && contour[0].1 <= y <= contour[2].1
  }

  predicate Inked(contours: seq<seq<Point>>, x: int, y: int) {
    exists k :: 0 <= k < |contours| && Inside(contours[k], x, y)
  }

  // The square of units that row `r` and column `c` fill when their cell is set.
  predicate InSquare(r: int, c: int, x: int, y: int) {
    50 + 100 * c <= x <= 130 + 100 * c && 620 - 100 * r <= y <= 700 - 100 * r
  }

  predicate IsSet(rows: Rows, r: int, c: int) {
    0 <= r < |rows| && 0 <= c < |rows[r]| && rows[r][c] == '1'
  }

  predicate SetThere(rows: Rows, r: int, c: int, x: int, y: int) { IsSet(rows, r, c) && InSquare(r, c, x, y) }

  ghost predicate InkOf(rows: Rows, x: int, y: int) { exists r, c :: SetThere(rows, r, c, x, y) }

  lemma {:induction false} OutlinePoint(cs: seq<Cell>, p: Point)
    ensures IsPoint(Rectangles(cs), p) <==> p in Outline(cs)
  {
    hide Rectangle, Outline;
    if IsPoint(Rectangles(cs), p) {
      var k :| 0 <= k < |cs| && p in Rectangles(cs)[k];
      OutlineAt(cs, k);
      assert p in Outline(cs)[4 * k..4 * k + 4];
    }
    if p in Outline(cs) {
      var j :| 0 <= j < |Outline(cs)| && Outline(cs)[j] == p;
      OutlineAt(cs, j / 4);
      assert Outline(cs)[4 * (j / 4)..4 * (j / 4) + 4][j % 4] == p;
      assert p in Rectangles(cs)[j / 4];
    }
  }

  lemma {:induction false} SignedStays(v: int)
    requires 0 <= v <= 1000
    ensures Signed16(v) == v && FromSigned16(v) == v
  {
  }

  // One signed word of the header.
  lemma {:induction false} ShortThere(g: Bytes, at: nat, v: int)
    requires 0 <= v <= 1000 && Occurs(g, at, Short(v))
    ensures at + 2 <= |g| && Word(g, at) == v
  {
    hide Occurs, Be16, GetBe16;
    SignedStays(v);
    Get16From(g, at, v);
  }

  lemma {:induction false} HeaderWords(g: Bytes, n: nat, xs: seq<int>, ys: seq<int>)
    requires 0 < n < MAX_CELLS && xs != [] && ys != [] && OnSheet(xs) && OnSheet(ys)
    requires Occurs(g, 0, GlyphHeader(n, xs, ys))
    ensures |g| >= 10
    ensures Word(g, 2) == MinOf(xs) && Word(g, 4) == MinOf(ys) && Word(g, 6) == MaxOf(xs) && Word(g, 8) == MaxOf(ys)
  {
    hide Occurs, Be16, GetBe16, OnSheet;
    assert OnSheet(xs) ==> 0 <= MinOf(xs) <= 1000 && 0 <= MaxOf(xs) <= 1000 by { ExtremesOnSheet(xs); }
    assert OnSheet(ys) ==> 0 <= MinOf(ys) <= 1000 && 0 <= MaxOf(ys) <= 1000 by { ExtremesOnSheet(ys); }
    var a, b, c, d := Short(MinOf(xs)), Short(MinOf(ys)), Short(MaxOf(xs)), Short(MaxOf(ys));
    Split(g, 0, Short(n) + a + b + c, d);
    Split(g, 0, Short(n) + a + b, c);
    Split(g, 0, Short(n) + a, b);
    Split(g, 0, Short(n), a);
    ShortThere(g, 2, MinOf(xs));
    ShortThere(g, 4, MinOf(ys));
    ShortThere(g, 6, MaxOf(xs));
    ShortThere(g, 8, MaxOf(ys));
  }

  lemma {:induction false} ExtremesOnSheet(s: seq<int>)
    requires s != []
    ensures OnSheet(s) ==> 0 <= MinOf(s) <= 1000 && 0 <= MaxOf(s) <= 1000
  {
    var i :| 0 <= i < |s| && s[i] == MinOf(s);
    var j :| 0 <= j < |s| && s[j] == MaxOf(s);
  }

  lemma {:induction false} WithinExtremes(ps: seq<Point>, p: Point)
    requires p in ps
    ensures MinOf(Xs(ps)) <= p.0 <= MaxOf(Xs(ps)) && MinOf(Ys(ps)) <= p.1 <= MaxOf(Ys(ps))
  {
    hide MinOf, MaxOf;
    var i :| 0 <= i < |ps| && ps[i] == p;
    assert MinOf(Xs(ps)) <= Xs(ps)[i] <= MaxOf(Xs(ps));
    assert MinOf(Ys(ps)) <= Ys(ps)[i] <= MaxOf(Ys(ps));
  }

  lemma {:induction false} ExtremesAre(cs: seq<Cell>)
    requires cs != []
    ensures LeastAre(Rectangles(cs), MinOf(Xs(Outline(cs))), MinOf(Ys(Outline(cs))))
    ensures GreatestAre(Rectangles(cs), MaxOf(Xs(Outline(cs))), MaxOf(Ys(Outline(cs))))
  {
    hide Outline, IsPoint, Rectangles, Rectangle, MinOf, MaxOf, Xs, Ys;
    var all := Outline(cs);
    var left, right, low, high := MinOf(Xs(all)), MaxOf(Xs(all)), MinOf(Ys(all)), MaxOf(Ys(all));
    forall p | IsPoint(Rectangles(cs), p) ensures left <= p.0 <= right && low <= p.1 <= high {
      OutlinePoint(cs, p);
      WithinExtremes(all, p);
    }
    CoordinateIsMet(cs, left, low);
    CoordinateIsMet(cs, right, high);
  }

  lemma {:induction false} CoordinateIsMet(cs: seq<Cell>, x: int, y: int)
    requires x in Xs(Outline(cs)) && y in Ys(Outline(cs))
    ensures exists p :: IsPoint(Rectangles(cs), p) && p.0 == x
    ensures exists p :: IsPoint(Rectangles(cs), p) && p.1 == y
  {
    hide Outline, IsPoint;
    var all := Outline(cs);
    var i :| 0 <= i < |all| && Xs(all)[i] == x;
    var j :| 0 <= j < |all| && Ys(all)[j] == y;
    OutlinePoint(cs, all[i]);
    OutlinePoint(cs, all[j]);
    assert IsPoint(Rectangles(cs), all[i]) && IsPoint(Rectangles(cs), all[j]);
  }

  lemma {:induction false} OutlineHeaderIsTheBox(cs: seq<Cell>)
    requires cs != [] && ValidCells(cs) && |cs| < MAX_CELLS
    ensures var g := OutlineGlyph(cs);
      && LeastAre(Rectangles(cs), Word(g, 2), Word(g, 4))
      && GreatestAre(Rectangles(cs), Word(g, 6), Word(g, 8))
  {
    hide Occurs, Be16, GetBe16, Outline, OnSheet, Deltas, EndPoints, OnCurveFlags, GlyphHeader, LeastAre, GreatestAre;
    OutlineOnSheet(cs);
    var g, n := OutlineGlyph(cs), |cs|;
    var xs, ys := Xs(Outline(cs)), Ys(Outline(cs));
    AllOf(g);
    Split(g, 0, GlyphHeader(n, xs, ys),
      EndPoints(0, n) + (Be16(0) + (OnCurveFlags(4 * n) + (Deltas(xs, 0) + Deltas(ys, 0)))));
    HeaderWords(g, n, xs, ys);
    ExtremesAre(cs);
  }

  lemma {:induction false} NoBox()
    ensures var g := Zeros(12); forall at :: 0 <= at <= 8 ==> Word(g, at) == 0
  {
  }

  ghost predicate BoxIsHeader(g: Bytes, contours: seq<seq<Point>>)
    requires |g| >= 10
  {
    LeastAre(contours, Word(g, 2), Word(g, 4)) && GreatestAre(contours, Word(g, 6), Word(g, 8))
  }

  predicate NoInk(g: Bytes)
    requires |g| >= 10
  {
    Word(g, 2) == Word(g, 4) == Word(g, 6) == Word(g, 8) == 0
  }

  // The header's box is the least and greatest coordinates of the decoded contours, and all zero without any; the
  // counts beside the glyph are those of its contours and of their four points each.
  lemma {:induction false} HeaderIsTheBox(rows: Rows)
    requires BitmapGlyph(rows).Some?
    ensures var (g, points, contourCount) := BitmapGlyph(rows).value;
      var contours := DecodeGlyph(g);
      && contours.Some? && |g| >= 10
      && contourCount == |contours.value| && points == 4 * |contours.value|
      && (if contours.value == [] then NoInk(g) else BoxIsHeader(g, contours.value))
  {
    hide Cells, OutlineGlyph, Rectangles, LeastAre, GreatestAre, GetBe16;
    CellsAreValid(rows);
    var cs := Cells(rows);
    if cs == [] {
      NoBox();
      assert GetBe16(Zeros(12), 0) == 0 by { assert Word(Zeros(12), 0) == 0; }
    } else {
      DecodesOutline(cs);
      OutlineHeaderIsTheBox(cs);
    }
  }

  lemma {:induction false} RectangleIsSquare(c: Cell, x: int, y: int)
    ensures Clockwise(Rectangle(c))
    ensures Inside(Rectangle(c), x, y) <==> InSquare(c.row, c.column, x, y)
  {
  }

  lemma {:induction false} DecodesCells(rows: Rows)
    requires BitmapGlyph(rows).Some?
    ensures DecodeGlyph(BitmapGlyph(rows).value.0) == Some(Rectangles(Cells(rows)))
  {
    hide Cells, OutlineGlyph, Rectangles;
    CellsAreValid(rows);
    if Cells(rows) == [] {
      RectanglesOfNothing();
      assert GetBe16(Zeros(12), 0) == 0;
    } else {
      DecodesOutline(Cells(rows));
    }
  }

  // Every contour runs clockwise, and a unit of the sheet is inked exactly when it lies in the square of a set cell:
  // columns from the left and rows from the top, squares 80 units wide and 100 apart.
  lemma {:induction false} InkIsBitmap(rows: Rows, x: int, y: int)
    requires BitmapGlyph(rows).Some?
    ensures var contours := DecodeGlyph(BitmapGlyph(rows).value.0);
      && contours.Some?
      && (forall k :: 0 <= k < |contours.value| ==> Clockwise(contours.value[k]))
      && (Inked(contours.value, x, y) <==> InkOf(rows, x, y))
  {
    hide Cells, Rectangle, BitmapGlyph, DecodeGlyph, InSquare, Inside, Clockwise;
    assert ValidRows(rows) by { GlyphNeedsRows(rows); }
    DecodesCells(rows);
    CellsAreValid(rows);
    var cs := Cells(rows);
    forall k | 0 <= k < |cs| ensures Clockwise(Rectangle(cs[k])) { RectangleIsSquare(cs[k], x, y); }
    if Inked(Rectangles(cs), x, y) {
      var k :| 0 <= k < |cs| && Inside(Rectangle(cs[k]), x, y);
      RectangleIsSquare(cs[k], x, y);
      assert cs[k] in cs;
      assert ValidRow(rows[cs[k].row]);
      assert SetThere(rows, cs[k].row, cs[k].column, x, y);
    }
    if InkOf(rows, x, y) {
      var r, c :| SetThere(rows, r, c, x, y);
      assert ValidRow(rows[r]);
      assert Cell(r, c) in cs;
      var k :| 0 <= k < |cs| && cs[k] == Cell(r, c);
      RectangleIsSquare(Cell(r, c), x, y);
      assert Inside(Rectangles(cs)[k], x, y);
    }
  }

  lemma {:induction false} GlyphNeedsRows(rows: Rows)
    requires BitmapGlyph(rows).Some?
    ensures ValidRows(rows)
  {
  }
}
