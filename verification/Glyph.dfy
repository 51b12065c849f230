/**
 Bitmap glyphs as outlines (OpenType, "glyf", simple glyph description): a 5x7 bitmap becomes one
 rectangle per set cell, written with long delta-coded coordinates; reading the deltas and filling the
 rectangles gives the bitmap back.
 */
module Glyph {
  import opened Wrappers
  import opened Pieces
  import opened Bytes

  const GRID_ROWS := 7
  const GRID_COLUMNS := 5

  type Rows = seq<string>

  predicate ValidRow(row: string) {
    |row| == GRID_COLUMNS && forall c :: 0 <= c < GRID_COLUMNS ==> row[c] == '0' || row[c] == '1'
  }

  predicate ValidRows(rows: Rows) {
    |rows| == GRID_ROWS && forall r :: 0 <= r < GRID_ROWS ==> ValidRow(rows[r])
  }

  // ---- Cells and their rectangles ----

  datatype Cell = Cell(row: nat, column: nat)

  predicate ValidCell(c: Cell) { c.row < GRID_ROWS && c.column < GRID_COLUMNS }

  predicate ValidCells(cs: seq<Cell>) { forall i :: 0 <= i < |cs| ==> ValidCell(cs[i]) }

  // The set cells of one row from column `c` on.
  function RowCells(row: string, r: nat, c: nat): seq<Cell>
    requires c <= |row|
    decreases |row| - c
  {
    if c == |row| then []
    else (if row[c] == '0' then [] else [Cell(r, c)]) + RowCells(row, r, c + 1)
  }

  // The set cells from row `r` on, row by row.
  function CellsFrom(rows: Rows, r: nat): seq<Cell>
    requires r <= |rows|
    decreases |rows| - r
  {
    if r == |rows| then [] else RowCells(rows[r], r, 0) + CellsFrom(rows, r + 1)
  }

  function Cells(rows: Rows): seq<Cell> { CellsFrom(rows, 0) }

  type Point = (int, int)

  // Lower left, upper left, upper right, lower right.
  function Rectangle(c: Cell): seq<Point> {
    var xMin, yMax := 50 + 100 * c.column, 700 - 100 * c.row;
    [(xMin, yMax - 80), (xMin, yMax), (xMin + 80, yMax), (xMin + 80, yMax - 80)]
  }

  function Outline(cs: seq<Cell>): (r: seq<Point>)
    ensures |r| == 4 * |cs|
  {
    if cs == [] then [] else Rectangle(cs[0]) + Outline(cs[1..])
  }

  function Xs(ps: seq<Point>): (r: seq<int>)
    ensures |r| == |ps| && forall i :: 0 <= i < |r| ==> r[i] == ps[i].0
  {
    seq(|ps|, i requires 0 <= i < |ps| => ps[i].0)
  }

  function Ys(ps: seq<Point>): (r: seq<int>)
    ensures |r| == |ps| && forall i :: 0 <= i < |r| ==> r[i] == ps[i].1
  {
    seq(|ps|, i requires 0 <= i < |ps| => ps[i].1)
  }

  predicate OnSheet(s: seq<int>) { forall i :: 0 <= i < |s| ==> 0 <= s[i] <= 1000 }

  lemma {:induction false} OutlineAt(cs: seq<Cell>, k: nat)
    requires k < |cs|
    ensures Outline(cs)[4 * k..4 * k + 4] == Rectangle(cs[k])
    decreases k
  {
    if k > 0 {
      OutlineAt(cs[1..], k - 1);
      assert Outline(cs)[4 * k..4 * k + 4] == Outline(cs[1..])[4 * (k - 1)..4 * (k - 1) + 4];
    }
  }

  lemma {:induction false} OutlineOnSheet(cs: seq<Cell>)
    requires ValidCells(cs)
    ensures OnSheet(Xs(Outline(cs))) && OnSheet(Ys(Outline(cs)))
  {
    if cs != [] {
      OutlineOnSheet(cs[1..]);
      assert ValidCell(cs[0]);
      var rest := Outline(cs[1..]);
      forall i | 0 <= i < |Outline(cs)|
        ensures 0 <= Xs(Outline(cs))[i] <= 1000 && 0 <= Ys(Outline(cs))[i] <= 1000
      {
        if i >= 4 { assert Outline(cs)[i] == rest[i - 4] && Xs(rest)[i - 4] <= 1000 && Ys(rest)[i - 4] <= 1000; }
        else { assert Outline(cs)[i] == Rectangle(cs[0])[i]; }
      }
    }
  }

  // ---- Encoding ----

  function MinOf(s: seq<int>): (m: int)
    requires s != []
    ensures m in s && forall i :: 0 <= i < |s| ==> m <= s[i]
  {
    if |s| == 1 then s[0] else var rest := MinOf(s[1..]); if s[0] < rest then s[0] else rest
  }

  function MaxOf(s: seq<int>): (m: int)
    requires s != []
    ensures m in s && forall i :: 0 <= i < |s| ==> s[i] <= m
  {
    if |s| == 1 then s[0] else var rest := MaxOf(s[1..]); if s[0] > rest then s[0] else rest
  }

  function Short(v: int): (r: Bytes)
    requires -0x8000 <= v < 0x8000
    ensures |r| == 2
  {
    Be16(Signed16(v))
  }

  // Last point index of each contour, from contour `k` on.
  function EndPoints(k: nat, n: nat): (r: Bytes)
    requires k <= n < 0x2000
    ensures |r| == 2 * (n - k)
    decreases n - k
  {
    if k == n then [] else Be16(4 * k + 3) + EndPoints(k + 1, n)
  }

  function OnCurveFlags(n: nat): (r: Bytes)
    ensures |r| == n && forall i :: 0 <= i < n ==> r[i] == 1
  {
    seq(n, _ => 1)
  }

  // Each value as a signed 16-bit difference from the one before it.
  function Deltas(s: seq<int>, previous: int): (r: Bytes)
    requires OnSheet(s) && 0 <= previous <= 1000
    ensures |r| == 2 * |s|
  {
    if s == [] then [] else Short(s[0] - previous) + Deltas(s[1..], s[0])
  }

  const MAX_CELLS := 0x1000

  function GlyphHeader(n: nat, xs: seq<int>, ys: seq<int>): (r: Bytes)
    requires n < MAX_CELLS && xs != [] && ys != [] && OnSheet(xs) && OnSheet(ys)
    ensures |r| == 10
  {
    Short(n) + Short(MinOf(xs)) + Short(MinOf(ys)) + Short(MaxOf(xs)) + Short(MaxOf(ys))
  }

  function OutlineGlyph(cs: seq<Cell>): (r: Bytes)
    requires cs != [] && ValidCells(cs) && |cs| < MAX_CELLS
    ensures |r| == 12 + 22 * |cs|
  {
    OutlineOnSheet(cs);
    var xs, ys := Xs(Outline(cs)), Ys(Outline(cs));
    GlyphHeader(|cs|, xs, ys)
    + (EndPoints(0, |cs|) + (Be16(0) + (OnCurveFlags(4 * |cs|) + (Deltas(xs, 0) + Deltas(ys, 0)))))
  }

  // The glyph of a bitmap, its number of points and of contours.
  function BitmapGlyph(rows: Rows): Option<(Bytes, nat, nat)> {
    if !ValidRows(rows) then None
    else
      CellsAreValid(rows);
      var cs := Cells(rows);
      if cs == [] then Some((Zeros(12), 0, 0)) else Some((OutlineGlyph(cs), 4 * |cs|, |cs|))
  }

  // ---- Set cells ----

  lemma {:induction false} RowCellsAre(row: string, r: nat, c: nat)
    requires c <= |row|
    ensures |RowCells(row, r, c)| <= |row| - c
    ensures forall cell :: (
      cell in RowCells(row, r, c) <==> cell.row == r && c <= cell.column < |row| && row[cell.column] != '0')
    decreases |row| - c
  {
    if c < |row| {
      RowCellsAre(row, r, c + 1);
      forall cell
        ensures cell in RowCells(row, r, c) <==> cell.row == r && c <= cell.column < |row| && row[cell.column] != '0'
      {
        assert cell in RowCells(row, r, c) <==>
          (row[c] != '0' && cell == Cell(r, c)) || cell in RowCells(row, r, c + 1);
      }
    }
  }

  lemma {:induction false} CellsFromAre(rows: Rows, r: nat)
    requires r <= |rows| && forall i :: r <= i < |rows| ==> ValidRow(rows[i])
    ensures |CellsFrom(rows, r)| <= GRID_COLUMNS * (|rows| - r)
    ensures forall cell :: (
      cell in CellsFrom(rows, r) <==>
      r <= cell.row < |rows| && cell.column < |rows[cell.row]| && rows[cell.row][cell.column] != '0')
    decreases |rows| - r
  {
    hide RowCells;
    if r < |rows| {
      assert ValidRow(rows[r]);
      RowCellsAre(rows[r], r, 0);
      CellsFromAre(rows, r + 1);
    }
  }

  lemma {:induction false} CellsAreValid(rows: Rows)
    requires ValidRows(rows)
    ensures ValidCells(Cells(rows)) && |Cells(rows)| < MAX_CELLS
    ensures forall cell :: cell in Cells(rows) <==> ValidCell(cell) && rows[cell.row][cell.column] == '1'
  {
    hide CellsFrom;
    CellsFromAre(rows, 0);
    forall r | 0 <= r < GRID_ROWS ensures ValidRow(rows[r]) && |rows[r]| == GRID_COLUMNS {
    }
    forall i | 0 <= i < |Cells(rows)| ensures ValidCell(Cells(rows)[i]) {
      assert Cells(rows)[i] in Cells(rows);
    }
  }

  // ---- Decoding ----

  // Undoes `n` deltas starting at byte `at`.
  function Undelta(g: Bytes, at: nat, n: nat, previous: int): (r: seq<int>)
    requires at + 2 * n <= |g|
    ensures |r| == n
    decreases n
  {
    if n == 0 then []
    else
      var v := previous + FromSigned16(GetBe16(g, at));
      [v] + Undelta(g, at + 2, n - 1, v)
  }

  // Contours from contour `k` on; `start` is the first point not yet used.
  function Contours(g: Bytes, n: nat, xs: seq<int>, ys: seq<int>, k: nat, start: nat): Option<seq<seq<Point>>>
    requires k <= n && 10 + 2 * n <= |g| && |xs| == |ys|
    decreases n - k
  {
    if k == n then Some([])
    else
      var end := GetBe16(g, 10 + 2 * k);
      if !(start <= end < |xs|) then None
      else
        var rest := Contours(g, n, xs, ys, k + 1, end + 1);
        if rest.None? then None
        else Some([seq(end + 1 - start, i requires 0 <= i < end + 1 - start => (xs[start + i], ys[start + i]))]
                  + rest.value)
  }

  // A simple glyph whose points are all on-curve with long coordinates, as its contours.
  function DecodeGlyph(g: Bytes): Option<seq<seq<Point>>> {
    if |g| < 10 then None
    else
      var n := GetBe16(g, 0);
      if n == 0 then Some([])
      else if n >= 0x8000 || |g| < 12 + 2 * n then None
      else
        var count := GetBe16(g, 10 + 2 * (n - 1)) + 1;
        var flags := 12 + 2 * n + GetBe16(g, 10 + 2 * n);
        if |g| < flags + 5 * count || exists i :: flags <= i < flags + count && g[i] != 1 then None
        else
          Contours(g, n, Undelta(g, flags + count, count, 0), Undelta(g, flags + 3 * count, count, 0), 0, 0)
  }

  // A cell is set when its rectangle is one of the contours.
  function Fill(contours: seq<seq<Point>>): (rows: Rows)
    ensures |rows| == GRID_ROWS
    ensures forall r :: 0 <= r < GRID_ROWS ==> |rows[r]| == GRID_COLUMNS
    ensures forall r, c :: 0 <= r < GRID_ROWS && 0 <= c < GRID_COLUMNS ==>
      rows[r][c] == if Rectangle(Cell(r, c)) in contours then '1' else '0'
  {
    seq(GRID_ROWS, r requires 0 <= r < GRID_ROWS =>
      seq(GRID_COLUMNS, c requires 0 <= c < GRID_COLUMNS =>
        if Rectangle(Cell(r, c)) in contours then '1' else '0'))
  }

  function Bitmap(g: Bytes): Option<Rows> {
    var contours := DecodeGlyph(g);
    if contours.None? then None else Some(Fill(contours.value))
  }

  // ---- Decoding undoes encoding ----

  lemma {:induction false} Get16From(g: Bytes, at: nat, v: nat)
    requires v < U16 && Occurs(g, at, Be16(v))
    ensures at + 2 <= |g| && GetBe16(g, at) == v
  {
    var b := Be16(v);
    assert g[at + 0] == b[0] && g[at + 1] == b[1];
  }

  lemma {:induction false} UndeltaOver(g: Bytes, at: nat, s: seq<int>, previous: int)
    requires OnSheet(s) && 0 <= previous <= 1000 && Occurs(g, at, Deltas(s, previous))
    ensures Undelta(g, at, |s|, previous) == s
    decreases |s|
  {
    hide Occurs, Be16, GetBe16;
    if s != [] {
      Split(g, at, Short(s[0] - previous), Deltas(s[1..], s[0]));
      Get16From(g, at, Signed16(s[0] - previous));
      UndeltaOver(g, at + 2, s[1..], s[0]);
    }
  }

  lemma {:induction false} EndPointsAt(g: Bytes, at: nat, k: nat, n: nat, j: nat)
    requires k <= j < n < 0x2000 && Occurs(g, at, EndPoints(k, n))
    ensures at + 2 * (j - k) + 2 <= |g| && GetBe16(g, at + 2 * (j - k)) == 4 * j + 3
    decreases n - k
  {
    hide Occurs, Be16, GetBe16;
    Split(g, at, Be16(4 * k + 3), EndPoints(k + 1, n));
    if j == k { Get16From(g, at, 4 * k + 3); } else { EndPointsAt(g, at + 2, k + 1, n, j); }
  }

  function Rectangles(cs: seq<Cell>): (r: seq<seq<Point>>)
    ensures |r| == |cs| && forall i :: 0 <= i < |r| ==> r[i] == Rectangle(cs[i])
  {
    seq(|cs|, i requires 0 <= i < |cs| => Rectangle(cs[i]))
  }

  lemma {:induction false} ContoursOver(g: Bytes, cs: seq<Cell>, k: nat)
    requires k <= |cs| < MAX_CELLS && 10 + 2 * |cs| <= |g|
    requires forall j :: 0 <= j < |cs| ==> GetBe16(g, 10 + 2 * j) == 4 * j + 3
    ensures Contours(g, |cs|, Xs(Outline(cs)), Ys(Outline(cs)), k, 4 * k) == Some(Rectangles(cs)[k..])
    decreases |cs| - k
  {
    hide GetBe16, Outline, Rectangle;
    if k < |cs| {
      ContoursOver(g, cs, k + 1);
      OutlineAt(cs, k);
      var xs, ys := Xs(Outline(cs)), Ys(Outline(cs));
      var contour := seq(4, i requires 0 <= i < 4 => (xs[4 * k + i], ys[4 * k + i]));
      assert contour == Outline(cs)[4 * k..4 * k + 4];
      assert Rectangles(cs)[k..] == [Rectangle(cs[k])] + Rectangles(cs)[k + 1..];
      assert GetBe16(g, 10 + 2 * k) == 4 * k + 3;
    }
  }

  lemma {:induction false} FlagsThere(g: Bytes, at: nat, n: nat)
    requires Occurs(g, at, OnCurveFlags(n))
    ensures at + n <= |g| && forall i :: at <= i < at + n ==> g[i] == 1
  {
    forall i | at <= i < at + n ensures g[i] == 1 { assert g[at + (i - at)] == OnCurveFlags(n)[i - at]; }
  }

  lemma {:induction false} DecodesOutline(cs: seq<Cell>)
    requires cs != [] && ValidCells(cs) && |cs| < MAX_CELLS
    ensures DecodeGlyph(OutlineGlyph(cs)) == Some(Rectangles(cs))
  {
    hide Occurs, Be16, GetBe16, Deltas, EndPoints, OnCurveFlags, Outline, OnSheet, Undelta, Contours, Rectangles;
    OutlineOnSheet(cs);
    var g, n := OutlineGlyph(cs), |cs|;
    var xs, ys := Xs(Outline(cs)), Ys(Outline(cs));
    var h, dx, dy := GlyphHeader(n, xs, ys), Deltas(xs, 0), Deltas(ys, 0);
    var ends, flags := EndPoints(0, n), OnCurveFlags(4 * n);
    AllOf(g);
    Split(g, 0, h, ends + (Be16(0) + (flags + (dx + dy))));
    Split(g, 10, ends, Be16(0) + (flags + (dx + dy)));
    Split(g, 10 + 2 * n, Be16(0), flags + (dx + dy));
    Split(g, 12 + 2 * n, flags, dx + dy);
    Split(g, 12 + 6 * n, dx, dy);
    HeaderCount(g, n, xs, ys);
    forall j | 0 <= j < n ensures GetBe16(g, 10 + 2 * j) == 4 * j + 3 { EndPointsAt(g, 10, 0, n, j); }
    Get16From(g, 10 + 2 * n, 0);
    FlagsThere(g, 12 + 2 * n, 4 * n);
    UndeltaOver(g, 12 + 6 * n, xs, 0);
    UndeltaOver(g, 12 + 14 * n, ys, 0);
    ContoursOver(g, cs, 0);
    assert Rectangles(cs)[0..] == Rectangles(cs);
  }

  lemma {:induction false} HeaderCount(g: Bytes, n: nat, xs: seq<int>, ys: seq<int>)
    requires 0 < n < MAX_CELLS && xs != [] && ys != [] && OnSheet(xs) && OnSheet(ys)
    requires Occurs(g, 0, GlyphHeader(n, xs, ys))
    ensures |g| >= 10 && GetBe16(g, 0) == n
  {
    var h := GlyphHeader(n, xs, ys);
    assert g[0 + 0] == h[0] && g[0 + 1] == h[1];
    assert h[0] == Be16(n)[0] && h[1] == Be16(n)[1];
  }

  lemma {:induction false} RectanglesAreDistinct(a: Cell, b: Cell)
    requires Rectangle(a) == Rectangle(b)
    ensures a == b
  {
    assert Rectangle(a)[0] == Rectangle(b)[0];
  }

  lemma {:induction false} FillsCells(rows: Rows)
    requires ValidRows(rows)
    ensures Fill(Rectangles(Cells(rows))) == rows
  {
    hide Cells, Rectangle;
    CellsAreValid(rows);
    var contours := Rectangles(Cells(rows));
    var filled := Fill(contours);
    forall r | 0 <= r < GRID_ROWS ensures filled[r] == rows[r] {
      assert ValidRow(rows[r]);
      forall c | 0 <= c < GRID_COLUMNS ensures filled[r][c] == rows[r][c] {
        var cell := Cell(r, c);
        if cell in Cells(rows) {
          var i :| 0 <= i < |Cells(rows)| && Cells(rows)[i] == cell;
          assert contours[i] == Rectangle(cell);
        } else if Rectangle(cell) in contours {
          var i :| 0 <= i < |contours| && contours[i] == Rectangle(cell);
          RectanglesAreDistinct(Cells(rows)[i], cell);
          assert false;
        }
      }
    }
  }

  // Undoing the delta-coded contours of a bitmap's glyph gives back exactly the bitmap.
  lemma {:induction false} BitmapRoundTrip(rows: Rows)
    requires BitmapGlyph(rows).Some?
    ensures Bitmap(BitmapGlyph(rows).value.0) == Some(rows)
  {
    hide Cells, OutlineGlyph, Fill, Rectangles;
    CellsAreValid(rows);
    FillsCells(rows);
    if Cells(rows) == [] {
      assert Rectangles([]) == [] by { RectanglesOfNothing(); }
      assert GetBe16(Zeros(12), 0) == 0;
    } else {
      DecodesOutline(Cells(rows));
    }
  }

  lemma {:induction false} RectanglesOfNothing()
    ensures Rectangles([]) == []
  {
  }

  // Distinct bitmaps have distinct glyphs.
  lemma {:induction false} GlyphsAreDistinct(a: Rows, b: Rows)
    requires BitmapGlyph(a).Some? && BitmapGlyph(b).Some?
    requires BitmapGlyph(a).value.0 == BitmapGlyph(b).value.0
    ensures a == b
  {
    hide BitmapGlyph, Bitmap;
    BitmapRoundTrip(a);
    BitmapRoundTrip(b);
  }

  // ---- Encoding, as the script does it ----

  method BitmapOutlineGlyph(rows: Rows) returns (r: Option<(Bytes, nat, nat)>)
    ensures r == BitmapGlyph(rows)
  {
    hide Rectangle, OutlineGlyph;
    if !ValidRows(rows) { return None; }
    CellsAreValid(rows);
    ghost var all := Cells(rows);
    var points, contourEnds := CollectPoints(rows);
    if points == [] {
      return Some((Zeros(12), 0, 0));
    }
    OutlineOnSheet(all);
    var glyph := WriteGlyph(points, contourEnds, all);
    r := Some((glyph, |points|, |contourEnds|));
  }

  predicate EndsOf(ends: seq<nat>, n: nat) { |ends| == n && forall k :: 0 <= k < n ==> ends[k] == 4 * k + 3 }

  lemma {:induction false} OutlineSnoc(cs: seq<Cell>, c: Cell)
    ensures Outline(cs + [c]) == Outline(cs) + Rectangle(c)
  {
    if cs == [] {
      assert [] + [c] == [c] && [c][1..] == [];
      assert Outline([c]) == Rectangle(c) + [];
    } else {
      OutlineSnoc(cs[1..], c);
      assert (cs + [c])[1..] == cs[1..] + [c];
      assert Rectangle(cs[0]) + (Outline(cs[1..]) + Rectangle(c)) == Outline(cs) + Rectangle(c);
    }
  }

  method CollectPoints(rows: Rows) returns (points: seq<Point>, contourEnds: seq<nat>)
    ensures points == Outline(Cells(rows)) && EndsOf(contourEnds, |Cells(rows)|)
  {
    hide Outline;
    points, contourEnds := [], [];
    ghost var seen: seq<Cell> := [];
    assert Outline([]) == [] by { NoOutline(); }
    for r := 0 to |rows|
      invariant seen + CellsFrom(rows, r) == Cells(rows)
      invariant points == Outline(seen) && EndsOf(contourEnds, |seen|)
    {
      ghost var before := seen;
      for c := 0 to |rows[r]|
        invariant seen + RowCells(rows[r], r, c) == before + RowCells(rows[r], r, 0)
        invariant points == Outline(seen) && EndsOf(contourEnds, |seen|)
      {
        if rows[r][c] == '0' {
          assert [] + RowCells(rows[r], r, c + 1) == RowCells(rows[r], r, c + 1);
          continue;
        }
        assert seen + ([Cell(r, c)] + RowCells(rows[r], r, c + 1)) == seen + [Cell(r, c)] + RowCells(rows[r], r, c + 1);
        OutlineSnoc(seen, Cell(r, c));
        seen := seen + [Cell(r, c)];
        var xMin := 50 + c * 100;
        var xMax := xMin + 80;
        var yMax := 700 - r * 100;
        var yMin := yMax - 80;
        points := points + [(xMin, yMin), (xMin, yMax), (xMax, yMax), (xMax, yMin)];
        contourEnds := contourEnds + [|points| - 1];
      }
      assert seen + [] == seen;
      assert before + (RowCells(rows[r], r, 0) + CellsFrom(rows, r + 1)) == seen + CellsFrom(rows, r + 1);
    }
    assert seen + [] == seen;
  }

  lemma {:induction false} NoOutline()
    ensures Outline([]) == []
  {
  }

  // The corner points and end points drawn for the cells `cs`, all on the coordinate sheet.
  predicate Drawn(points: seq<Point>, contourEnds: seq<nat>, cs: seq<Cell>) {
    points == Outline(cs) && EndsOf(contourEnds, |cs|) && OnSheet(Xs(points)) && OnSheet(Ys(points))
  }

  method WriteGlyph(points: seq<Point>, contourEnds: seq<nat>, ghost cs: seq<Cell>) returns (glyph: Bytes)
    requires cs != [] && ValidCells(cs) && |cs| < MAX_CELLS
    requires Drawn(points, contourEnds, cs)
    ensures glyph == OutlineGlyph(cs)
  {
    hide Outline, GlyphHeader, Be16;
    var xs, ys := Xs(points), Ys(points);
    glyph := GlyphHeader(|contourEnds|, xs, ys);
    ghost var head, n := glyph, |cs|;
    glyph := WriteEndPoints(glyph, contourEnds);
    glyph := glyph + Be16(0);
    glyph := glyph + OnCurveFlags(|points|);
    glyph := WriteDeltas(glyph, xs);
    glyph := WriteDeltas(glyph, ys);
    assert glyph == head + EndPoints(0, n) + Be16(0) + OnCurveFlags(4 * n) + Deltas(xs, 0) + Deltas(ys, 0);
    if |glyph| % 2 == 1 { glyph := glyph + [0]; }
  }

  // The last point of each contour, in order.
  method WriteEndPoints(start: Bytes, contourEnds: seq<nat>) returns (glyph: Bytes)
    requires EndsOf(contourEnds, |contourEnds|) && |contourEnds| < MAX_CELLS
    ensures glyph == start + EndPoints(0, |contourEnds|)
  {
    hide Be16;
    ghost var n := |contourEnds|;
    glyph := start;
    for k := 0 to |contourEnds|
      invariant glyph + EndPoints(k, n) == start + EndPoints(0, n)
    {
      assert glyph + (Be16(4 * k + 3) + EndPoints(k + 1, n)) == glyph + Be16(4 * k + 3) + EndPoints(k + 1, n);
      glyph := glyph + Be16(contourEnds[k]);
    }
    assert glyph + [] == glyph;
  }

  // The coordinate loop of the script: each value relative to the previous one.
  method WriteDeltas(start: Bytes, values: seq<int>) returns (glyph: Bytes)
    requires OnSheet(values)
    ensures glyph == start + Deltas(values, 0)
  {
    glyph := start;
    var previous := 0;
    assert values[0..] == values;
    for k := 0 to |values|
      invariant 0 <= previous <= 1000
      invariant glyph + Deltas(values[k..], previous) == start + Deltas(values, 0)
    {
      assert values[k..][0] == values[k] && values[k..][1..] == values[k + 1..];
      assert glyph + (Short(values[k] - previous) + Deltas(values[k + 1..], values[k]))
        == glyph + Short(values[k] - previous) + Deltas(values[k + 1..], values[k]);
      glyph := glyph + Short(values[k] - previous);
      previous := values[k];
    }
    assert glyph + [] == glyph;
  }
}
