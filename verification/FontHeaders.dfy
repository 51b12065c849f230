/**
 The numbers a font file carries beside its glyphs: the search fields of its header, the order of its directory, the
 largest counts in "maxp" and the advances in "hmtx" (OpenType, "Organization of an OpenType Font").
 */
module FontHeaders {
  import opened Wrappers
  import opened Pieces
  import opened Bytes
  import opened Sorting
  import opened Sfnt
  import opened SfntExact
  import opened SfntReader
  import opened Glyph
  import opened FontTables
  import opened FontRoundTrip
  import FontBinding

  // ---- The search fields ----

  function Pow2(n: nat): (p: nat)
    ensures p >= 1
  {
    if n == 0 then 1 else 2 * Pow2(n - 1)
  }

  lemma {:induction false} ExponentIs(p: nat)
    requires p > 0 && IsPower(p)
    ensures Pow2(Exponent(p)) == p
  {
    if p > 1 { ExponentIs(p / 2); }
  }

  // Version 1.0; sixteen times the largest power of two not above the table count, its exponent, and the rest.
  ghost predicate SearchFields(font: Bytes, n: nat) {
    && |font| >= 12 && GetBe32(font, 0) == 65536 && GetBe16(font, 4) == n
    && var range, selector, shift := GetBe16(font, 6), GetBe16(font, 8), GetBe16(font, 10);
      range == 16 * Pow2(selector) && range <= 16 * n < 2 * range && range + shift == 16 * n
  }

  lemma {:induction false} HeaderIsSearched(font: Bytes, n: nat)
    requires 0 < n < MAX_TABLES && Occurs(font, 0, Header(n))
    ensures SearchFields(font, n)
  {
    hide Occurs, Be16, Be32, GetBe16, GetBe32;
    PowersFit(n);
    MaxPowerIsPower(n);
    ExponentIs(MaxPower(n));
    var range, e := 16 * MaxPower(n), Exponent(MaxPower(n));
    var shift := 16 * n - range;
    OccursFits(font, 0, Header(n));
    Split(font, 0, Be32(0x0001_0000) + Be16(n) + Be16(range) + Be16(e), Be16(shift));
    Split(font, 0, Be32(0x0001_0000) + Be16(n) + Be16(range), Be16(e));
    Split(font, 0, Be32(0x0001_0000) + Be16(n), Be16(range));
    Split(font, 0, Be32(0x0001_0000), Be16(n));
    WordFrom(font, 0, 0x0001_0000);
    Get16From(font, 4, n);
    Get16From(font, 6, range);
    Get16From(font, 8, e);
    Get16From(font, 10, shift);
  }

  // Every assembled font has its search fields and a directory in strictly ascending order of tags.
  lemma {:induction false} HeaderAndOrder(tables: seq<Table>)
    requires ValidTables(tables) && Assemble(tables).Some?
    ensures var font := Assemble(tables).value;
      && SearchFields(font, |tables|) && 12 + 16 * |tables| <= |font|
      && forall j, k :: 0 <= j < k < |tables| ==> TagBefore(font, j, k)
  {
    hide Occurs, Header, Record, Checksum, Sort, ValidTables, Offset, LexLe, SearchFields, Patch, Unpatched, Adjustment;
    SortedTablesAreValid(tables);
    SortAscends(tables);
    var ts := Sort(tables);
    var font := Assemble(tables).value;
    RecordStandsThere(ts, 0);
    HeaderIsSearched(font, |ts|);
    forall k | 0 <= k < |ts| ensures 12 + 16 * k + 16 <= |font| && TagAt(font, 12 + 16 * k) == ts[k].key {
      RecordStandsThere(ts, k);
      TagsAreValid(ts, k);
      RecordFields(font, 12 + 16 * k, ts[k].key, Checksum(ts[k].value), Offset(ts, Base(|ts|), k), |ts[k].value|);
    }
    assert 12 + 16 * (|ts| - 1) + 16 <= |font|;
    forall j, k | 0 <= j < k < |ts| ensures TagBefore(font, j, k) {
      KeysDiffer(ts, j, k);
      LexLeMeans(ts[j].key, ts[k].key);
    }
  }

  lemma {:induction false} KeysDiffer(ts: seq<Table>, j: nat, k: nat)
    requires ValidTables(ts) && j < k < |ts|
    ensures ts[j].key != ts[k].key
  {
  }

  // The tag of record `j` is below that of record `k`: they differ first where it has the smaller byte.
  ghost predicate TagBefore(font: Bytes, j: int, k: int) {
    && 0 <= j && 0 <= k && 12 + 16 * j + 4 <= |font| && 12 + 16 * k + 4 <= |font|
    && Below(TagAt(font, 12 + 16 * j), TagAt(font, 12 + 16 * k))
  }

  // Twice the segments; twice the largest power of two not above their number, its exponent, and the rest.
  ghost predicate SegmentSearch(font: Bytes, subtable: nat) {
    && subtable + 14 <= |font|
    && var twice, range := GetBe16(font, subtable + 6), GetBe16(font, subtable + 8);
      && range == 2 * Pow2(GetBe16(font, subtable + 10)) && range <= twice < 2 * range
      && range + GetBe16(font, subtable + 12) == twice
  }

  // The subtable of a compiled map has its search fields.
  lemma {:induction false} CmapIsSearched(font: Bytes, at: nat, first: nat, last: nat)
    requires first <= last < 0xFFFF && Occurs(font, at, CmapTable(first, last))
    ensures SegmentSearch(font, at + 12)
  {
    hide GetBe16, Occurs, CmapTable;
    CmapWord(font, at, first, last, 9);
    CmapWord(font, at, first, last, 10);
    CmapWord(font, at, first, last, 11);
    CmapWord(font, at, first, last, 12);
    assert Pow2(1) == 2 * Pow2(0);
  }

  // ---- maxp and hmtx ----

  lemma {:induction false} TagsSpell()
    ensures CMAP == Ascii("cmap") && GLYF == Ascii("glyf") && HEAD == Ascii("head")
    ensures HMTX == Ascii("hmtx") && LOCA == Ascii("loca") && MAXP == Ascii("maxp")
  {
  }

  // The contours of glyph `k` as they are read back.
  function ContoursOf(gs: seq<Bytes>, k: nat): Option<seq<seq<Point>>>
    requires k < |gs|
  {
    DecodeGlyph(gs[k])
  }

  ghost predicate HasContours(gs: seq<Bytes>, k: int, n: int) {
    0 <= k < |gs| && ContoursOf(gs, k).Some? && |ContoursOf(gs, k).value| == n
  }

  ghost predicate LargestContours(gs: seq<Bytes>, n: nat) {
    (exists k :: HasContours(gs, k, n)) && forall k, m: int :: HasContours(gs, k, m) ==> m <= n
  }

  lemma {:induction false} LargestIsMet(rows: seq<Rows>)
    requires rows != [] && forall i :: 0 <= i < |rows| ==> ValidRows(rows[i])
    ensures exists i :: 0 <= i < |rows| && |Cells(rows[i])| == LargestCount(rows)
  {
    hide Cells, ValidRows;
    if |rows| == 1 {
      assert LargestCount(rows) == |Cells(rows[0])|;
    } else {
      LargestIsMet(rows[1..]);
      var i :| 0 <= i < |rows[1..]| && |Cells(rows[1..][i])| == LargestCount(rows[1..]);
      assert rows[1..][i] == rows[i + 1];
    }
  }

  lemma {:induction false} ContourCount(r: Rows)
    requires ValidRows(r)
    ensures DecodeGlyph(GlyphOf(r)).Some? && |DecodeGlyph(GlyphOf(r)).value| == |Cells(r)|
  {
    hide Cells, DecodeGlyph, GlyphOf;
    GlyphContours(r);
  }

  lemma {:induction false} LargestCountIs(first: nat, rows: seq<Rows>)
    requires ValidSource(first, rows)
    ensures forall i :: 0 <= i < |GlyphRows(rows)| ==> ValidRows(GlyphRows(rows)[i])
    ensures LargestContours(NarrativeGlyphs(first, rows), LargestCount(GlyphRows(rows)))
  {
    hide Cells, ValidRows, GlyphOf, DecodeGlyph, GlyphRows;
    AllRowsAreValid(first, rows);
    var all, gs := GlyphRows(rows), NarrativeGlyphs(first, rows);
    forall k | 0 <= k < |gs| ensures HasContours(gs, k, |Cells(all[k])|) { ContourCount(all[k]); }
    LargestIsMet(all);
    var i :| 0 <= i < |all| && |Cells(all[i])| == LargestCount(all);
    assert HasContours(gs, i, LargestCount(all));
  }

  // The table at `at` says how many glyphs there are, and the largest number of points and of contours in one.
  ghost predicate MaxpSays(font: Bytes, at: nat, gs: seq<Bytes>) {
    && Get16(font, at) == Some(1) && Get16(font, at + 2) == Some(0) && Get16(font, at + 4) == Some(|gs|)
    && exists n: nat :: LargestContours(gs, n) && Get16(font, at + 6) == Some(4 * n) && Get16(font, at + 8) == Some(n)
  }

  // Every glyph is 600 units wide; its bearing is 50, but none for the first character.
  predicate AdvancesAre(font: Bytes, at: nat, n: nat) {
    forall k :: 0 <= k < n ==>
      Get16(font, at + 4 * k) == Some(600) && Get16(font, at + 4 * k + 2) == Some(if k == 1 then 0 else 50)
  }

  lemma {:induction false} MaxpFrom(font: Bytes, at: nat, gs: seq<Bytes>, n: nat)
    requires |gs| < U16 && n <= 35 && LargestContours(gs, n) && Occurs(font, at, MaxpTable(|gs|, n))
    ensures MaxpSays(font, at, gs)
  {
    hide Occurs, GetBe16, Words, LargestContours;
    var ws := MaxpWords(|gs|, 4 * n, n);
    HeldWord(font, at, ws, 0);
    HeldWord(font, at, ws, 1);
    HeldWord(font, at, ws, 2);
    HeldWord(font, at, ws, 3);
    HeldWord(font, at, ws, 4);
  }

  function MaxpOf(first: nat, rows: seq<Rows>): Table
    requires ValidSource(first, rows)
  {
    AllRowsAreValid(first, rows);
    Keyed(MAXP, MaxpTable(|rows| + 1, LargestCount(GlyphRows(rows))))
  }

  lemma {:induction false} MaxpIsListed(first: nat, rows: seq<Rows>, others: seq<Table>)
    requires ValidSource(first, rows)
    ensures MaxpOf(first, rows) in NarrativeTables(first, rows, others)
  {
    hide HeadTable, LocaTable, MaxpTable, CmapTable, Metrics, Glyf, NarrativeGlyphs, ValidSource, Words, GlyphRows;
    hide ValidRows, LargestCount;
    assert NarrativeTables(first, rows, others)[5] == MaxpOf(first, rows);
  }

  // In a compiled font "maxp" holds the glyph count and the largest counts of points and contours of its glyphs.
  lemma {:induction false} MaxpIsLargest(first: nat, rows: seq<Rows>, others: seq<Table>)
    requires Compiles(first, rows, others)
    ensures ValidSource(first, rows)
    ensures var font := TtfOf(first, rows, others);
      && ReadDirectory(font).Some? && MAXP in RecordsOf(font)
      && MaxpSays(font, RecordsOf(font)[MAXP].offset, NarrativeGlyphs(first, rows))
  {
    hide ReadDirectory, Occurs, NarrativeTtf, ValidTables, TtfOf, MaxpTable, LargestCount, GlyphRows, MaxpSays;
    hide NarrativeTables, ValidRows, LargestContours, Compiles;
    CompilesMeans(first, rows, others);
    MaxpIsListed(first, rows, others);
    LargestCountIs(first, rows);
    var font, n := TtfOf(first, rows, others), LargestCount(GlyphRows(rows));
    TableIsHeld(first, rows, others, MaxpOf(first, rows));
    MaxpFrom(font, RecordsOf(font)[MAXP].offset, NarrativeGlyphs(first, rows), n);
  }

  // In a compiled font "hmtx" holds the advances.
  lemma {:induction false} HmtxIsAdvances(first: nat, rows: seq<Rows>, others: seq<Table>)
    requires Compiles(first, rows, others)
    ensures var font := TtfOf(first, rows, others);
      && ReadDirectory(font).Some? && HMTX in RecordsOf(font)
      && AdvancesAre(font, RecordsOf(font)[HMTX].offset, |rows| + 1)
  {
    hide ReadDirectory, TtfOf, Compiles, Get16;
    FontBinding.MetricsHeld(first, rows, others);
    var font, at := TtfOf(first, rows, others), RecordsOf(TtfOf(first, rows, others))[HMTX].offset;
    forall k | 0 <= k < |rows| + 1
      ensures Get16(font, at + 4 * k) == Some(600) && Get16(font, at + 4 * k + 2) == Some(if k == 1 then 0 else 50)
    {
      assert FontBinding.MetricsMatch(font, at, k);
    }
  }

  // ---- head ----

  // The signed word at place `i` of a table.
  function WordOf(table: Bytes, i: nat): int
    requires 2 * i + 2 <= |table|
  {
    FromSigned16(GetBe16(table, 2 * i))
  }

  lemma {:induction false} HeadNumbers(table: Bytes)
    requires |table| == 54 && table == HeadTable()
    ensures WordOf(table, 18) == 0 && WordOf(table, 19) == 0 && WordOf(table, 20) == 530 && WordOf(table, 21) == 700
    ensures GetBe32(table, 0) == 0x00010000 && GetBe32(table, 12) == 0x5F0F3CF5 && WordOf(table, 9) == 1000
  {
    hide GetBe16, GetBe32, Words, HeadWords;
    WordAt(HeadWords(), 0);
    WordAt(HeadWords(), 1);
    WordAt(HeadWords(), 6);
    WordAt(HeadWords(), 7);
    WordAt(HeadWords(), 9);
    WordAt(HeadWords(), 18);
    WordAt(HeadWords(), 19);
    WordAt(HeadWords(), 20);
    WordAt(HeadWords(), 21);
    TwoWords(table, 0);
    TwoWords(table, 12);
    HeadValues();
  }

  lemma {:induction false} HeadValues()
    ensures var w := HeadWords();
      && w[0] == 1 && w[1] == 0 && w[6] == 0x5F0F && w[7] == 0x3CF5 && w[9] == 1000
      && w[18] == 0 && w[19] == 0 && w[20] == 530 && w[21] == 700
  {
  }

  predicate InHeadBox(table: Bytes, p: Point)
    requires |table| == 54
  {
    WordOf(table, 18) <= p.0 <= WordOf(table, 20) && WordOf(table, 19) <= p.1 <= WordOf(table, 21)
  }

  // The box in "head" holds every point of every glyph.
  lemma {:induction false} HeadBoxHolds(r: Rows, k: nat, i: nat)
    requires ValidRows(r) && DecodeGlyph(GlyphOf(r)).Some? && k < |DecodeGlyph(GlyphOf(r)).value|
    requires i < |DecodeGlyph(GlyphOf(r)).value[k]|
    ensures InHeadBox(HeadTable(), DecodeGlyph(GlyphOf(r)).value[k][i])
  {
    hide Cells, OutlineGlyph, DecodeGlyph, WordOf, HeadTable;
    HeadNumbers(HeadTable());
    CellsAreValid(r);
    GlyphContours(r);
    var cs := Cells(r);
    assert cs[k] in cs && ValidCell(cs[k]);
  }

  lemma {:induction false} GlyphContours(r: Rows)
    requires ValidRows(r)
    ensures DecodeGlyph(GlyphOf(r)) == Some(Rectangles(Cells(r)))
  {
    hide Cells, OutlineGlyph, Rectangles;
    CellsAreValid(r);
    if Cells(r) == [] {
      RectanglesOfNothing();
      assert GetBe16(Zeros(12), 0) == 0;
    } else {
      DecodesOutline(Cells(r));
    }
  }
}
