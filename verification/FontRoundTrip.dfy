/**
 Compiling bitmaps to a font preserves meaning: reading any code point of the run back through the
 directory, the cmap, the loca slice and the contours gives its bitmap.
 */
module FontRoundTrip {
  import opened Wrappers
  import opened Pieces
  import opened Bytes
  import opened Sorting
  import opened Sfnt
  import opened SfntExact
  import opened SfntReader
  import opened Glyph
  import opened FontTables

  // ---- Tables as the reader finds them ----

  // A run whose font can be assembled: the other tables clash with none of ours and everything fits.
  ghost predicate Compiles(first: nat, rows: seq<Rows>, others: seq<Table>) {
    && ValidSource(first, rows)
    && ValidTables(NarrativeTables(first, rows, others))
    && (SortedTablesAreValid(NarrativeTables(first, rows, others));
      Assembles(Sort(NarrativeTables(first, rows, others))))
  }

  function TtfOf(first: nat, rows: seq<Rows>, others: seq<Table>): Bytes
    requires Compiles(first, rows, others)
  {
    NarrativeTtf(first, rows, others).value
  }

  function RecordsOf(font: Bytes): Records
    requires ReadDirectory(font).Some?
  {
    ReadDirectory(font).value
  }

  // Table `tag` stands in the font with bytes `data`.
  ghost predicate Holds(font: Bytes, tag: Key, data: Bytes) {
    && ReadDirectory(font).Some? && tag in RecordsOf(font)
    && Occurs(font, RecordsOf(font)[tag].offset, data)
  }

  lemma {:induction false} SortedIndex(ts: seq<Table>, t: Table) returns (k: nat)
    requires ValidTables(ts) && t in ts
    ensures ValidTables(Sort(ts)) && k < |Sort(ts)| && Sort(ts)[k] == t
  {
    SortedTablesAreValid(ts);
    SameElements(ts, t);
    k :| 0 <= k < |Sort(ts)| && Sort(ts)[k] == t;
  }

  lemma {:induction false} FindsTag(ts: seq<Table>, k: nat)
    requires ValidTables(ts) && k < |ts|
    ensures FindTag(ts, ts[k].key) == Some(k)
  {
  }

  lemma {:induction false} HeadWordIsZero()
    ensures GetBe32(HeadTable(), 8) == 0 && GetBe16(HeadTable(), 50) == 1
  {
    hide Be16, GetBe16, GetBe32, Words, HeadWords;
    WordAt(HeadWords(), 4);
    WordAt(HeadWords(), 5);
    WordAt(HeadWords(), 25);
    TwoWords(HeadTable(), 8);
  }

  lemma {:induction false} TwoWords(s: Bytes, p: nat)
    requires p + 4 <= |s|
    ensures GetBe32(s, p) == U16 * GetBe16(s, p) + GetBe16(s, p + 2)
  {
  }

  lemma {:induction false} WordAt(ws: seq<nat>, i: nat)
    requires AreWords(ws) && i < |ws|
    ensures GetBe16(Words(ws), 2 * i) == ws[i]
    decreases i
  {
    if i > 0 {
      WordAt(ws[1..], i - 1);
      var s, rest := Words(ws), Words(ws[1..]);
      assert s[2 * i] == rest[2 * (i - 1)] && s[2 * i + 1] == rest[2 * (i - 1) + 1];
    }
  }

  // In a compiled font the sorted tables are assembled and the head word is clear.
  lemma {:induction false} CompiledIsAssembled(first: nat, rows: seq<Rows>, others: seq<Table>)
    requires Compiles(first, rows, others)
    ensures var ts := Sort(NarrativeTables(first, rows, others));
      Assembled(ts) && HeadWord(ts) == 0 && TtfOf(first, rows, others) == Font(ts)
  {
    hide AssembleSorted, Sort, HeadTable, LocaTable, MaxpTable, CmapTable, Metrics, Glyf, NarrativeGlyphs;
    hide ValidTables, ValidSource, GetBe32;
    var all := NarrativeTables(first, rows, others);
    HeadIsListed(first, rows, others);
    var k := SortedIndex(all, Keyed(HEAD, HeadTable()));
    FindsTag(Sort(all), k);
    HeadWordIsZero();
  }

  // Any table of ours stands in the file at the place its record gives; the head table up to its
  // adjustment word.
  lemma {:induction false} TableIsHeld(first: nat, rows: seq<Rows>, others: seq<Table>, t: Table)
    requires Compiles(first, rows, others) && t in NarrativeTables(first, rows, others) && t.key != HEAD
    ensures Holds(TtfOf(first, rows, others), t.key, t.value)
    ensures ReadDirectory(TtfOf(first, rows, others)).Some?
    ensures RecordsOf(TtfOf(first, rows, others))[t.key].length == |t.value|
  {
    hide AssembleSorted, Sort, NarrativeTables, ReadDirectory, ValidTables, Checksum, Occurs;
    var all := NarrativeTables(first, rows, others);
    CompiledIsAssembled(first, rows, others);
    var ts := Sort(all);
    var k := SortedIndex(all, t);
    DirectoryReadsBack(ts);
    assert ReadsBack(ts, RecordsOf(Font(ts)), k);
    var e := RecordsOf(Font(ts))[t.key];
    assert Stored(ts, k) == t.value;
    SliceLength(Font(ts), e.offset, e.length, t.value);
    SliceOccurs(Font(ts), e.offset, e.length, t.value);
  }

  lemma {:induction false} SliceLength(font: Bytes, i: nat, n: nat, s: Bytes)
    requires i + n <= |font| && font[i..i + n] == s
    ensures n == |s|
  {
  }

  lemma {:induction false} SliceOccurs(font: Bytes, i: nat, n: nat, s: Bytes)
    requires i + n <= |font| && font[i..i + n] == s
    ensures Occurs(font, i, s)
  {
    forall k | 0 <= k < |s| ensures font[i + k] == s[k] { assert font[i..i + n][k] == s[k]; }
  }

  lemma {:induction false} HeadIsHeld(first: nat, rows: seq<Rows>, others: seq<Table>)
    requires Compiles(first, rows, others)
    ensures var font := TtfOf(first, rows, others);
      ReadDirectory(font).Some? && HEAD in RecordsOf(font) && Get16(font, RecordsOf(font)[HEAD].offset + 50) == Some(1)
  {
    hide AssembleSorted, Sort, ReadDirectory, ValidTables, NarrativeTables, Font, Compiles, HeadWord, HasHead;
    hide HeadTable, Get16, TtfOf, ValidSource, Assembled;
    CompilesMeans(first, rows, others);
    CompiledIsAssembled(first, rows, others);
    var all := NarrativeTables(first, rows, others);
    HeadIsListed(first, rows, others);
    var k := SortedIndex(all, Keyed(HEAD, HeadTable()));
    HeadHeldAt(Sort(all), k);
  }

  lemma {:induction false} CompilesMeans(first: nat, rows: seq<Rows>, others: seq<Table>)
    requires Compiles(first, rows, others)
    ensures ValidSource(first, rows) && ValidTables(NarrativeTables(first, rows, others))
  {
  }

  lemma {:induction false} HeadIsListed(first: nat, rows: seq<Rows>, others: seq<Table>)
    requires ValidSource(first, rows)
    ensures Keyed(HEAD, HeadTable()) in NarrativeTables(first, rows, others)
  {
    hide HeadTable, LocaTable, MaxpTable, CmapTable, Metrics, Glyf, NarrativeGlyphs, ValidSource;
    assert NarrativeTables(first, rows, others)[2] == Keyed(HEAD, HeadTable());
  }

  lemma {:induction false} HeadHeldAt(ts: seq<Table>, k: nat)
    requires Assembled(ts) && HeadWord(ts) == 0 && k < |ts| && ts[k] == Keyed(HEAD, HeadTable())
    ensures ReadDirectory(Font(ts)).Some? && HEAD in RecordsOf(Font(ts))
    ensures Get16(Font(ts), RecordsOf(Font(ts))[HEAD].offset + 50) == Some(1)
  {
    hide AssembleSorted, ReadDirectory, ValidTables, Checksum, Occurs, GetBe16, GetBe32, HeadTable, Stored;
    DirectoryReadsBack(ts);
    assert ReadsBack(ts, RecordsOf(Font(ts)), k);
    var e := RecordsOf(Font(ts))[HEAD];
    SliceLength(Font(ts), e.offset, e.length, Stored(ts, k));
    SliceOccurs(Font(ts), e.offset, e.length, Stored(ts, k));
    StoredHead(ts, k);
    Word16Inside(Font(ts), e.offset, Stored(ts, k), 50);
  }

  lemma {:induction false} StoredHead(ts: seq<Table>, k: nat)
    requires Assembled(ts) && k < |ts| && ts[k] == Keyed(HEAD, HeadTable())
    ensures |Stored(ts, k)| == 54 && GetBe16(Stored(ts, k), 50) == 1
  {
    hide ValidTables, Checksum, Occurs, GetBe16, GetBe32, HeadTable, Patch, Unpatched;
    HeadIs(ts, k);
    PatchKeeps(HeadTable(), Adjustment(Unpatched(ts)));
    HeadWordIsZero();
  }

  lemma {:induction false} PatchKeeps(s: Bytes, v: nat)
    requires |s| == 54 && v < U32
    ensures GetBe16(Patch(s, 8, v), 50) == GetBe16(s, 50)
  {
  }

  lemma {:induction false} Word16Inside(text: Bytes, i: nat, s: Bytes, p: nat)
    requires Occurs(text, i, s) && p + 2 <= |s|
    ensures i + p + 2 <= |text| && GetBe16(text, i + p) == GetBe16(s, p)
  {
    assert text[i + p] == s[p] && text[i + (p + 1)] == s[p + 1];
  }

  lemma {:induction false} HeldWord(font: Bytes, at: nat, ws: seq<nat>, i: nat)
    requires AreWords(ws) && i < |ws| && Occurs(font, at, Words(ws))
    ensures at + 2 * i + 2 <= |font| && GetBe16(font, at + 2 * i) == ws[i]
  {
    hide Words, GetBe16, Occurs;
    Word16Inside(font, at, Words(ws), 2 * i);
    WordAt(ws, i);
  }

  // ---- cmap ----

  lemma {:induction false} CmapWord(font: Bytes, at: nat, first: nat, last: nat, i: nat)
    requires first <= last < 0xFFFF && Occurs(font, at, CmapTable(first, last)) && i < 22
    ensures at + 44 <= |font| && GetBe16(font, at + 2 * i) == CmapWords(first, last)[i]
  {
    hide GetBe16, Occurs, Words, CmapWords;
    HeldWord(font, at, CmapWords(first, last), 21);
    HeldWord(font, at, CmapWords(first, last), i);
  }

  lemma {:induction false} CmapHeader(font: Bytes, at: nat, first: nat, last: nat)
    requires first <= last < 0xFFFF && Occurs(font, at, CmapTable(first, last))
    ensures at + 44 <= |font| && GetBe16(font, at + 2) == 1
    ensures GetBe16(font, at + 4) == 3 && GetBe16(font, at + 6) == 1 && GetBe32(font, at + 8) == 12
  {
    hide GetBe16, GetBe32, Occurs, CmapTable;
    CmapWord(font, at, first, last, 1);
    CmapWord(font, at, first, last, 2);
    CmapWord(font, at, first, last, 3);
    CmapWord(font, at, first, last, 4);
    CmapWord(font, at, first, last, 5);
    TwoWords(font, at + 8);
  }

  lemma {:induction false} SubtableFound(font: Bytes, at: nat, first: nat, last: nat)
    requires first <= last < 0xFFFF && Occurs(font, at, CmapTable(first, last))
    ensures at + 44 <= |font| && GetBe16(font, at + 2) == 1
    ensures FindSubtable(font, at, 0, 1) == Some(at + 12)
    ensures SegmentsOf(font, at + 12) == Some(Segments(2, at + 26, at + 32, at + 36, at + 40))
  {
    hide GetBe16, GetBe32, Occurs, CmapTable;
    CmapHeader(font, at, first, last);
    CmapWord(font, at, first, last, 6);
    CmapWord(font, at, first, last, 7);
    CmapWord(font, at, first, last, 9);
  }

  lemma {:induction false} SegmentWords(font: Bytes, at: nat, first: nat, last: nat)
    requires first <= last < 0xFFFF && Occurs(font, at, CmapTable(first, last))
    ensures at + 44 <= |font|
    ensures GetBe16(font, at + 26) == last && GetBe16(font, at + 28) == 0xFFFF
    ensures GetBe16(font, at + 32) == first && GetBe16(font, at + 34) == 0xFFFF
    ensures GetBe16(font, at + 36) == Delta(first) && GetBe16(font, at + 40) == 0
  {
    hide GetBe16, Occurs, CmapTable;
    CmapWord(font, at, first, last, 13);
    CmapWord(font, at, first, last, 14);
    CmapWord(font, at, first, last, 16);
    CmapWord(font, at, first, last, 17);
    CmapWord(font, at, first, last, 18);
    CmapWord(font, at, first, last, 20);
  }

  // Glyph indices in the order of the code points, starting at 1.
  function RunMapping(first: nat, n: nat): (m: Mapping)
    ensures forall c :: c in m <==> first <= c < first + n
    ensures forall c :: c in m ==> m[c] == c - first + 1
  {
    map c: nat | first <= c < first + n && InRun(first, c) :: c - first + 1
  }

  predicate InRun(first: nat, c: nat) { first <= c }

  lemma {:induction false} DeltaMaps(first: nat, code: nat)
    requires first <= code < 0xFFFF
    ensures (code + Delta(first)) % U16 == code - first + 1
  {
  }

  lemma {:induction false} RangeMaps(font: Bytes, s: Segments, first: nat, code: nat, last: nat)
    requires InFont(s, font) && s.count == 2 && first <= code <= last + 1 <= 0xFFFF
    requires GetBe16(font, s.deltas) == Delta(first) && GetBe16(font, s.ranges) == 0
    ensures MapRange(font, s, 0, code, first, last, RunMapping(first, code - first))
      == Some(RunMapping(first, last + 1 - first))
    decreases last + 1 - code
  {
    hide GetBe16;
    if code <= last {
      DeltaMaps(first, code);
      assert RunMapping(first, code - first)[code := code - first + 1] == RunMapping(first, code + 1 - first);
      RangeMaps(font, s, first, code + 1, last);
    }
  }

  lemma {:induction false} CmapMaps(font: Bytes, records: Records, first: nat, last: nat)
    requires first <= last < 0xFFFF && CMAP in records && Occurs(font, records[CMAP].offset, CmapTable(first, last))
    ensures Format4Mapping(font, records) == Some(RunMapping(first, last + 1 - first))
  {
    hide GetBe16, Occurs, CmapTable, SegmentsOf, FindSubtable, MapRange;
    var at := records[CMAP].offset;
    SubtableFound(font, at, first, last);
    SegmentWords(font, at, first, last);
    var s := Segments(2, at + 26, at + 32, at + 36, at + 40);
    RangeMaps(font, s, first, first, last);
    EmptyRun(first);
    assert MapSegments(font, s, 1, RunMapping(first, last + 1 - first)) == Some(RunMapping(first, last + 1 - first));
  }

  lemma {:induction false} EmptyRun(first: nat)
    ensures RunMapping(first, 0) == map[]
  {
  }

  // ---- loca and glyf ----

  lemma {:induction false} LongWordAt(vs: seq<nat>, k: nat)
    requires (forall i :: 0 <= i < |vs| ==> vs[i] < U32) && k < |vs|
    ensures Occurs(LongWords(vs), 4 * k, Be32(vs[k]))
    decreases k
  {
    hide Occurs, Be32;
    AllOf(LongWords(vs));
    Split(LongWords(vs), 0, Be32(vs[0]), LongWords(vs[1..]));
    if k > 0 {
      LongWordAt(vs[1..], k - 1);
      Inside(LongWords(vs), 4, LongWords(vs[1..]), 4 * (k - 1), Be32(vs[k]));
    }
  }

  lemma {:induction false} LocaRead(font: Bytes, at: nat, gs: seq<Bytes>, k: nat)
    requires SmallGlyphs(gs) && k <= |gs| && Occurs(font, at, LocaTable(gs))
    ensures at + 4 * (|gs| + 1) <= |font| && GetBe32(font, at + 4 * k) == GlyphOffset(gs, k)
  {
    hide Occurs, Be32, GetBe32, GlyphOffset, LongWords;
    OffsetsFit(gs);
    OccursFits(font, at, LocaTable(gs));
    LongWordAt(Offsets(gs), k);
    Inside(font, at, LocaTable(gs), 4 * k, Be32(Offsets(gs)[k]));
    WordFrom(font, at + 4 * k, Offsets(gs)[k]);
  }

  lemma {:induction false} LocaReads(font: Bytes, records: Records, gs: seq<Bytes>)
    requires SmallGlyphs(gs) && HEAD in records && LOCA in records
    requires Get16(font, records[HEAD].offset + 50) == Some(1) && Occurs(font, records[LOCA].offset, LocaTable(gs))
    ensures LocaOffsets(font, records, |gs|) == Some(Offsets(gs))
  {
    hide Occurs, GetBe32, GlyphOffset, LocaTable;
    var at := records[LOCA].offset;
    LocaRead(font, at, gs, 0);
    var read := LocaOffsets(font, records, |gs|).value;
    assert |read| == |Offsets(gs)|;
    forall k | 0 <= k <= |gs| ensures read[k] == Offsets(gs)[k] { LocaRead(font, at, gs, k); }
    assert read == Offsets(gs);
  }

  lemma {:induction false} GlyphStands(gs: seq<Bytes>, k: nat)
    requires k < |gs|
    ensures Occurs(Glyf(gs), GlyphOffset(gs, k), gs[k])
    ensures GlyphOffset(gs, k + 1) == GlyphOffset(gs, k) + |gs[k]|
    decreases k
  {
    hide Occurs;
    AllOf(Glyf(gs));
    Split(Glyf(gs), 0, gs[0], Glyf(gs[1..]));
    if k > 0 {
      GlyphStands(gs[1..], k - 1);
      Inside(Glyf(gs), |gs[0]|, Glyf(gs[1..]), GlyphOffset(gs[1..], k - 1), gs[k]);
    }
  }

  lemma {:induction false} GlyphSliced(font: Bytes, records: Records, gs: seq<Bytes>, k: nat)
    requires k < |gs| && GLYF in records && Occurs(font, records[GLYF].offset, Glyf(gs))
    ensures GlyphSlice(font, records, Offsets(gs), k) == Some(gs[k])
  {
    hide Occurs, Glyf, GlyphOffset;
    GlyphStands(gs, k);
    var at := records[GLYF].offset + GlyphOffset(gs, k);
    Inside(font, records[GLYF].offset, Glyf(gs), GlyphOffset(gs, k), gs[k]);
    SliceThere(font, at, gs[k]);
  }

  // ---- The theorem ----

  lemma {:induction false} GlyphCountRead(font: Bytes, records: Records, n: nat, contours: nat)
    requires n < U16 && contours <= 35 && MAXP in records
    requires Occurs(font, records[MAXP].offset, MaxpTable(n, contours))
    ensures GlyphCount(font, records) == Some(n)
  {
    hide Occurs, GetBe16, Words;
    HeldWord(font, records[MAXP].offset, MaxpWords(n, 4 * contours, contours), 2);
  }

  // Every reader succeeds on `font`, with exactly these glyphs for the run starting at `first`.
  predicate Reads(font: Bytes, first: nat, gs: seq<Bytes>) {
    && |gs| > 0 && ReadDirectory(font).Some?
    && var records := RecordsOf(font);
      && GlyphCount(font, records) == Some(|gs|)
      && Format4Mapping(font, records) == Some(RunMapping(first, |gs| - 1))
      && LocaOffsets(font, records, |gs|) == Some(Offsets(gs))
      && forall k :: 0 <= k < |gs| ==> GlyphSlice(font, records, Offsets(gs), k) == Some(gs[k])
  }

  // The tables the readers open, as they stand in the font.
  ghost predicate HoldsAll(font: Bytes, first: nat, last: nat, gs: seq<Bytes>, contours: nat)
    requires first <= last < 0xFFFF && SmallGlyphs(gs) && contours <= 35
  {
    && Holds(font, CMAP, CmapTable(first, last)) && Holds(font, GLYF, Glyf(gs))
    && Holds(font, LOCA, LocaTable(gs)) && Holds(font, MAXP, MaxpTable(|gs|, contours))
    && HEAD in RecordsOf(font) && Get16(font, RecordsOf(font)[HEAD].offset + 50) == Some(1)
  }

  lemma {:induction false} CompiledHoldsAll(first: nat, rows: seq<Rows>, others: seq<Table>)
    requires Compiles(first, rows, others)
    ensures forall i :: 0 <= i < |GlyphRows(rows)| ==> ValidRows(GlyphRows(rows)[i])
    ensures HoldsAll(TtfOf(first, rows, others), first, first + |rows| - 1, NarrativeGlyphs(first, rows),
                     LargestCount(GlyphRows(rows)))
  {
    hide ReadDirectory, CmapTable, HeadTable, LocaTable, MaxpTable, Glyf, Metrics, NarrativeGlyphs, Get16, Holds;
    hide LargestCount, ValidTables, NarrativeTtf, GlyphRows, ValidRows;
    AllRowsAreValid(first, rows);
    var gs, contours := NarrativeGlyphs(first, rows), LargestCount(GlyphRows(rows));
    var ts := TablesOf(first, first + |rows| - 1, gs, contours, others);
    assert ts[0] == Keyed(CMAP, CmapTable(first, first + |rows| - 1)) && ts[1] == Keyed(GLYF, Glyf(gs));
    assert ts[4] == Keyed(LOCA, LocaTable(gs)) && ts[5] == Keyed(MAXP, MaxpTable(|gs|, contours));
    TableIsHeld(first, rows, others, ts[0]);
    TableIsHeld(first, rows, others, ts[1]);
    TableIsHeld(first, rows, others, ts[4]);
    TableIsHeld(first, rows, others, ts[5]);
    HeadIsHeld(first, rows, others);
  }

  lemma {:induction false} HeldTablesRead(font: Bytes, first: nat, last: nat, gs: seq<Bytes>, contours: nat)
    requires first <= last < 0xFFFF && SmallGlyphs(gs) && contours <= 35 && |gs| == last - first + 2
    requires HoldsAll(font, first, last, gs, contours)
    ensures Reads(font, first, gs)
  {
    hide ReadDirectory, Format4Mapping, LocaOffsets, GlyphSlice, GlyphCount, Occurs, RunMapping, Offsets, Get16;
    hide CmapTable, LocaTable, MaxpTable, Glyf;
    var records := RecordsOf(font);
    GlyphCountRead(font, records, |gs|, contours);
    CmapMaps(font, records, first, last);
    LocaReads(font, records, gs);
    forall k | 0 <= k < |gs| ensures GlyphSlice(font, records, Offsets(gs), k) == Some(gs[k]) {
      GlyphSliced(font, records, gs, k);
    }
  }

  lemma {:induction false} FontReads(first: nat, rows: seq<Rows>, others: seq<Table>)
    requires Compiles(first, rows, others)
    ensures Reads(TtfOf(first, rows, others), first, NarrativeGlyphs(first, rows))
  {
    hide HoldsAll, Reads, NarrativeGlyphs, LargestCount, ValidTables, NarrativeTtf, GlyphRows, ValidRows;
    CompiledHoldsAll(first, rows, others);
    HeldTablesRead(TtfOf(first, rows, others), first, first + |rows| - 1, NarrativeGlyphs(first, rows),
                   LargestCount(GlyphRows(rows)));
  }

  lemma {:induction false} CharacterRead(font: Bytes, first: nat, gs: seq<Bytes>, i: nat)
    requires Reads(font, first, gs) && i + 1 < |gs|
    ensures ReadCharacter(font, first + i) == Bitmap(gs[i + 1])
  {
    hide ReadDirectory, Format4Mapping, LocaOffsets, GlyphSlice, GlyphCount, Offsets, Bitmap;
    assert first + i in RunMapping(first, |gs| - 1);
  }

  // Reading a code point of the run through the whole font gives back its bitmap.
  lemma {:induction false} CharacterRoundTrip(first: nat, rows: seq<Rows>, others: seq<Table>, i: nat)
    requires Compiles(first, rows, others) && i < |rows|
    ensures ReadCharacter(TtfOf(first, rows, others), first + i) == Some(rows[i])
  {
    hide Reads, ReadCharacter, Bitmap, NarrativeTtf, ValidTables, TtfOf;
    FontReads(first, rows, others);
    CharacterRead(TtfOf(first, rows, others), first, NarrativeGlyphs(first, rows), i);
    RunGlyph(first, rows, i);
  }

  lemma {:induction false} RunGlyph(first: nat, rows: seq<Rows>, i: nat)
    requires ValidSource(first, rows) && i < |rows|
    ensures Bitmap(NarrativeGlyphs(first, rows)[i + 1]) == Some(rows[i])
  {
    hide Bitmap, GlyphOf, ValidRows;
    AllRowsAreValid(first, rows);
    assert GlyphRows(rows)[i + 1] == rows[i];
    GlyphRead(rows[i]);
  }

  lemma {:induction false} GlyphRead(r: Rows)
    requires ValidRows(r)
    ensures Bitmap(GlyphOf(r)) == Some(r)
  {
    hide Bitmap, Cells, OutlineGlyph;
    BitmapRoundTrip(r);
  }

  lemma {:induction false} RunIsRead(font: Bytes, first: nat, gs: seq<Bytes>, other: nat, hs: seq<Bytes>)
    requires Reads(font, first, gs) && Reads(font, other, hs) && |gs| > 1
    ensures |gs| == |hs| && first == other
  {
    hide ReadDirectory, Format4Mapping, LocaOffsets, GlyphSlice, GlyphCount, Offsets;
    var m := RunMapping(first, |gs| - 1);
    assert m == RunMapping(other, |hs| - 1);
    assert first in m && other in m;
  }

  lemma {:induction false} SameRun(first: nat, a: seq<Rows>, others: seq<Table>, second: nat, b: seq<Rows>,
        more: seq<Table>)
    requires Compiles(first, a, others) && Compiles(second, b, more)
    requires TtfOf(first, a, others) == TtfOf(second, b, more)
    ensures |a| == |b| && first == second
  {
    hide Reads, NarrativeTtf, ValidTables;
    FontReads(first, a, others);
    FontReads(second, b, more);
    RunIsRead(TtfOf(first, a, others), first, NarrativeGlyphs(first, a), second, NarrativeGlyphs(second, b));
  }

  // So a font determines its run of code points and their bitmaps, whatever other tables it carries.
  lemma {:induction false} FontsAreDistinct(first: nat, a: seq<Rows>, others: seq<Table>, second: nat, b: seq<Rows>,
        more: seq<Table>)
    requires Compiles(first, a, others) && Compiles(second, b, more)
    requires TtfOf(first, a, others) == TtfOf(second, b, more)
    ensures first == second && a == b
  {
    hide Compiles, ReadCharacter, TtfOf;
    SameRun(first, a, others, second, b, more);
    forall i | 0 <= i < |a| ensures a[i] == b[i] {
      CharacterRoundTrip(first, a, others, i);
      CharacterRoundTrip(second, b, more, i);
    }
  }

  // ---- When a font compiles ----

  const LARGEST_TABLE := 0x0400_0000

  predicate SmallTables(ts: seq<Table>) {
    |ts| <= 16 && forall i :: 0 <= i < |ts| ==> |ts[i].value| <= LARGEST_TABLE
  }

  lemma {:induction false} SmallTablesFit(ts: seq<Table>, base: nat)
    requires |ts| <= 16 && forall i :: 0 <= i < |ts| ==> |ts[i].value| <= LARGEST_TABLE
    requires base + |ts| * (LARGEST_TABLE + 4) < U32
    ensures Fits(ts, base)
    decreases |ts|
  {
    hide Aligned;
    if ts != [] {
      SmallTablesFit(ts[1..], base + |Aligned(ts[0].value)|);
    }
  }

  lemma {:induction false} SortKeepsSmall(ts: seq<Table>)
    requires SmallTables(ts)
    ensures SmallTables(Sort(ts))
  {
    hide Sort;
    forall i | 0 <= i < |Sort(ts)| ensures |Sort(ts)[i].value| <= LARGEST_TABLE {
      SameElements(ts, Sort(ts)[i]);
    }
  }

  lemma {:induction false} GlyfBound(gs: seq<Bytes>)
    requires forall i :: 0 <= i < |gs| ==> |gs[i]| <= 782
    ensures |Glyf(gs)| <= 782 * |gs|
  {
    if gs != [] { GlyfBound(gs[1..]); }
  }

  lemma {:induction false} OwnTablesAreSmall(first: nat, last: nat, gs: seq<Bytes>, contours: nat, others: seq<Table>)
    requires first <= last < 0xFFFF && SmallGlyphs(gs) && contours <= 35
    requires |others| <= 10 && SmallTables(others)
    ensures SmallTables(TablesOf(first, last, gs, contours, others))
  {
    hide CmapTable, HeadTable, LocaTable, MaxpTable, Glyf, Words, Metrics;
    GlyfBound(gs);
    var ts := TablesOf(first, last, gs, contours, others);
    forall i | 0 <= i < |ts| ensures |ts[i].value| <= LARGEST_TABLE {
      if i >= 6 { assert ts[i] == others[i - 6]; }
    }
  }

  // Any run of valid bitmaps compiles, whatever the unread tables hold, as long as their tags are their
  // own and no table is larger than 64 MiB.
  lemma {:induction false} NarrativeFontCompiles(first: nat, rows: seq<Rows>, others: seq<Table>)
    requires ValidSource(first, rows) && ValidTables(NarrativeTables(first, rows, others))
    requires |others| <= 10 && SmallTables(others)
    ensures Compiles(first, rows, others)
  {
    hide HeadTable, HeadWord, ValidTables, Fits, Unpatched, Sort, NarrativeTables, SmallTables, AdjustmentPlace;
    hide ValidSource, Offset, Occurs, Aligned;
    var all := NarrativeTables(first, rows, others);
    NarrativeIsSmall(first, rows, others);
    HeadIsListed(first, rows, others);
    var k := SortedIndex(all, Keyed(HEAD, HeadTable()));
    var ts := Sort(all);
    FindsTag(ts, k);
    SortKeepsSmall(all);
    SmallFits(ts);
    PlaceFits(ts);
  }

  lemma {:induction false} SmallFits(ts: seq<Table>)
    requires SmallTables(ts)
    ensures |ts| < MAX_TABLES && Fits(ts, Base(|ts|))
  {
    SmallTablesFit(ts, Base(|ts|));
  }

  lemma {:induction false} NarrativeIsSmall(first: nat, rows: seq<Rows>, others: seq<Table>)
    requires ValidSource(first, rows) && |others| <= 10 && SmallTables(others)
    ensures SmallTables(NarrativeTables(first, rows, others))
  {
    hide SmallTables, TablesOf, NarrativeGlyphs, GlyphRows, LargestCount, ValidRows;
    AllRowsAreValid(first, rows);
    OwnTablesAreSmall(first, first + |rows| - 1, NarrativeGlyphs(first, rows), LargestCount(GlyphRows(rows)), others);
  }
}
