/**
 The narrative font: the tables that carry its glyphs, and the readers of those tables (OpenType,
 "cmap" format 4, "loca", "hmtx", "maxp").  Tables the readers never open are left as given.
 */
module FontTables {
  import opened Wrappers
  import opened Bytes
  import opened Sorting
  import opened Sfnt
  import opened SfntReader
  import opened Glyph

  const CMAP: Key := [0x63, 0x6d, 0x61, 0x70]
  const GLYF: Key := [0x67, 0x6c, 0x79, 0x66]
  const HMTX: Key := [0x68, 0x6d, 0x74, 0x78]
  const LOCA: Key := [0x6c, 0x6f, 0x63, 0x61]
  const MAXP: Key := [0x6d, 0x61, 0x78, 0x70]

  const ADVANCE := 600
  const SIDE_BEARING := 50

  const NOTDEF: Rows := ["11111", "10001", "10101", "10101", "10101", "10001", "11111"]

  // ---- Writing ----

  predicate AreWords(ws: seq<nat>) { forall i :: 0 <= i < |ws| ==> ws[i] < U16 }

  // struct.pack of unsigned 16-bit fields.
  function Words(ws: seq<nat>): (r: Bytes)
    requires AreWords(ws)
    ensures |r| == 2 * |ws|
  {
    if ws == [] then [] else Be16(ws[0]) + Words(ws[1..])
  }

  function LongWords(vs: seq<nat>): (r: Bytes)
    requires forall i :: 0 <= i < |vs| ==> vs[i] < U32
    ensures |r| == 4 * |vs|
  {
    if vs == [] then [] else Be32(vs[0]) + LongWords(vs[1..])
  }

  function Glyf(gs: seq<Bytes>): Bytes {
    if gs == [] then [] else gs[0] + Glyf(gs[1..])
  }

  // Where glyph `k` starts.
  function GlyphOffset(gs: seq<Bytes>, k: nat): nat
    requires k <= |gs|
  {
    if k == 0 then 0 else |gs[0]| + GlyphOffset(gs[1..], k - 1)
  }

  function Offsets(gs: seq<Bytes>): (r: seq<nat>)
    ensures |r| == |gs| + 1 && forall k :: 0 <= k <= |gs| ==> r[k] == GlyphOffset(gs, k)
  {
    seq(|gs| + 1, k requires 0 <= k <= |gs| => GlyphOffset(gs, k))
  }

  // A run of code points, one bitmap each, that a format 4 table can hold beside its last segment.
  predicate ValidSource(first: nat, rows: seq<Rows>) {
    && 0 < |rows| && |rows| + 1 < U16 && first + |rows| - 1 < 0xFFFF
    && forall i :: 0 <= i < |rows| ==> ValidRows(rows[i])
  }

  function GlyphRows(rows: seq<Rows>): (r: seq<Rows>)
    ensures |r| == |rows| + 1 && r[0] == NOTDEF && forall i :: 0 <= i < |rows| ==> r[i + 1] == rows[i]
  {
    [NOTDEF] + rows
  }

  lemma {:induction false} AllRowsAreValid(first: nat, rows: seq<Rows>)
    requires ValidSource(first, rows)
    ensures forall i :: 0 <= i < |GlyphRows(rows)| ==> ValidRows(GlyphRows(rows)[i])
  {
    assert ValidRows(NOTDEF);
  }

  lemma {:induction false} CellCount(r: Rows)
    requires ValidRows(r)
    ensures |Cells(r)| <= 35
  {
    CellsFromAre(r, 0);
  }

  function GlyphOf(r: Rows): (g: Bytes)
    requires ValidRows(r)
    ensures |g| <= 12 + 22 * 35
  {
    CellCount(r);
    BitmapGlyph(r).value.0
  }

  function Glyphs(rows: seq<Rows>): (gs: seq<Bytes>)
    requires forall i :: 0 <= i < |rows| ==> ValidRows(rows[i])
    ensures |gs| == |rows| && forall i :: 0 <= i < |gs| ==> gs[i] == GlyphOf(rows[i]) && |gs[i]| <= 782
  {
    seq(|rows|, i requires 0 <= i < |rows| => GlyphOf(rows[i]))
  }

  lemma {:induction false} OffsetBound(gs: seq<Bytes>, k: nat)
    requires k <= |gs| && forall i :: 0 <= i < |gs| ==> |gs[i]| <= 782
    ensures GlyphOffset(gs, k) <= 782 * k
    decreases k
  {
    if k > 0 { OffsetBound(gs[1..], k - 1); }
  }

  // (1 - first) & 0xFFFF
  function Delta(first: nat): nat
    requires first < U16
  {
    (1 - first) % U16
  }

  // The header, one Windows BMP record, and a format 4 subtable of one segment and the closing one.
  function CmapWords(first: nat, last: nat): (r: seq<nat>)
    requires first <= last < 0xFFFF
    ensures |r| == 22 && AreWords(r)
  {
    [0, 1, 3, 1, 0, 12, 4, 32, 0, 4, 4, 1, 0, last, 0xFFFF, 0, first, 0xFFFF, Delta(first), 1, 0, 0]
  }

  // head: long glyph offsets, and an adjustment word of zero in words 4 and 5.
  function HeadWords(): (r: seq<nat>)
    ensures |r| == 27 && AreWords(r) && r[4] == 0 && r[5] == 0 && r[25] == 1
  {
    [1, 0, 1, 0x199A, 0, 0, 0x5F0F, 0x3CF5, 0x000B, 1000, 0, 0, 0, 0, 0, 0, 0, 0, 0, 0, 530, 700, 0, 8, 2, 1, 0]
  }

  function MaxpWords(glyphCount: nat, points: nat, contours: nat): (r: seq<nat>)
    requires glyphCount < U16 && points < U16 && contours < U16
    ensures |r| == 16 && AreWords(r)
  {
    [1, 0, glyphCount, points, contours, 0, 0, 2, 0, 0, 0, 0, 0, 0, 0, 0]
  }

  // Advance and left side bearing of each glyph; the glyph after .notdef has none.
  function Metrics(glyphCount: nat): (r: seq<nat>)
    ensures |r| == 2 * glyphCount && AreWords(r)
    ensures forall k :: 0 <= k < glyphCount ==> r[2 * k] == ADVANCE && r[2 * k + 1] == Bearing(k)
  {
    seq(2 * glyphCount, i requires 0 <= i < 2 * glyphCount => if i % 2 == 0 then ADVANCE else Bearing(i / 2))
  }

  function Bearing(k: nat): nat { if k == 1 then 0 else SIDE_BEARING }

  function LargestCount(rows: seq<Rows>): (r: nat)
    requires forall i :: 0 <= i < |rows| ==> ValidRows(rows[i])
    ensures r <= 35
    ensures forall i :: 0 <= i < |rows| ==> |Cells(rows[i])| <= r
  {
    if rows == [] then 0
    else
      CellCount(rows[0]);
      var rest := LargestCount(rows[1..]);
      if |Cells(rows[0])| > rest then |Cells(rows[0])| else rest
  }

  // The glyphs of .notdef and of the run, in glyph order.
  function NarrativeGlyphs(first: nat, rows: seq<Rows>): (gs: seq<Bytes>)
    requires ValidSource(first, rows)
    ensures |gs| == |rows| + 1 && SmallGlyphs(gs)
  {
    SourceGlyphsAreSmall(first, rows);
    Glyphs(GlyphRows(rows))
  }

  lemma {:induction false} SourceGlyphsAreSmall(first: nat, rows: seq<Rows>)
    requires ValidSource(first, rows)
    ensures forall i :: 0 <= i < |GlyphRows(rows)| ==> ValidRows(GlyphRows(rows)[i])
    ensures SmallGlyphs(Glyphs(GlyphRows(rows)))
  {
    hide GlyphOf, ValidRows, GlyphRows;
    AllRowsAreValid(first, rows);
  }

  // The tables in the order the script lists them, the unread ones last.
  function TablesOf(first: nat, last: nat, gs: seq<Bytes>, contours: nat, others: seq<Table>): seq<Table>
    requires first <= last < 0xFFFF && SmallGlyphs(gs) && contours <= 35
  {
    [Keyed(CMAP, CmapTable(first, last)), Keyed(GLYF, Glyf(gs)), Keyed(HEAD, HeadTable()),
     Keyed(HMTX, Words(Metrics(|gs|))), Keyed(LOCA, LocaTable(gs)), Keyed(MAXP, MaxpTable(|gs|, contours))]
    + others
  }

  function NarrativeTables(first: nat, rows: seq<Rows>, others: seq<Table>): seq<Table>
    requires ValidSource(first, rows)
  {
    AllRowsAreValid(first, rows);
    TablesOf(first, first + |rows| - 1, NarrativeGlyphs(first, rows), LargestCount(GlyphRows(rows)), others)
  }

  function CmapTable(first: nat, last: nat): (r: Bytes)
    requires first <= last < 0xFFFF
    ensures |r| == 44
  {
    Words(CmapWords(first, last))
  }

  function HeadTable(): (r: Bytes)
    ensures |r| == 54
  {
    Words(HeadWords())
  }

  predicate SmallGlyphs(gs: seq<Bytes>) { |gs| < U16 && forall i :: 0 <= i < |gs| ==> |gs[i]| <= 782 }

  function LocaTable(gs: seq<Bytes>): (r: Bytes)
    requires SmallGlyphs(gs)
    ensures |r| == 4 * (|gs| + 1)
  {
    OffsetsFit(gs);
    LongWords(Offsets(gs))
  }

  function MaxpTable(glyphCount: nat, contours: nat): (r: Bytes)
    requires glyphCount < U16 && contours <= 35
    ensures |r| == 32
  {
    Words(MaxpWords(glyphCount, 4 * contours, contours))
  }

  lemma {:induction false} OffsetsFit(gs: seq<Bytes>)
    requires SmallGlyphs(gs)
    ensures forall k :: 0 <= k <= |gs| ==> Offsets(gs)[k] < U32
  {
    forall k | 0 <= k <= |gs| ensures Offsets(gs)[k] < U32 { OffsetBound(gs, k); }
  }

  function NarrativeTtf(first: nat, rows: seq<Rows>, others: seq<Table>): Option<Bytes>
    requires ValidSource(first, rows) && ValidTables(NarrativeTables(first, rows, others))
  {
    Assemble(NarrativeTables(first, rows, others))
  }

  // ---- Reading ----

  function Get16(font: Bytes, at: nat): Option<nat> {
    if at + 2 > |font| then None else Some(GetBe16(font, at))
  }

  // The Windows Unicode BMP format 4 subtable, from encoding record `index` on.
  function FindSubtable(font: Bytes, cmap: nat, index: nat, count: nat): Option<nat>
    requires index <= count
    decreases count - index
  {
    var at := cmap + 4 + index * 8;
    if index == count || at + 8 > |font| then None
    else
      var subtable := cmap + GetBe32(font, at + 4);
      if GetBe16(font, at) == 3 && GetBe16(font, at + 2) == 1 then
        var format := Get16(font, subtable);
        if format.None? then None
        else if format.value == 4 then Some(subtable)
        else FindSubtable(font, cmap, index + 1, count)
      else FindSubtable(font, cmap, index + 1, count)
  }

  type Mapping = map<nat, nat>

  datatype Segments = Segments(count: nat, ends: nat, starts: nat, deltas: nat, ranges: nat)

  predicate InFont(s: Segments, font: Bytes) {
    && s.ends + 2 * s.count <= |font| && s.starts + 2 * s.count <= |font|
    && s.deltas + 2 * s.count <= |font| && s.ranges + 2 * s.count <= |font|
  }

  // The glyph of one code point of segment `k`.
  function MapPoint(font: Bytes, s: Segments, k: nat, code: nat, start: nat): Option<nat>
    requires InFont(s, font) && k < s.count && start <= code
  {
    var delta, relative := GetBe16(font, s.deltas + 2 * k), GetBe16(font, s.ranges + 2 * k);
    if relative == 0 then Some((code + delta) % U16)
    else
      var glyph := Get16(font, s.ranges + 2 * k + relative + (code - start) * 2);
      if glyph.None? then None else Some(if glyph.value != 0 then (glyph.value + delta) % U16 else 0)
  }

  function MapRange(font: Bytes, s: Segments, k: nat, code: nat, start: nat, end: nat, found: Mapping): Option<Mapping>
    requires InFont(s, font) && k < s.count && start <= code
    decreases if code > end then 0 else end + 1 - code
  {
    if code > end then Some(found)
    else
      var glyph := MapPoint(font, s, k, code, start);
      if glyph.None? then None else MapRange(font, s, k, code + 1, start, end, found[code := glyph.value])
  }

  function MapSegments(font: Bytes, s: Segments, k: nat, found: Mapping): Option<Mapping>
    requires InFont(s, font) && k <= s.count
    decreases s.count - k
  {
    if k == s.count then Some(found)
    else
      var start, end := GetBe16(font, s.starts + 2 * k), GetBe16(font, s.ends + 2 * k);
      if start == end == 0xFFFF then MapSegments(font, s, k + 1, found)
      else
        var more := MapRange(font, s, k, start, start, end, found);
        if more.None? then None else MapSegments(font, s, k + 1, more.value)
  }

  // Where the arrays of a format 4 subtable are, if they are all in the file.
  function SegmentsOf(font: Bytes, subtable: nat): (r: Option<Segments>)
    ensures r.Some? ==> InFont(r.value, font)
  {
    if subtable + 8 > |font| || subtable + GetBe16(font, subtable + 2) > |font| then None
    else
      var count := GetBe16(font, subtable + 6) / 2;
      var ends := subtable + 14;
      var starts := ends + count * 2 + 2;
      var s := Segments(count, ends, starts, starts + count * 2, starts + count * 4);
      if s.ranges + 2 * count > |font| then None else Some(s)
  }

  function Format4Mapping(font: Bytes, records: Records): Option<Mapping> {
    if CMAP !in records || records[CMAP].offset + 4 > |font| then None
    else
      var cmap := records[CMAP].offset;
      var subtable := FindSubtable(font, cmap, 0, GetBe16(font, cmap + 2));
      if subtable.None? then None
      else
        var s := SegmentsOf(font, subtable.value);
        if s.None? then None else MapSegments(font, s.value, 0, map[])
  }

  method NarrativeFormat4Mapping(font: Bytes, records: Records) returns (r: Option<Mapping>)
    ensures r == Format4Mapping(font, records)
  {
    hide MapPoint, SegmentsOf, GetBe16;
    if CMAP !in records || records[CMAP].offset + 4 > |font| { return None; }
    var cmap := records[CMAP].offset;
    var subtable := FindSubtable(font, cmap, 0, GetBe16(font, cmap + 2));
    if subtable.None? { return None; }
    var s := SegmentsOf(font, subtable.value);
    if s.None? { return None; }
    var mapping: Mapping := map[];
    for k := 0 to s.value.count
      invariant MapSegments(font, s.value, k, mapping) == Format4Mapping(font, records)
    {
      var start, end := GetBe16(font, s.value.starts + 2 * k), GetBe16(font, s.value.ends + 2 * k);
      if start == end == 0xFFFF { continue; }
      ghost var goal := MapRange(font, s.value, k, start, start, end, mapping);
      var code := start;
      while code <= end
        invariant start <= code
        invariant MapRange(font, s.value, k, code, start, end, mapping) == goal
        decreases if code > end then 0 else end + 1 - code
      {
        var glyph := MapPoint(font, s.value, k, code, start);
        if glyph.None? { return None; }
        mapping := mapping[code := glyph.value];
        code := code + 1;
      }
    }
    r := Some(mapping);
  }

  // Glyph offsets, doubled when they are stored short.
  function LocaOffsets(font: Bytes, records: Records, glyphCount: nat): (r: Option<seq<nat>>)
    ensures r.Some? ==> |r.value| == glyphCount + 1
  {
    if HEAD !in records || LOCA !in records then None
    else
      var format := Get16(font, records[HEAD].offset + 50);
      var loca := records[LOCA].offset;
      if format.None? then None
      else if format.value == 0 then
        if loca + 2 * (glyphCount + 1) > |font| then None
        else Some(seq(glyphCount + 1, k requires 0 <= k <= glyphCount => 2 * GetBe16(font, loca + 2 * k)))
      else if loca + 4 * (glyphCount + 1) > |font| then None
      else Some(seq(glyphCount + 1, k requires 0 <= k <= glyphCount => GetBe32(font, loca + 4 * k)))
  }

  function GlyphCount(font: Bytes, records: Records): Option<nat> {
    if MAXP !in records then None else Get16(font, records[MAXP].offset + 4)
  }

  // font[i:j]
  function Slice(font: Bytes, i: nat, j: nat): Bytes {
    var hi := if j < |font| then j else |font|;
    if i <= hi then font[i..hi] else []
  }

  function GlyphSlice(font: Bytes, records: Records, offsets: seq<nat>, k: nat): Option<Bytes>
    requires k + 1 < |offsets|
  {
    if GLYF !in records then None
    else Some(Slice(font, records[GLYF].offset + offsets[k], records[GLYF].offset + offsets[k + 1]))
  }

  // Directory, then cmap, then loca, then the contours of the glyph found there.
  function ReadCharacter(font: Bytes, code: nat): Option<Rows> {
    var records := ReadDirectory(font);
    if records.None? then None
    else
      var count, mapping := GlyphCount(font, records.value), Format4Mapping(font, records.value);
      if count.None? || mapping.None? || code !in mapping.value || mapping.value[code] >= count.value then None
      else
        var offsets := LocaOffsets(font, records.value, count.value);
        if offsets.None? then None
        else
          var glyph := GlyphSlice(font, records.value, offsets.value, mapping.value[code]);
          if glyph.None? then None else Bitmap(glyph.value)
  }
}
