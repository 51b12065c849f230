/**
 The binding check of a narrative font payload: after comparing the payload with the generated font it
 re-reads every table.  None of the later checks can fail, so the check accepts exactly the generated
 font.
 */
module FontBinding {
  import opened Wrappers
  import opened Pieces
  import opened Bytes
  import opened Sorting
  import opened Sfnt
  import opened SfntExact
  import opened SfntReader
  import opened Glyph
  import opened FontTables
  import opened FontRoundTrip

  function Tags(ts: seq<Table>): set<Key> { set i | 0 <= i < |ts| :: ts[i].key }

  predicate MetricsMatch(font: Bytes, hmtx: nat, k: nat) {
    Get16(font, hmtx + k * 4) == Some(ADVANCE) && Get16(font, hmtx + k * 4 + 2) == Some(Bearing(k))
  }

  method ValidateBinding(payload: Bytes, first: nat, rows: seq<Rows>, others: seq<Table>) returns (ok: bool)
    requires Compiles(first, rows, others)
    ensures ok <==> payload == TtfOf(first, rows, others)
  {
    hide Checksum, ReadDirectory, Format4Mapping, LocaOffsets, GlyphSlice, GlyphCount, RunMapping, Offsets;
    hide NarrativeTables, NarrativeGlyphs, Compiles, MetricsMatch, BitmapGlyph;
    CompilesMeans(first, rows, others);
    var tables := NarrativeTables(first, rows, others);
    assert Assemble(tables).Some? by { FontIsMade(first, rows, others); }
    var font := AssembleSfnt(tables);
    if payload != font.value { return false; }
    EveryCheckPasses(first, rows, others);
    if Checksum(payload) != MAGIC_SUM { return false; }
    var records := SfntTableRecords(payload);
    if records.None? || records.value.Keys != Tags(tables) { return false; }
    var count := GlyphCount(payload, records.value);
    if count.None? || count.value != |rows| + 1 { return false; }
    var mapping := NarrativeFormat4Mapping(payload, records.value);
    if mapping != Some(RunMapping(first, |rows|)) { return false; }
    var offsets := LocaOffsets(payload, records.value, count.value);
    if offsets.None? || HMTX !in records.value { return false; }
    for k := 0 to |rows| + 1 {
      if !MetricsMatch(payload, records.value[HMTX].offset, k) { return false; }
      var expected := BitmapOutlineGlyph(GlyphRows(rows)[k]);
      var actual := GlyphSlice(payload, records.value, offsets.value, k);
      if expected.None? || actual != Some(expected.value.0) { return false; }
    }
    ok := true;
  }

  lemma {:induction false} FontIsMade(first: nat, rows: seq<Rows>, others: seq<Table>)
    requires Compiles(first, rows, others)
    ensures Assemble(NarrativeTables(first, rows, others)).Some?
  {
  }

  // What the checks after the comparison look at, on the generated font itself.
  ghost predicate AllChecksPass(font: Bytes, first: nat, rows: seq<Rows>, tables: seq<Table>) {
    && Checksum(font) == MAGIC_SUM && ReadDirectory(font).Some?
    && var records := RecordsOf(font);
      && records.Keys == Tags(tables) && GlyphCount(font, records) == Some(|rows| + 1)
      && Format4Mapping(font, records) == Some(RunMapping(first, |rows|)) && HMTX in records
      && LocaOffsets(font, records, |rows| + 1).Some?
      && (forall k :: 0 <= k <= |rows| ==> MetricsMatch(font, records[HMTX].offset, k))
      && forall k :: 0 <= k <= |rows| ==>
        var glyph := BitmapGlyph(GlyphRows(rows)[k]);
        glyph.Some?
        && GlyphSlice(font, records, LocaOffsets(font, records, |rows| + 1).value, k) == Some(glyph.value.0)
  }

  lemma {:induction false} EveryCheckPasses(first: nat, rows: seq<Rows>, others: seq<Table>)
    requires Compiles(first, rows, others)
    ensures ValidSource(first, rows)
    ensures AllChecksPass(TtfOf(first, rows, others), first, rows, NarrativeTables(first, rows, others))
  {
    hide Checksum, ReadDirectory, Format4Mapping, LocaOffsets, GlyphSlice, GlyphCount, RunMapping, Offsets;
    hide NarrativeTables, Compiles, MetricsMatch, BitmapGlyph, GlyphOf, TtfOf, GlyphRows, Tags, ValidRows, ValidTables;
    CompilesMeans(first, rows, others);
    var font, gs := TtfOf(first, rows, others), NarrativeGlyphs(first, rows);
    FontReads(first, rows, others);
    MagicSum(first, rows, others);
    TagsRead(first, rows, others);
    MetricsHeld(first, rows, others);
    AllRowsAreValid(first, rows);
    forall k | 0 <= k <= |rows|
      ensures BitmapGlyph(GlyphRows(rows)[k]).Some? && gs[k] == BitmapGlyph(GlyphRows(rows)[k]).value.0
    {
      GlyphIsBitmap(GlyphRows(rows)[k]);
    }
  }

  lemma {:induction false} GlyphIsBitmap(r: Rows)
    requires ValidRows(r)
    ensures BitmapGlyph(r).Some? && GlyphOf(r) == BitmapGlyph(r).value.0
  {
  }

  lemma {:induction false} MagicSum(first: nat, rows: seq<Rows>, others: seq<Table>)
    requires Compiles(first, rows, others)
    ensures Checksum(TtfOf(first, rows, others)) == MAGIC_SUM
  {
    hide Checksum, AssembleSorted, Sort, NarrativeTables, ValidSource, HeadWord, HasHead;
    CompiledIsAssembled(first, rows, others);
    AssembledChecksum(NarrativeTables(first, rows, others));
  }

  lemma {:induction false} TagsRead(first: nat, rows: seq<Rows>, others: seq<Table>)
    requires Compiles(first, rows, others)
    ensures ValidSource(first, rows) && ReadDirectory(TtfOf(first, rows, others)).Some?
    ensures RecordsOf(TtfOf(first, rows, others)).Keys == Tags(NarrativeTables(first, rows, others))
  {
    hide Checksum, ReadDirectory, AssembleSorted, Sort, NarrativeTables, HeadWord, HasHead, ValidTables, Font;
    CompilesMeans(first, rows, others);
    CompiledIsAssembled(first, rows, others);
    var all := NarrativeTables(first, rows, others);
    var ts := Sort(all);
    DirectoryReadsBack(ts);
    var records := RecordsOf(Font(ts));
    forall tag ensures tag in records <==> tag in Tags(all) { SortKeepsTag(all, tag); }
  }

  lemma {:induction false} SortKeepsTag(all: seq<Table>, tag: Key)
    ensures (exists k :: 0 <= k < |Sort(all)| && Sort(all)[k].key == tag) <==> tag in Tags(all)
  {
    hide Sort;
    if k :| 0 <= k < |Sort(all)| && Sort(all)[k].key == tag {
      SameElements(all, Sort(all)[k]);
      var i :| 0 <= i < |all| && all[i] == Sort(all)[k];
      assert all[i].key in Tags(all);
    }
    if i :| 0 <= i < |all| && all[i].key == tag {
      SameElements(all, all[i]);
      var k :| 0 <= k < |Sort(all)| && Sort(all)[k] == all[i];
      assert Sort(all)[k].key == tag;
    }
  }

  lemma {:induction false} MetricsHeld(first: nat, rows: seq<Rows>, others: seq<Table>)
    requires Compiles(first, rows, others)
    ensures var font := TtfOf(first, rows, others);
      && ReadDirectory(font).Some? && HMTX in RecordsOf(font)
      && forall k :: 0 <= k <= |rows| ==> MetricsMatch(font, RecordsOf(font)[HMTX].offset, k)
  {
    hide ReadDirectory, Metrics, Words, Occurs, NarrativeTtf, ValidTables, MetricsMatch, TtfOf;
    HmtxIsListed(first, rows, others);
    var t := Keyed(HMTX, Words(Metrics(|rows| + 1)));
    TableIsHeld(first, rows, others, t);
    var font := TtfOf(first, rows, others);
    forall k | 0 <= k <= |rows| ensures MetricsMatch(font, RecordsOf(font)[HMTX].offset, k) {
      MetricsFrom(font, RecordsOf(font)[HMTX].offset, |rows| + 1, k);
    }
  }

  lemma {:induction false} MetricsFrom(font: Bytes, at: nat, n: nat, k: nat)
    requires k < n && Occurs(font, at, Words(Metrics(n)))
    ensures MetricsMatch(font, at, k)
  {
    hide Metrics, Words, Occurs, GetBe16;
    HeldWord(font, at, Metrics(n), 2 * k);
    HeldWord(font, at, Metrics(n), 2 * k + 1);
    assert at + 2 * (2 * k) == at + k * 4 && at + 2 * (2 * k + 1) == at + k * 4 + 2;
  }

  lemma {:induction false} HmtxIsListed(first: nat, rows: seq<Rows>, others: seq<Table>)
    requires ValidSource(first, rows)
    ensures Keyed(HMTX, Words(Metrics(|rows| + 1))) in NarrativeTables(first, rows, others)
  {
    hide HeadTable, LocaTable, MaxpTable, CmapTable, Metrics, Glyf, NarrativeGlyphs, ValidSource, Words;
    assert NarrativeTables(first, rows, others)[3] == Keyed(HMTX, Words(Metrics(|rows| + 1)));
  }
}
