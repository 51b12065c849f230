/**
 The directory reader against the assembler: reading an assembled font gives back every table, at
 aligned, disjoint places inside the file.
 */
module SfntReader {
  import opened Wrappers
  import opened Pieces
  import opened Bytes
  import opened Sorting
  import opened Sfnt
  import opened SfntExact

  datatype Entry = Entry(checksum: nat, offset: nat, length: nat)

  type Records = map<Key, Entry>

  function TagAt(font: Bytes, at: nat): (r: Key)
    requires at + 4 <= |font|
    ensures |r| == 4
  {
    [font[at], font[at + 1], font[at + 2], font[at + 3]]
  }

  // The head table is summed as if its adjustment word were zero; too short a head raises.
  function Summed(tag: Key, data: Bytes): Option<Bytes> {
    if tag != HEAD then Some(data) else if |data| < 12 then None else Some(Patch(data, 8, 0))
  }

  function ReadEntry(font: Bytes, index: nat): (r: Option<(Key, Entry)>)
    ensures r.Some? ==> r.value.1.offset + r.value.1.length <= |font|
  {
    var at := 12 + index * 16;
    if at + 16 > |font| then None
    else
      var tag := TagAt(font, at);
      var checksum, offset, length := GetBe32(font, at + 4), GetBe32(font, at + 8), GetBe32(font, at + 12);
      if !ValidTag(tag) || offset + length > |font| then None
      else
        var data := Summed(tag, font[offset..offset + length]);
        if data.None? || Checksum(data.value) != checksum then None
        else Some((tag, Entry(checksum, offset, length)))
  }

  function ReadEntries(font: Bytes, index: nat, count: nat, found: Records): Option<Records>
    requires index <= count
    decreases count - index
  {
    if index == count then Some(found)
    else
      var entry := ReadEntry(font, index);
      if entry.None? then None
      else ReadEntries(font, index + 1, count, found[entry.value.0 := entry.value.1])
  }

  function ReadDirectory(font: Bytes): Option<Records> {
    if |font| < 12 then None else ReadEntries(font, 0, GetBe16(font, 4), map[])
  }

  method SfntTableRecords(font: Bytes) returns (r: Option<Records>)
    ensures r == ReadDirectory(font)
  {
    hide ReadEntry;
    if |font| < 12 { return None; }
    var count := GetBe16(font, 4);
    var records: Records := map[];
    for index := 0 to count
      invariant ReadEntries(font, index, count, records) == ReadDirectory(font)
    {
      var entry := ReadEntry(font, index);
      if entry.None? { return None; }
      records := records[entry.value.0 := entry.value.1];
    }
    r := Some(records);
  }

  // ---- What stands where in the assembled file ----

  predicate Assembled(ts: seq<Table>) {
    ValidTables(ts) && HasHead(ts) && Assembles(ts)
  }

  function Font(ts: seq<Table>): Bytes
    requires Assembled(ts)
  {
    AssembleSorted(ts).value
  }

  lemma {:induction false} PatchElsewhere(u: Bytes, p: nat, v: nat, i: nat, s: Bytes)
    requires p + 4 <= |u| && v < U32 && Occurs(u, i, s) && (i + |s| <= p || p + 4 <= i)
    ensures Occurs(Patch(u, p, v), i, s)
  {
    var w := Patch(u, p, v);
    forall k | 0 <= k < |s| ensures w[i + k] == s[k] {
      assert u[i + k] == s[k];
    }
  }

  lemma {:induction false} PatchInside(u: Bytes, i: nat, s: Bytes, q: nat, v: nat)
    requires Occurs(u, i, s) && q + 4 <= |s| && v < U32
    ensures i + q + 4 <= |u| && Occurs(Patch(u, i + q, v), i, Patch(s, q, v))
  {
    var w, t := Patch(u, i + q, v), Patch(s, q, v);
    forall k | 0 <= k < |t| ensures w[i + k] == t[k] {
      if k < q || k >= q + 4 { assert u[i + k] == s[k]; }
    }
  }

  lemma {:induction false} OffsetsGrow(ts: seq<Table>, base: nat, j: nat, k: nat)
    requires j < k <= |ts|
    ensures Offset(ts, base, j) + |ts[j].value| <= Offset(ts, base, j) + |Aligned(ts[j].value)| <= Offset(ts, base, k)
    decreases k - j
  {
    if k == j + 1 {
      OffsetStep(ts, base, j);
    } else {
      OffsetsGrow(ts, base, j, k - 1);
      OffsetStep(ts, base, k - 1);
    }
  }

  // The bytes of table `k` as they stand in the file.
  function Stored(ts: seq<Table>, k: nat): (r: Bytes)
    requires Assembled(ts) && k < |ts|
    ensures |r| == |ts[k].value|
  {
    if ts[k].key == HEAD then (HeadIs(ts, k); Patch(ts[k].value, 8, Adjustment(Unpatched(ts)))) else ts[k].value
  }

  lemma {:induction false} HeadIs(ts: seq<Table>, k: nat)
    requires ValidTables(ts) && HasHead(ts) && k < |ts|
    ensures ts[k].key == HEAD <==> k == FindTag(ts, HEAD).value
  {
  }

  lemma {:induction false} TableStandsThere(ts: seq<Table>, k: nat)
    requires Assembled(ts) && k < |ts|
    ensures Occurs(Font(ts), Offset(ts, Base(|ts|), k), Stored(ts, k))
  {
    hide Occurs, Aligned, Record, Checksum, Unpatched, Offset, Patch, Fits, Header, ValidTables, AdjustmentPlace;
    hide Base;
    var u, base, head := Unpatched(ts), Base(|ts|), FindTag(ts, HEAD).value;
    var data := ts[k].value;
    PlaceIsAligned(ts, head);
    UnpatchedHas(ts, k);
    Shorter(u, Offset(ts, base, k), data);
    HeadIs(ts, k);
    PlaceFits(ts);
    if k == head {
      PatchInside(u, Offset(ts, base, k), data, 8, Adjustment(u));
    } else {
      if k < head { OffsetsGrow(ts, base, k, head); } else { OffsetsGrow(ts, base, head, k); }
      PatchElsewhere(u, AdjustmentPlace(ts, head), Adjustment(u), Offset(ts, base, k), data);
    }
  }

  lemma {:induction false} Shorter(u: Bytes, i: nat, data: Bytes)
    requires Occurs(u, i, Aligned(data))
    ensures Occurs(u, i, data)
  {
    Split(u, i, data, Zeros(Pad4(|data|)));
  }

  lemma {:induction false} RecordStandsThere(ts: seq<Table>, k: nat)
    requires ValidTables(ts) && Assembles(ts) && k < |ts|
    ensures Offset(ts, Base(|ts|), k) < U32 && |ts[k].value| < U32
    ensures Occurs(AssembleSorted(ts).value, 12 + 16 * k,
                   Record(ts[k].key, Checksum(ts[k].value), Offset(ts, Base(|ts|), k), |ts[k].value|))
    ensures Occurs(AssembleSorted(ts).value, 0, Header(|ts|))
  {
    hide Occurs, Aligned, Record, Checksum, Unpatched, Offset, Patch, Fits, Header, ValidTables;
    hide AdjustmentPlace, FindTag;
    var u := Unpatched(ts);
    UnpatchedHas(ts, k);
    PlaceIsAligned(ts, FindTag(ts, HEAD).value);
    TagsAreValid(ts, k);
    var place, adj := AdjustmentPlace(ts, FindTag(ts, HEAD).value), Adjustment(u);
    PatchElsewhere(u, place, adj, 0, Header(|ts|));
    var record := Record(ts[k].key, Checksum(ts[k].value), Offset(ts, Base(|ts|), k), |ts[k].value|);
    PatchElsewhere(u, place, adj, 12 + 16 * k, record);
  }

  // ---- Reading it back ----

  lemma {:induction false} RecordFields(font: Bytes, at: nat, tag: Key, checksum: nat, offset: nat, length: nat)
    requires ValidTag(tag) && checksum < U32 && offset < U32 && length < U32
    requires Occurs(font, at, Record(tag, checksum, offset, length))
    ensures at + 16 <= |font| && TagAt(font, at) == tag
    ensures GetBe32(font, at + 4) == checksum && GetBe32(font, at + 8) == offset && GetBe32(font, at + 12) == length
  {
    hide Occurs, Be32, GetBe32;
    var numbers := Be32(checksum) + (Be32(offset) + Be32(length));
    OccursFits(font, at, Record(tag, checksum, offset, length));
    Split(font, at, TagBytes(tag), numbers);
    Split(font, at + 4, Be32(checksum), Be32(offset) + Be32(length));
    Split(font, at + 8, Be32(offset), Be32(length));
    TagFrom(font, at, tag);
    WordFrom(font, at + 4, checksum);
    WordFrom(font, at + 8, offset);
    WordFrom(font, at + 12, length);
  }

  lemma {:induction false} TagFrom(font: Bytes, at: nat, tag: Key)
    requires ValidTag(tag) && Occurs(font, at, TagBytes(tag))
    ensures TagAt(font, at) == tag
  {
    var t := TagBytes(tag);
    assert font[at + 0] == t[0] && font[at + 1] == t[1] && font[at + 2] == t[2] && font[at + 3] == t[3];
  }

  lemma {:induction false} WordFrom(font: Bytes, at: nat, v: nat)
    requires v < U32 && Occurs(font, at, Be32(v))
    ensures GetBe32(font, at) == v
  {
    hide Be32, GetBe32;
    WordInside(font, at, Be32(v), 0);
    Be32Value(v);
  }

  lemma {:induction false} SliceThere(font: Bytes, i: nat, s: Bytes)
    requires Occurs(font, i, s)
    ensures i + |s| <= |font| && font[i..i + |s|] == s
  {
  }

  lemma {:induction false} PatchTwice(s: Bytes, v: nat)
    requires |s| >= 12 && v < U32
    ensures Patch(Patch(s, 8, v), 8, 0) == Patch(s, 8, 0)
  {
  }

  lemma {:induction false} AlignedPatch(s: Bytes, v: nat)
    requires |s| >= 12 && v < U32
    ensures Aligned(Patch(s, 8, v)) == Patch(Aligned(s), 8, v)
  {
  }

  // Clearing a word changes a checksum unless the word was clear.
  lemma {:induction false} ClearedChecksum(s: Bytes)
    requires |s| >= 12
    ensures Checksum(Patch(s, 8, 0)) == Checksum(s) <==> GetBe32(s, 8) == 0
  {
    hide Aligned, Patch, WordSum;
    AlignedPatch(s, 0);
    SumOfPatched(Aligned(s), 8, 0);
    SumOfAlignedWord(Aligned(s), 8);
    AlignedWord(s, 8);
    var sum, w := WordSum(Aligned(s)), GetBe32(s, 8);
    assert sum % U32 == sum - sum / U32 * U32;
    SameRemainder(sum, w);
  }

  lemma {:induction false} SameRemainder(sum: nat, w: nat)
    requires w < U32 && w <= sum
    ensures (sum - w) % U32 == sum % U32 <==> w == 0
  {
  }

  lemma {:induction false} ReadsEntry(ts: seq<Table>, k: nat)
    requires Assembled(ts) && k < |ts|
    ensures ReadEntry(Font(ts), k) == if ts[k].key == HEAD && HeadWord(ts) != 0 then None
      else Some((ts[k].key, Entry(Checksum(ts[k].value), Offset(ts, Base(|ts|), k), |ts[k].value|)))
  {
    hide Occurs, Checksum, Unpatched, Offset, Record, AssembleSorted, Patch, Header, GetBe32, Be32, ValidTag;
    hide ValidTables, HasHead, TagAt, Stored, FindTag, Summed;
    var font, offset, data := Font(ts), Offset(ts, Base(|ts|), k), ts[k].value;
    RecordStandsThere(ts, k);
    TagsAreValid(ts, k);
    RecordFields(font, 12 + 16 * k, ts[k].key, Checksum(data), offset, |data|);
    TableStandsThere(ts, k);
    SliceThere(font, offset, Stored(ts, k));
    SumsAsRecorded(ts, k);
  }

  lemma {:induction false} SumsAsRecorded(ts: seq<Table>, k: nat)
    requires Assembled(ts) && k < |ts|
    ensures Summed(ts[k].key, Stored(ts, k)).Some?
    ensures Checksum(Summed(ts[k].key, Stored(ts, k)).value) == Checksum(ts[k].value)
      <==> !(ts[k].key == HEAD && HeadWord(ts) != 0)
  {
    hide Checksum, Unpatched, Offset, Patch, GetBe32;
    HeadIs(ts, k);
    if ts[k].key == HEAD {
      PatchTwice(ts[k].value, Adjustment(Unpatched(ts)));
      ClearedChecksum(ts[k].value);
    }
  }

  // Tables from `k` on, recorded over `found`.
  function Recorded(ts: seq<Table>, k: nat, found: Records): Records
    requires k <= |ts|
    decreases |ts| - k
  {
    if k == |ts| then found
    else
      Recorded(ts, k + 1,
               found[ts[k].key := Entry(Checksum(ts[k].value), Offset(ts, Base(|ts|), k), |ts[k].value|)])
  }

  lemma {:induction false} ReadsEntries(ts: seq<Table>, k: nat, found: Records)
    requires Assembled(ts) && k <= |ts|
    ensures ReadEntries(Font(ts), k, |ts|, found)
      == if FindTag(ts, HEAD).value >= k && HeadWord(ts) != 0 then None else Some(Recorded(ts, k, found))
    decreases |ts| - k
  {
    hide ReadEntry, AssembleSorted, Offset, Checksum, GetBe32;
    if k < |ts| {
      ReadsEntry(ts, k);
      HeadIs(ts, k);
      ReadsEntries(ts, k + 1,
                   found[ts[k].key := Entry(Checksum(ts[k].value), Offset(ts, Base(|ts|), k), |ts[k].value|)]);
    }
  }

  lemma {:induction false} RecordedKeeps(ts: seq<Table>, k: nat, found: Records, tag: Key)
    requires ValidTables(ts) && k <= |ts| && forall i :: k <= i < |ts| ==> ts[i].key != tag
    ensures (tag in Recorded(ts, k, found) <==> tag in found)
    ensures tag in found ==> Recorded(ts, k, found)[tag] == found[tag]
    decreases |ts| - k
  {
    hide Offset, Checksum, ValidTables;
    if k < |ts| {
      RecordedKeeps(ts, k + 1,
        found[ts[k].key := Entry(Checksum(ts[k].value), Offset(ts, Base(|ts|), k), |ts[k].value|)], tag);
    }
  }

  lemma {:induction false} RecordedHas(ts: seq<Table>, k: nat, found: Records, j: nat)
    requires ValidTables(ts) && k <= j < |ts|
    ensures var e := Entry(Checksum(ts[j].value), Offset(ts, Base(|ts|), j), |ts[j].value|);
      ts[j].key in Recorded(ts, k, found) && Recorded(ts, k, found)[ts[j].key] == e
    decreases |ts| - k
  {
    hide Offset, Checksum;
    var more := found[ts[k].key := Entry(Checksum(ts[k].value), Offset(ts, Base(|ts|), k), |ts[k].value|)];
    if k < j { RecordedHas(ts, k + 1, more, j); } else { RecordedKeeps(ts, k + 1, more, ts[j].key); }
  }

  lemma {:induction false} CountFrom(font: Bytes, n: nat)
    requires 0 < n < MAX_TABLES && Occurs(font, 0, Header(n))
    ensures |font| >= 12 && GetBe16(font, 4) == n
  {
    var h := Header(n);
    PowersFit(n);
    assert font[0 + 4] == h[4] && font[0 + 5] == h[5];
    assert h[4] == n / 256 && h[5] == n % 256;
  }

  // What the reader returns for table `k`, and where it says the table is.
  ghost predicate ReadsBack(ts: seq<Table>, records: Records, k: nat)
    requires Assembled(ts) && k < |ts|
  {
    && ts[k].key in records
    && var e := records[ts[k].key];
      && e.checksum == Checksum(ts[k].value) && e.offset % 4 == 0 && e.offset + e.length <= |Font(ts)|
      && Font(ts)[e.offset..e.offset + e.length] == Stored(ts, k)
  }

  // The reader accepts an assembled font exactly when the head table's adjustment word was zero, and
  // then returns exactly the tables that went in: aligned, in bounds, disjoint, byte for byte.
  lemma {:induction false} DirectoryReadsBack(ts: seq<Table>)
    requires Assembled(ts)
    ensures ReadDirectory(Font(ts)).Some? <==> HeadWord(ts) == 0
    ensures HeadWord(ts) == 0 ==> var records := ReadDirectory(Font(ts)).value;
      && (forall tag :: tag in records <==> exists k :: 0 <= k < |ts| && ts[k].key == tag)
      && (forall k :: 0 <= k < |ts| ==> ReadsBack(ts, records, k))
      && (forall j, k :: 0 <= j < k < |ts| ==>
            records[ts[j].key].offset + records[ts[j].key].length <= records[ts[k].key].offset)
  {
    hide ReadEntry, AssembleSorted, Offset, Checksum, Occurs, GetBe32, Header, ReadEntries, Recorded, Stored;
    var font := Font(ts);
    RecordStandsThere(ts, FindTag(ts, HEAD).value);
    Bounds(ts);
    CountFrom(font, |ts|);
    ReadsEntries(ts, 0, map[]);
    if HeadWord(ts) == 0 {
      var records := Recorded(ts, 0, map[]);
      forall tag ensures tag in records <==> exists k :: 0 <= k < |ts| && ts[k].key == tag {
        if k :| 0 <= k < |ts| && ts[k].key == tag { RecordedHas(ts, 0, map[], k); }
        else { RecordedKeeps(ts, 0, map[], tag); }
      }
      forall k | 0 <= k < |ts| ensures ReadsBack(ts, records, k) {
        RecordedHas(ts, 0, map[], k);
        TableStandsThere(ts, k);
        SliceThere(font, Offset(ts, Base(|ts|), k), Stored(ts, k));
        OffsetsAreAligned(ts, Base(|ts|), k);
      }
      forall j, k | 0 <= j < k < |ts|
        ensures records[ts[j].key].offset + records[ts[j].key].length <= records[ts[k].key].offset
      {
        RecordedHas(ts, 0, map[], j);
        RecordedHas(ts, 0, map[], k);
        OffsetsGrow(ts, Base(|ts|), j, k);
      }
    }
  }

  // A head table too short for its adjustment word stops the reader.
  lemma {:induction false} ShortHeadStops(ts: seq<Table>)
    requires ValidTables(ts) && Assembles(ts) && !HasHead(ts)
    ensures ReadDirectory(AssembleSorted(ts).value).None?
  {
    hide Occurs, Checksum, Unpatched, Offset, Record, Patch, Header, GetBe32, Be32, ValidTag, ValidTables;
    var head, font := FindTag(ts, HEAD).value, AssembleSorted(ts).value;
    RecordStandsThere(ts, head);
    TagsAreValid(ts, head);
    RecordFields(font, 12 + 16 * head, ts[head].key, Checksum(ts[head].value), Offset(ts, Base(|ts|), head),
      |ts[head].value|);
    assert ReadEntry(font, head).None?;
    CountFrom(font, |ts|);
    StopsThere(font, 0, |ts|, head, map[]);
  }

  lemma {:induction false} StopsThere(font: Bytes, index: nat, count: nat, k: nat, found: Records)
    requires index <= k < count && ReadEntry(font, k).None?
    ensures ReadEntries(font, index, count, found).None?
    decreases count - index
  {
    hide ReadEntry;
    var entry := ReadEntry(font, index);
    if entry.Some? { StopsThere(font, index + 1, count, k, found[entry.value.0 := entry.value.1]); }
  }

  // The reader accepts an assembled file exactly when its head table is at least twelve bytes long and came in with
  // a zero adjustment word.
  lemma {:induction false} ReadsExactly(ts: seq<Table>)
    requires ValidTables(ts) && Assembles(ts)
    ensures ReadDirectory(AssembleSorted(ts).value).Some? <==> HasHead(ts) && HeadWord(ts) == 0
  {
    hide ReadDirectory, AssembleSorted, Assembles, HeadWord, ValidTables;
    if HasHead(ts) { DirectoryReadsBack(ts); } else { ShortHeadStops(ts); }
  }

  lemma {:induction false} Bounds(ts: seq<Table>)
    requires Assembled(ts)
    ensures 0 < |ts| < MAX_TABLES
  {
  }
}
