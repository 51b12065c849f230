/**
 The assembled font: the loops that build it, the whole-file checksum, and the directory reader as the
 inverse of assembling.
 */
module SfntExact {
  import opened Wrappers
  import opened Pieces
  import opened Bytes
  import opened Sorting
  import opened Sfnt

  // ---- The loops ----

  lemma {:induction false} PadOfSum(a: nat, n: nat)
    requires a % 4 == 0
    ensures Pad4(a + n) == Pad4(n)
  {
  }

  lemma {:induction false} Regroup(a: Bytes, b: Bytes, c: Bytes)
    ensures a + (b + c) == a + b + c
  {
  }

  lemma {:induction false} SuffixHead(ts: seq<Table>, k: nat)
    requires k < |ts|
    ensures ts[k..] != [] && ts[k..][0] == ts[k] && ts[k..][1..] == ts[k + 1..]
  {
  }

  datatype Placed = Placed(tag: Key, checksum: nat, offset: nat, length: nat)

  predicate PlacedAt(p: Placed, ts: seq<Table>, k: nat)
    requires k < |ts|
  {
    p == Placed(ts[k].key, Checksum(ts[k].value), Offset(ts, Base(|ts|), k), |ts[k].value|)
  }

  // The first loop: each table's checksum and aligned offset.
  method PlaceTables(ts: seq<Table>) returns (records: seq<Placed>)
    ensures |records| == |ts| && forall i :: 0 <= i < |ts| ==> PlacedAt(records[i], ts, i)
  {
    hide Checksum, Offset;
    records := [];
    var offset: nat := 12 + |ts| * 16;
    OffsetZero(ts, Base(|ts|));
    for k := 0 to |ts|
      invariant |records| == k && forall i :: 0 <= i < k ==> PlacedAt(records[i], ts, i)
      invariant offset + Pad4(offset) == Offset(ts, Base(|ts|), k)
    {
      offset := offset + Pad4(offset);
      OffsetsAreAligned(ts, Base(|ts|), k);
      records := records + [Placed(ts[k].key, Checksum(ts[k].value), offset, |ts[k].value|)];
      OffsetStep(ts, Base(|ts|), k);
      PadOfSum(offset, |ts[k].value|);
      offset := offset + |ts[k].value|;
    }
  }

  lemma {:induction false} OffsetZero(ts: seq<Table>, base: nat)
    ensures Offset(ts, base, 0) == base
  {
  }

  // The header and the directory, unless a number in them does not fit its field.
  function Prefix(ts: seq<Table>): Option<Bytes>
    requires ValidTables(ts) && 0 < |ts| < MAX_TABLES
  {
    if Fits(ts, Base(|ts|)) then Some(Header(|ts|) + Directory(ts, Base(|ts|))) else None
  }

  // The second loop: header and directory; a number that does not fit its field raises.
  method WriteDirectory(ts: seq<Table>, records: seq<Placed>) returns (r: Option<Bytes>)
    requires ValidTables(ts) && 0 < |ts| < MAX_TABLES
    requires |records| == |ts| && forall i :: 0 <= i < |ts| ==> PlacedAt(records[i], ts, i)
    ensures r == Prefix(ts)
  {
    hide Checksum, Header, Record, ValidTables, Offset;
    var font := Header(|ts|);
    ghost var base := Base(|ts|);
    assert ts[0..] == ts;
    OffsetZero(ts, base);
    for k := 0 to |ts|
      invariant Fits(ts, base) <==> Fits(ts[k..], Offset(ts, base, k))
      invariant ValidTables(ts[k..])
      invariant Fits(ts, base) ==> font + Directory(ts[k..], Offset(ts, base, k)) == Header(|ts|) + Directory(ts, base)
    {
      SuffixHead(ts, k);
      TailIsValid(ts, k + 1);
      OffsetStep(ts, base, k);
      var p := records[k];
      assert PlacedAt(records[k], ts, k);
      if p.offset >= U32 || p.length >= U32 { return None; }
      assert ValidTag(ts[k].key) by { TagsAreValid(ts, k); }
      var record := Record(p.tag, p.checksum, p.offset, p.length);
      if Fits(ts, base) { Regroup(font, record, Directory(ts[k + 1..], Offset(ts, base, k + 1))); }
      font := font + record;
    }
    assert font + [] == font;
    r := Some(font);
  }

  lemma {:induction false} TagsAreValid(ts: seq<Table>, k: nat)
    requires ValidTables(ts) && k < |ts|
    ensures ValidTag(ts[k].key)
  {
  }

  // The third loop: the tables with the padding between and after them.
  method AppendTables(ts: seq<Table>, records: seq<Placed>, prefix: Bytes) returns (font: Bytes)
    requires |records| == |ts| && forall i :: 0 <= i < |ts| ==> PlacedAt(records[i], ts, i)
    requires |prefix| == Base(|ts|)
    ensures font == prefix + Body(ts)
  {
    hide Checksum, Offset, Body, Aligned;
    font := prefix;
    assert ts[0..] == ts;
    OffsetZero(ts, Base(|ts|));
    AlreadyAligned(font);
    for k := 0 to |ts|
      invariant Aligned(font) + Body(ts[k..]) == prefix + Body(ts)
      invariant |Aligned(font)| == Offset(ts, Base(|ts|), k)
    {
      assert PlacedAt(records[k], ts, k);
      AppendStep(ts, k, font);
      font := font + Zeros(records[k].offset - |font|) + ts[k].value;
    }
    BodyEnd(ts, font);
    font := font + Zeros(Pad4(|font|));
  }

  lemma {:induction false} AppendStep(ts: seq<Table>, k: nat, font: Bytes)
    requires k < |ts| && |Aligned(font)| == Offset(ts, Base(|ts|), k)
    ensures |font| <= Offset(ts, Base(|ts|), k)
    ensures var longer := font + Zeros(Offset(ts, Base(|ts|), k) - |font|) + ts[k].value;
      && Aligned(longer) + Body(ts[k + 1..]) == Aligned(font) + Body(ts[k..])
      && |Aligned(longer)| == Offset(ts, Base(|ts|), k + 1)
  {
    hide Body, Aligned, Offset;
    SuffixHead(ts, k);
    OffsetStep(ts, Base(|ts|), k);
    PadThenData(font, ts[k].value, Offset(ts, Base(|ts|), k));
    BodyHead(ts[k..]);
    Regroup(Aligned(font), Aligned(ts[k].value), Body(ts[k + 1..]));
  }

  lemma {:induction false} BodyEnd(ts: seq<Table>, font: Bytes)
    ensures Aligned(font) + Body(ts[|ts|..]) == font + Zeros(Pad4(|font|))
  {
    assert Body(ts[|ts|..]) == [];
  }

  lemma {:induction false} AlreadyAligned(s: Bytes)
    requires |s| % 4 == 0
    ensures Aligned(s) == s
  {
  }

  lemma {:induction false} BodyHead(ts: seq<Table>)
    requires ts != []
    ensures Body(ts) == Aligned(ts[0].value) + Body(ts[1..])
  {
  }

  lemma {:induction false} PadThenData(font: Bytes, data: Bytes, offset: nat)
    requires |Aligned(font)| == offset
    ensures offset >= |font|
    ensures Aligned(font + Zeros(offset - |font|) + data) == Aligned(font) + Aligned(data)
    ensures |Aligned(font + Zeros(offset - |font|) + data)| == |Aligned(font)| + |Aligned(data)|
  {
    PadOfSum(offset, |data|);
  }

  method AssembleSfnt(tables: seq<Table>) returns (r: Option<Bytes>)
    requires ValidTables(tables)
    ensures r == Assemble(tables)
  {
    SortedTablesAreValid(tables);
    var ts := Sort(tables);
    hide Sort, ValidTables, Header, Fits, Directory, Body, Offset, Checksum, Patch;
    if |ts| == 0 || |ts| >= MAX_TABLES { return None; }
    var records := PlaceTables(ts);
    var prefix := WriteDirectory(ts, records);
    if prefix.None? { return None; }
    var font := AppendTables(ts, records, prefix.value);
    Regroup(Header(|ts|), Directory(ts, Base(|ts|)), Body(ts));
    var head := FindTag(ts, HEAD);
    if head.None? { return None; }
    var place := records[head.value].offset + 8;
    assert PlacedAt(records[head.value], ts, head.value);
    if place + 4 > |font| { return None; }
    r := Some(Patch(font, place, Adjustment(font)));
  }

  // ---- The whole-file checksum ----

  lemma {:induction false} SumConcat(a: Bytes, b: Bytes)
    requires |a| % 4 == 0 && |b| % 4 == 0
    ensures |a + b| % 4 == 0 && WordSum(a + b) == WordSum(a) + WordSum(b)
    decreases |a|
  {
    if a == [] {
      assert a + b == b;
    } else {
      SumConcat(a[4..], b);
      ConcatWord(a, b);
    }
  }

  lemma {:induction false} ConcatWord(a: Bytes, b: Bytes)
    requires |a| >= 4
    ensures (a + b)[4..] == a[4..] + b && GetBe32(a + b, 0) == GetBe32(a, 0)
  {
  }

  lemma {:induction false} SumOfWord(s: Bytes)
    requires |s| == 4
    ensures WordSum(s) == GetBe32(s, 0)
  {
    assert WordSum(s[4..]) == 0;
  }

  lemma {:induction false} SumOfAlignedWord(s: Bytes, p: nat)
    requires |s| % 4 == 0 && p % 4 == 0 && p + 4 <= |s|
    ensures WordSum(s) == WordSum(s[..p]) + GetBe32(s, p) + WordSum(s[p + 4..])
  {
    hide WordSum;
    ThreeParts(s, p);
    SumConcat(s[..p] + s[p..p + 4], s[p + 4..]);
    SumConcat(s[..p], s[p..p + 4]);
    SumOfWord(s[p..p + 4]);
  }

  lemma {:induction false} ThreeParts(s: Bytes, p: nat)
    requires p + 4 <= |s|
    ensures s == s[..p] + s[p..p + 4] + s[p + 4..] && GetBe32(s[p..p + 4], 0) == GetBe32(s, p)
  {
  }

  lemma {:induction false} PatchParts(s: Bytes, p: nat, v: nat)
    requires p + 4 <= |s| && v < U32
    ensures Patch(s, p, v)[..p] == s[..p] && Patch(s, p, v)[p + 4..] == s[p + 4..]
    ensures GetBe32(Patch(s, p, v), p) == v
  {
    Be32Value(v);
  }

  lemma {:induction false} Be32Value(v: nat)
    requires v < U32
    ensures GetBe32(Be32(v), 0) == v
  {
    assert v / 65536 == v / 256 / 256 && v / 16777216 == v / 256 / 256 / 256;
  }

  lemma {:induction false} SumOfPatched(s: Bytes, p: nat, v: nat)
    requires |s| % 4 == 0 && p % 4 == 0 && p + 4 <= |s| && v < U32
    ensures WordSum(Patch(s, p, v)) == WordSum(s) - GetBe32(s, p) + v
  {
    hide WordSum, Patch;
    SumOfAlignedWord(s, p);
    SumOfAlignedWord(Patch(s, p, v), p);
    PatchParts(s, p, v);
  }

  lemma {:induction false} BodyHas(ts: seq<Table>, k: nat)
    requires k < |ts|
    ensures Occurs(Body(ts), Offset(ts, 0, k), Aligned(ts[k].value))
    decreases k
  {
    hide Occurs, Aligned;
    var first, rest := Aligned(ts[0].value), Body(ts[1..]);
    AllOf(Body(ts));
    Split(Body(ts), 0, first, rest);
    if k > 0 {
      BodyHas(ts[1..], k - 1);
      OffsetFrom(ts[1..], |first|, k - 1);
      Inside(Body(ts), |first|, rest, Offset(ts[1..], 0, k - 1), Aligned(ts[k].value));
    }
  }

  lemma {:induction false} OffsetFrom(ts: seq<Table>, base: nat, k: nat)
    requires k <= |ts|
    ensures Offset(ts, base, k) == base + Offset(ts, 0, k)
    decreases k
  {
    hide Aligned;
    if k > 0 {
      OffsetFrom(ts[1..], base + |Aligned(ts[0].value)|, k - 1);
      OffsetFrom(ts[1..], |Aligned(ts[0].value)|, k - 1);
    }
  }

  lemma {:induction false} Inside(text: Bytes, i: nat, s: Bytes, j: nat, t: Bytes)
    requires Occurs(text, i, s) && Occurs(s, j, t)
    ensures Occurs(text, i + j, t)
  {
    forall k | 0 <= k < |t| ensures text[i + j + k] == t[k] {
      assert text[i + (j + k)] == s[j + k];
    }
  }

  lemma {:induction false} DirectoryHas(ts: seq<Table>, base: nat, k: nat)
    requires ValidTables(ts) && Fits(ts, base) && k < |ts|
    ensures Offset(ts, base, k) < U32 && |ts[k].value| < U32
    ensures Occurs(Directory(ts, base), 16 * k,
      Record(ts[k].key, Checksum(ts[k].value), Offset(ts, base, k), |ts[k].value|))
    decreases k
  {
    hide Occurs, Aligned, Record, Checksum;
    TailIsValid(ts, 1);
    var next := base + |Aligned(ts[0].value)|;
    var first := Record(ts[0].key, Checksum(ts[0].value), base, |ts[0].value|);
    AllOf(Directory(ts, base));
    Split(Directory(ts, base), 0, first, Directory(ts[1..], next));
    if k > 0 {
      DirectoryHas(ts[1..], next, k - 1);
      Inside(Directory(ts, base), 16, Directory(ts[1..], next), 16 * (k - 1),
             Record(ts[k].key, Checksum(ts[k].value), Offset(ts, base, k), |ts[k].value|));
    }
  }

  lemma {:induction false} UnpatchedHas(ts: seq<Table>, k: nat)
    requires ValidTables(ts) && 0 < |ts| < MAX_TABLES && Fits(ts, Base(|ts|)) && k < |ts|
    ensures var base, u := Base(|ts|), Unpatched(ts);
      && Offset(ts, base, k) < U32 && |ts[k].value| < U32
      && Occurs(u, 12 + 16 * k, Record(ts[k].key, Checksum(ts[k].value), Offset(ts, base, k), |ts[k].value|))
      && Occurs(u, Offset(ts, base, k), Aligned(ts[k].value))
      && Occurs(u, 0, Header(|ts|))
  {
    hide Occurs, Aligned, Record, Checksum, Header, Directory, Body, Offset;
    var base, u := Base(|ts|), Unpatched(ts);
    var d, b := Directory(ts, base), Body(ts);
    AllOf(u);
    Split(u, 0, Header(|ts|), d + b);
    Split(u, 12, d, b);
    DirectoryHas(ts, base, k);
    Inside(u, 12, d, 16 * k, Record(ts[k].key, Checksum(ts[k].value), Offset(ts, base, k), |ts[k].value|));
    BodyHas(ts, k);
    OffsetFrom(ts, base, k);
    Inside(u, base, b, Offset(ts, 0, k), Aligned(ts[k].value));
  }

  lemma {:induction false} WordInside(text: Bytes, i: nat, s: Bytes, p: nat)
    requires Occurs(text, i, s) && p + 4 <= |s|
    ensures GetBe32(text, i + p) == GetBe32(s, p)
  {
    assert text[i + p] == s[p] && text[i + (p + 1)] == s[p + 1];
    assert text[i + (p + 2)] == s[p + 2] && text[i + (p + 3)] == s[p + 3];
  }

  lemma {:induction false} AlignedWord(s: Bytes, p: nat)
    requires p + 4 <= |s|
    ensures GetBe32(Aligned(s), p) == GetBe32(s, p)
  {
  }

  // A head table long enough to hold its adjustment word.
  predicate HasHead(ts: seq<Table>) {
    FindTag(ts, HEAD).Some? && |ts[FindTag(ts, HEAD).value].value| >= 12
  }

  function HeadWord(ts: seq<Table>): nat
    requires HasHead(ts)
  {
    GetBe32(ts[FindTag(ts, HEAD).value].value, 8)
  }

  lemma {:induction false} ModuloSum(sum: nat, word: nat)
    requires word < U32 && word <= sum
    ensures (sum - word + (MAGIC_SUM - sum % U32) % U32) % U32 == MAGIC_SUM <==> word == 0
  {
    var q := sum / U32;
    var r := sum % U32;
    assert sum == q * U32 + r;
    var adj := (MAGIC_SUM - r) % U32;
    assert adj == if r <= MAGIC_SUM then MAGIC_SUM - r else MAGIC_SUM - r + U32;
    var total := sum - word + adj;
    var shifted := MAGIC_SUM - word + (if r <= MAGIC_SUM then 0 else U32);
    assert total == q * U32 + shifted;
    Reduce(q, shifted);
  }

  lemma {:induction false} Reduce(q: nat, x: int)
    ensures (q * U32 + x) % U32 == x % U32
    decreases q
  {
    if q > 0 {
      Reduce(q - 1, x);
      assert q * U32 + x == ((q - 1) * U32 + x) + U32;
    }
  }

  lemma {:induction false} PlaceFits(ts: seq<Table>)
    requires ValidTables(ts) && 0 < |ts| < MAX_TABLES && Fits(ts, Base(|ts|)) && HasHead(ts)
    ensures var head := FindTag(ts, HEAD).value; var u := Unpatched(ts); var p := AdjustmentPlace(ts, head);
      p % 4 == 0 && p + 4 <= |u| && GetBe32(u, p) == HeadWord(ts)
      && Occurs(u, Offset(ts, Base(|ts|), head), Aligned(ts[head].value))
  {
    hide Occurs, Record, Checksum, Header, Unpatched, Aligned, Offset, Base, GetBe32, FindTag, AdjustmentPlace;
    var head, u := FindTag(ts, HEAD).value, Unpatched(ts);
    var data, at := ts[head].value, Offset(ts, Base(|ts|), head);
    UnpatchedHas(ts, head);
    PlaceIsAligned(ts, head);
    OccursFits(u, at, Aligned(data));
    WordInside(u, at, Aligned(data), 8);
    AlignedWord(data, 8);
  }

  lemma {:induction false} OccursFits(text: Bytes, i: nat, s: Bytes)
    requires Occurs(text, i, s)
    ensures i + |s| <= |text|
  {
  }

  // The word the adjustment replaces: the head table's own when that is long enough, otherwise what stands behind it.
  function AdjustmentWord(ts: seq<Table>): nat
    requires ValidTables(ts) && Assembles(ts)
  {
    GetBe32(Unpatched(ts), AdjustmentPlace(ts, FindTag(ts, HEAD).value))
  }

  // The assembled file's checksum is the format's magic number exactly when the adjustment replaces a zero word: for
  // a head table of at least twelve bytes, when that came in with a zero adjustment word.
  lemma {:induction false} WholeFileChecksum(ts: seq<Table>)
    requires ValidTables(ts) && Assembles(ts)
    ensures Checksum(AssembleSorted(ts).value) == MAGIC_SUM <==> AdjustmentWord(ts) == 0
    ensures HasHead(ts) ==> AdjustmentWord(ts) == HeadWord(ts)
  {
    hide WordSum, Occurs, Unpatched, Patch, Aligned, Fits, Offset;
    var u := Unpatched(ts);
    var p := AdjustmentPlace(ts, FindTag(ts, HEAD).value);
    PlaceIsAligned(ts, FindTag(ts, HEAD).value);
    if HasHead(ts) { PlaceFits(ts); }
    SumOfPatched(u, p, Adjustment(u));
    SumOfAlignedWord(u, p);
    AlreadyAligned(u);
    AlreadyAligned(Patch(u, p, Adjustment(u)));
    ModuloSum(WordSum(u), GetBe32(u, p));
  }

  lemma {:induction false} AssembledChecksum(tables: seq<Table>)
    requires ValidTables(tables) && ValidTables(Sort(tables)) && Assembles(Sort(tables))
    ensures Checksum(Assemble(tables).value) == MAGIC_SUM <==> AdjustmentWord(Sort(tables)) == 0
    ensures HasHead(Sort(tables)) ==> AdjustmentWord(Sort(tables)) == HeadWord(Sort(tables))
  {
    SortedTablesAreValid(tables);
    WholeFileChecksum(Sort(tables));
  }
}
