/**
 SFNT containers (OpenType, "Organization of an OpenType Font" and "Calculating checksums"): assembling
 tables into a font file, and reading a font file's table directory back.
 */
module Sfnt {
  import opened Wrappers
  import opened Pieces
  import opened Bytes
  import opened Sorting

  // ---- Checksums ----

  // The sum of the big-endian words of a word-aligned byte string.
  function WordSum(s: Bytes): nat
    requires |s| % 4 == 0
  {
    if s == [] then 0 else GetBe32(s, 0) + WordSum(s[4..])
  }

  function Aligned(s: Bytes): (r: Bytes)
    ensures |r| % 4 == 0 && |r| == |s| + Pad4(|s|)
  {
    s + Zeros(Pad4(|s|))
  }

  function Checksum(data: Bytes): (r: nat)
    ensures r < U32
  {
    WordSum(Aligned(data)) % U32
  }

  // ---- Tables ----

  const HEAD: Key := [0x68, 0x65, 0x61, 0x64]

  // A table's tag and bytes, as an entry of the script's dictionary.
  type Table = Keyed<Bytes>

  predicate ValidTag(tag: Key) { |tag| == 4 && forall i :: 0 <= i < 4 ==> tag[i] < 128 }

  function TagBytes(tag: Key): (r: Bytes)
    requires ValidTag(tag)
    ensures |r| == 4
  {
    [tag[0], tag[1], tag[2], tag[3]]
  }

  predicate ValidTables(ts: seq<Table>) {
    (forall i :: 0 <= i < |ts| ==> ValidTag(ts[i].key)) && DistinctKeys(ts)
  }

  // ---- Header and directory ----

  // 1 << (n.bit_length() - 1)
  function MaxPower(n: nat): (p: nat)
    requires n > 0
    ensures 0 < p <= n < 2 * p
  {
    if n == 1 then 1 else 2 * MaxPower(n / 2)
  }

  // max_power.bit_length() - 1
  function Exponent(p: nat): (e: nat)
    requires p > 0
    ensures e < p
  {
    if p == 1 then 0 else 1 + Exponent(p / 2)
  }

  const MAX_TABLES := 4096

  function Header(n: nat): (r: Bytes)
    requires 0 < n < MAX_TABLES
    ensures |r| == 12
  {
    var range := 16 * MaxPower(n);
    PowersFit(n);
    Be32(0x0001_0000) + Be16(n) + Be16(range) + Be16(Exponent(MaxPower(n))) + Be16(16 * n - range)
  }

  lemma {:induction false} PowersFit(n: nat)
    requires 0 < n < MAX_TABLES
    ensures 16 * MaxPower(n) < U16 && 0 <= 16 * n - 16 * MaxPower(n) < U16
  {
    if MaxPower(n) > 2048 { PowerDoubles(MaxPower(n), n); assert false; }
  }

  predicate IsPower(p: nat) { p == 1 || (p > 1 && p % 2 == 0 && IsPower(p / 2)) }

  lemma {:induction false} MaxPowerIsPower(n: nat)
    requires n > 0
    ensures IsPower(MaxPower(n))
  {
    if n > 1 { MaxPowerIsPower(n / 2); }
  }

  // Every power of two above 2048 is at least 4096.
  lemma {:induction false} PowerJumps(p: nat, bound: nat)
    requires IsPower(p) && IsPower(bound) && p > bound
    ensures p >= 2 * bound
  {
    if bound > 1 { PowerJumps(p / 2, bound / 2); }
  }

  lemma {:induction false} PowerDoubles(p: nat, n: nat)
    requires 0 < n < MAX_TABLES && p == MaxPower(n) && p > 2048
    ensures p >= 4096
  {
    MaxPowerIsPower(n);
    assert IsPower(2048) by {
      assert IsPower(1) && IsPower(2) && IsPower(4) && IsPower(8) && IsPower(16) && IsPower(32);
      assert IsPower(64) && IsPower(128) && IsPower(256) && IsPower(512) && IsPower(1024);
    }
    PowerJumps(p, 2048);
  }

  // One directory record.
  function Record(tag: Key, checksum: nat, offset: nat, length: nat): (r: Bytes)
    requires ValidTag(tag) && checksum < U32 && offset < U32 && length < U32
    ensures |r| == 16
  {
    TagBytes(tag) + (Be32(checksum) + (Be32(offset) + Be32(length)))
  }

  // Every record's numbers fit their fields, tables being laid out from `offset` on.
  predicate Fits(ts: seq<Table>, offset: nat) {
    ts == [] || (offset < U32 && |ts[0].value| < U32 && Fits(ts[1..], offset + |Aligned(ts[0].value)|))
  }

  function Directory(ts: seq<Table>, offset: nat): (r: Bytes)
    requires ValidTables(ts) && Fits(ts, offset)
    ensures |r| == 16 * |ts|
  {
    if ts == [] then []
    else
      Record(ts[0].key, Checksum(ts[0].value), offset, |ts[0].value|)
      + Directory(ts[1..], offset + |Aligned(ts[0].value)|)
  }

  // The tables, each padded to a word boundary.
  function Body(ts: seq<Table>): (r: Bytes)
    ensures |r| % 4 == 0
  {
    if ts == [] then []
    else
      WholeWords(|Aligned(ts[0].value)|, |Body(ts[1..])|);
      Aligned(ts[0].value) + Body(ts[1..])
  }

  // Where table `k` starts.
  function Offset(ts: seq<Table>, base: nat, k: nat): nat
    requires k <= |ts|
  {
    if k == 0 then base else Offset(ts[1..], base + |Aligned(ts[0].value)|, k - 1)
  }

  function Base(n: nat): (r: nat)
    ensures r % 4 == 0
  {
    FourTimes(3 + 4 * n);
    12 + 16 * n
  }

  lemma {:induction false} FourTimes(m: nat)
    ensures (4 * m) % 4 == 0
  {
  }

  // The file before the head table's adjustment word is patched.
  function Unpatched(ts: seq<Table>): (r: Bytes)
    requires ValidTables(ts) && 0 < |ts| < MAX_TABLES && Fits(ts, Base(|ts|))
    ensures |r| % 4 == 0 && |r| == Base(|ts|) + |Body(ts)|
  {
    WholeWords(Base(|ts|), |Body(ts)|);
    Header(|ts|) + (Directory(ts, Base(|ts|)) + Body(ts))
  }

  lemma {:induction false} WholeWords(a: nat, b: nat)
    requires a % 4 == 0 && b % 4 == 0
    ensures (a + b) % 4 == 0
  {
  }

  // struct.pack_into(">I", s, p, v)
  function Patch(s: Bytes, p: nat, v: nat): (r: Bytes)
    requires p + 4 <= |s| && v < U32
    ensures |r| == |s|
  {
    s[..p] + Be32(v) + s[p + 4..]
  }

  function FindTag(ts: seq<Table>, tag: Key): (r: Option<nat>)
    ensures r.Some? ==> r.value < |ts| && ts[r.value].key == tag
    ensures r.None? ==> forall i :: 0 <= i < |ts| ==> ts[i].key != tag
  {
    if ts == [] then None
    else if ts[0].key == tag then Some(0)
    else
      var rest := FindTag(ts[1..], tag);
      if rest.None? then None else Some(rest.value + 1)
  }

  const MAGIC_SUM := 0xB1B0_AFBA

  // (0xB1B0AFBA - sum) & 0xFFFFFFFF
  function Adjustment(font: Bytes): (r: nat)
    ensures r < U32
  {
    (MAGIC_SUM - Checksum(font)) % U32
  }

  // Where the adjustment word goes: eight bytes into the head table.
  function AdjustmentPlace(ts: seq<Table>, head: nat): nat
    requires head < |ts|
  {
    Offset(ts, Base(|ts|), head) + 8
  }

  // There are tables, not too many, every offset fits its field, and the adjustment word is inside the file.
  predicate Assembles(ts: seq<Table>)
    requires ValidTables(ts)
  {
    && 0 < |ts| < MAX_TABLES && Fits(ts, Base(|ts|))
    && var head := FindTag(ts, HEAD);
      head.Some? && AdjustmentPlace(ts, head.value) + 4 <= Base(|ts|) + |Body(ts)|
  }

  function AssembleSorted(ts: seq<Table>): Option<Bytes>
    requires ValidTables(ts)
  {
    if !Assembles(ts) then None
    else
      var font := Unpatched(ts);
      Some(Patch(font, AdjustmentPlace(ts, FindTag(ts, HEAD).value), Adjustment(font)))
  }

  lemma {:induction false} SortedTablesAreValid(ts: seq<Table>)
    requires ValidTables(ts)
    ensures ValidTables(Sort(ts))
  {
    SortPermutes(ts);
    DistinctByMultiset(ts, Sort(ts));
    forall i | 0 <= i < |ts| ensures ValidTag(Sort(ts)[i].key) {
      SameElements(ts, Sort(ts)[i]);
    }
  }

  function Assemble(tables: seq<Table>): Option<Bytes>
    requires ValidTables(tables)
  {
    SortedTablesAreValid(tables);
    AssembleSorted(Sort(tables))
  }

  // ---- Assembling, as the script does it ----

  lemma {:induction false} OffsetsAreAligned(ts: seq<Table>, base: nat, k: nat)
    requires k <= |ts| && base % 4 == 0
    ensures Offset(ts, base, k) % 4 == 0 && Offset(ts, base, k) >= base
    decreases k
  {
    hide Aligned;
    if k > 0 { OffsetsAreAligned(ts[1..], base + |Aligned(ts[0].value)|, k - 1); }
  }

  lemma {:induction false} OffsetStep(ts: seq<Table>, base: nat, k: nat)
    requires k < |ts|
    ensures Offset(ts, base, k + 1) == Offset(ts, base, k) + |Aligned(ts[k].value)|
    decreases k
  {
    if k > 0 { OffsetStep(ts[1..], base + |Aligned(ts[0].value)|, k - 1); }
  }

  lemma {:induction false} PlaceIsAligned(ts: seq<Table>, head: nat)
    requires head < |ts|
    ensures AdjustmentPlace(ts, head) % 4 == 0 && AdjustmentPlace(ts, head) >= Base(|ts|) + 8
    ensures AdjustmentPlace(ts, head) == Offset(ts, Base(|ts|), head) + 8
  {
    hide Offset, Base;
    OffsetsAreAligned(ts, Base(|ts|), head);
  }

  lemma {:induction false} TailIsValid(ts: seq<Table>, k: nat)
    requires ValidTables(ts) && k <= |ts|
    ensures ValidTables(ts[k..])
  {
    var t := ts[k..];
    forall i, j | 0 <= i < j < |t| ensures t[i].key != t[j].key {
      assert ts[k + i].key != ts[k + j].key;
    }
  }
}
