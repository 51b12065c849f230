/**
 What the character map reader's loops return for any font file, code point by code point (OpenType, "cmap",
 format 4): the last segment around a code point decides its glyph.
 */
module CmapMeaning {
  import opened Wrappers
  import opened Bytes
  import opened FontTables

  // Code point `c` lies in segment `k`, and that is not a closing segment.
  predicate InSegment(font: Bytes, s: Segments, k: int, c: nat)
    requires InFont(s, font)
  {
    && 0 <= k < s.count
    && GetBe16(font, s.starts + 2 * k) <= c <= GetBe16(font, s.ends + 2 * k)
    && !(GetBe16(font, s.starts + 2 * k) == 0xFFFF && GetBe16(font, s.ends + 2 * k) == 0xFFFF)
  }

  // The word at which a segment with a range offset keeps the glyph of `c`, counted from the offset itself.
  function GlyphPlace(font: Bytes, s: Segments, k: nat, c: nat): int
    requires InFont(s, font) && k < s.count
  {
    var own := s.ranges + 2 * k;
    own + GetBe16(font, own) + 2 * (c - GetBe16(font, s.starts + 2 * k))
  }

  // A segment without a range offset always gives a glyph; otherwise its word must be in the file.
  predicate HasGlyph(font: Bytes, s: Segments, k: nat, c: nat)
    requires InFont(s, font) && k < s.count
  {
    GetBe16(font, s.ranges + 2 * k) == 0 || GlyphPlace(font, s, k, c) + 2 <= |font|
  }

  // The glyph is the code point, or the word kept for it, plus the segment's delta; a kept zero stays zero.
  predicate IsGlyph(font: Bytes, s: Segments, k: nat, c: nat, glyph: nat)
    requires InFont(s, font) && InSegment(font, s, k, c)
  {
    var delta := GetBe16(font, s.deltas + 2 * k);
    if GetBe16(font, s.ranges + 2 * k) == 0 then glyph == (c + delta) % 65536
    else
      && HasGlyph(font, s, k, c)
      && var kept := GetBe16(font, GlyphPlace(font, s, k, c));
        glyph == if kept == 0 then 0 else (kept + delta) % 65536
  }

  lemma {:induction false} PointIsGlyph(font: Bytes, s: Segments, k: nat, c: nat)
    requires InFont(s, font) && InSegment(font, s, k, c)
    ensures var r := MapPoint(font, s, k, c, GetBe16(font, s.starts + 2 * k));
      (r.Some? <==> HasGlyph(font, s, k, c)) && (r.Some? ==> IsGlyph(font, s, k, c, r.value))
  {
    hide GetBe16;
  }

  lemma {:induction false} RangeIs(font: Bytes, s: Segments, k: nat, code: nat, start: nat, end: nat, found: Mapping)
    requires InFont(s, font) && k < s.count && start <= code
    ensures var r := MapRange(font, s, k, code, start, end, found);
      && (r.Some? <==> forall c :: code <= c <= end ==> MapPoint(font, s, k, c, start).Some?)
      && (r.Some? ==> forall c: nat :: (
        c in r.value <==> c in found || code <= c <= end))
      && (r.Some? ==> forall c :: code <= c <= end ==> MapPoint(font, s, k, c, start) == Some(r.value[c]))
      && (r.Some? ==> forall c :: c in found && !(code <= c <= end) ==> r.value[c] == found[c])
    decreases if code > end then 0 else end + 1 - code
  {
    hide MapPoint, InFont;
    if code <= end {
      var glyph := MapPoint(font, s, k, code, start);
      if glyph.Some? { RangeIs(font, s, k, code + 1, start, end, found[code := glyph.value]); }
    }
  }

  // No segment from `k` on holds `c`.
  ghost predicate NoneFrom(font: Bytes, s: Segments, k: nat, c: nat)
    requires InFont(s, font)
  {
    forall j :: k <= j < s.count ==> !InSegment(font, s, j, c)
  }

  ghost predicate LastSegment(font: Bytes, s: Segments, j: nat, c: nat)
    requires InFont(s, font)
  {
    j < s.count && InSegment(font, s, j, c) && NoneFrom(font, s, j + 1, c)
  }

  ghost predicate AllHaveGlyphs(font: Bytes, s: Segments, k: nat)
    requires InFont(s, font)
  {
    forall j, c :: k <= j < s.count && InSegment(font, s, j, c) ==> HasGlyph(font, s, j, c)
  }

  lemma {:induction false} NoneFromNext(font: Bytes, s: Segments, k: nat, c: nat)
    requires InFont(s, font) && k < s.count
    ensures NoneFrom(font, s, k, c) <==> !InSegment(font, s, k, c) && NoneFrom(font, s, k + 1, c)
  {
    hide InSegment;
  }

  // What segments `k` and on make of a mapping.
  ghost predicate Extends(font: Bytes, s: Segments, k: nat, found: Mapping, m: Mapping)
    requires InFont(s, font)
  {
    && (forall c: nat :: c in m <==> c in found || !NoneFrom(font, s, k, c))
    && (forall c: nat :: NoneFrom(font, s, k, c) && c in found ==> c in m && m[c] == found[c])
    && (forall j: nat, c: nat :: k <= j && LastSegment(font, s, j, c) ==> c in m && IsGlyph(font, s, j, c, m[c]))
  }

  lemma {:induction false} OneSegment(font: Bytes, s: Segments, k: nat, found: Mapping)
    requires InFont(s, font) && k < s.count
    ensures var start, end := GetBe16(font, s.starts + 2 * k), GetBe16(font, s.ends + 2 * k);
      var r := if start == end == 0xFFFF then Some(found) else MapRange(font, s, k, start, start, end, found);
      && (r.Some? <==> forall c: nat :: InSegment(font, s, k, c) ==> HasGlyph(font, s, k, c))
      && (r.Some? ==> forall c: nat :: InSegment(font, s, k, c) ==> c in r.value && IsGlyph(font, s, k, c, r.value[c]))
      && (r.Some? ==> forall c: nat :: !InSegment(font, s, k, c) ==> SameAt(found, r.value, c))
  {
    hide GetBe16, MapPoint, HasGlyph, IsGlyph;
    var start, end := GetBe16(font, s.starts + 2 * k), GetBe16(font, s.ends + 2 * k);
    RangeIs(font, s, k, start, start, end, found);
    forall c: nat | InSegment(font, s, k, c)
      ensures MapPoint(font, s, k, c, start).Some? <==> HasGlyph(font, s, k, c)
      ensures HasGlyph(font, s, k, c) ==> IsGlyph(font, s, k, c, MapPoint(font, s, k, c, start).value)
    {
      PointIsGlyph(font, s, k, c);
    }
  }

  predicate SameAt(a: Mapping, b: Mapping, c: nat) { (c in a <==> c in b) && (c in a && c in b ==> a[c] == b[c]) }

  lemma {:induction false} SegmentsAre(font: Bytes, s: Segments, k: nat, found: Mapping)
    requires InFont(s, font) && k <= s.count
    ensures var r := MapSegments(font, s, k, found);
      (r.Some? <==> AllHaveGlyphs(font, s, k)) && (r.Some? ==> Extends(font, s, k, found, r.value))
    decreases s.count - k
  {
    hide GetBe16, InSegment, HasGlyph, IsGlyph, MapRange;
    if k < s.count {
      OneSegment(font, s, k, found);
      var start, end := GetBe16(font, s.starts + 2 * k), GetBe16(font, s.ends + 2 * k);
      var more := if start == end == 0xFFFF then Some(found) else MapRange(font, s, k, start, start, end, found);
      if more.Some? {
        SegmentsAre(font, s, k + 1, more.value);
        var r := MapSegments(font, s, k, found);
        if r.Some? {
          forall c: nat
            ensures c in r.value <==> c in found || !NoneFrom(font, s, k, c)
            ensures NoneFrom(font, s, k, c) && c in found ==> c in r.value && r.value[c] == found[c]
          {
            NoneFromNext(font, s, k, c);
            if !InSegment(font, s, k, c) { assert SameAt(found, more.value, c); }
          }
          forall j: nat, c: nat | k <= j && LastSegment(font, s, j, c)
            ensures c in r.value && IsGlyph(font, s, j, c, r.value[c])
          {
            if j == k { assert NoneFrom(font, s, k + 1, c); }
          }
        }
      }
    }
  }

  // The map has exactly the code points of the segments; the last segment around one decides its glyph. There is no
  // map exactly when some segment's kept glyph would lie outside the file.
  lemma {:induction false} MappingIsPointwise(font: Bytes, s: Segments)
    requires InFont(s, font)
    ensures var r := MapSegments(font, s, 0, map[]);
      && (r.Some? <==> AllHaveGlyphs(font, s, 0))
      && (r.Some? ==> forall c: nat :: c in r.value <==> !NoneFrom(font, s, 0, c))
      && (r.Some? ==> forall c: nat :: c in r.value ==> GlyphOfLast(font, s, c, r.value[c]))
  {
    SegmentsAre(font, s, 0, map[]);
    var r := MapSegments(font, s, 0, map[]);
    if r.Some? {
      forall c: nat | c in r.value ensures GlyphOfLast(font, s, c, r.value[c]) { LastAround(font, s, 0, c); }
    }
  }

  // The glyph is that of the last segment around the code point.
  ghost predicate GlyphOfLast(font: Bytes, s: Segments, c: nat, glyph: nat)
    requires InFont(s, font)
  {
    exists j: nat :: LastSegment(font, s, j, c) && IsGlyph(font, s, j, c, glyph)
  }

  lemma {:induction false} LastAround(font: Bytes, s: Segments, k: nat, c: nat)
    requires InFont(s, font) && k <= s.count && !NoneFrom(font, s, k, c)
    ensures exists j: nat :: k <= j && LastSegment(font, s, j, c)
    decreases s.count - k
  {
    hide InSegment;
    NoneFromNext(font, s, k, c);
    if NoneFrom(font, s, k + 1, c) { assert LastSegment(font, s, k, c); } else { LastAround(font, s, k + 1, c); }
  }

  // ---- The subtable ----

  // Record `k` is in the file, and is for the Windows Unicode BMP.
  predicate RecordIn(font: Bytes, cmap: nat, k: int) { 0 <= k && cmap + 4 + 8 * k + 8 <= |font| }

  predicate IsBmp(font: Bytes, cmap: nat, k: int)
    requires RecordIn(font, cmap, k)
  {
    GetBe16(font, cmap + 4 + 8 * k) == 3 && GetBe16(font, cmap + 4 + 8 * k + 2) == 1
  }

  function SubtableOf(font: Bytes, cmap: nat, k: int): nat
    requires RecordIn(font, cmap, k)
  {
    cmap + GetBe32(font, cmap + 4 + 8 * k + 4)
  }

  // The record is passed over: it is not for the BMP, or its subtable has another format.
  predicate PassedOver(font: Bytes, cmap: nat, k: int) {
    && RecordIn(font, cmap, k)
    && (IsBmp(font, cmap, k) ==>
      SubtableOf(font, cmap, k) + 2 <= |font| && GetBe16(font, SubtableOf(font, cmap, k)) != 4)
  }

  predicate LeadsTo(font: Bytes, cmap: nat, k: int, subtable: nat) {
    && RecordIn(font, cmap, k) && IsBmp(font, cmap, k) && subtable == SubtableOf(font, cmap, k)
    && subtable + 2 <= |font| && GetBe16(font, subtable) == 4
  }

  // Record `k` of those from `i` on is the first that is not passed over, and leads to the subtable.
  predicate FirstFrom(font: Bytes, cmap: nat, i: int, count: int, k: int, subtable: nat) {
    i <= k < count && LeadsTo(font, cmap, k, subtable) && forall j :: i <= j < k ==> PassedOver(font, cmap, j)
  }

  lemma {:induction false} FoundFrom(font: Bytes, cmap: nat, i: nat, count: nat, subtable: nat)
    requires i <= count
    ensures FindSubtable(font, cmap, i, count) == Some(subtable)
      <==> exists k :: FirstFrom(font, cmap, i, count, k, subtable)
    decreases count - i
  {
    hide GetBe16, GetBe32;
    if i < count {
      var next := i + 1;
      FoundFrom(font, cmap, next, count, subtable);
      if LeadsTo(font, cmap, i, subtable) { assert FirstFrom(font, cmap, i, count, i, subtable); }
      if k :| FirstFrom(font, cmap, next, count, k, subtable) {
        assert PassedOver(font, cmap, i) ==> FirstFrom(font, cmap, i, count, k, subtable);
      }
      if k :| FirstFrom(font, cmap, i, count, k, subtable) {
        if k > i { assert PassedOver(font, cmap, i) && FirstFrom(font, cmap, next, count, k, subtable); }
      }
    }
  }

  // The subtable is that of the first record for the BMP whose subtable has format 4, all before it being readable.
  lemma {:induction false} SubtableIsFirst(font: Bytes, cmap: nat, count: nat, subtable: nat)
    ensures FindSubtable(font, cmap, 0, count) == Some(subtable)
      <==> exists k :: FirstFrom(font, cmap, 0, count, k, subtable)
  {
    FoundFrom(font, cmap, 0, count, subtable);
  }
}
