/**
 Records as tables of fields: big-endian numbers of any width, field tables that tile a record, and what
 writing one field does to a zeroed buffer.
 */
module CodecLayout {
  import opened Pieces
  import opened Bytes

  // ---- Big-endian numbers of n bytes ----

  function Pow256(n: nat): (p: nat)
    ensures p >= 1
  {
    if n == 0 then 1 else 256 * Pow256(n - 1)
  }

  // The low n bytes of v, most significant first.
  function Be(v: nat, n: nat): (r: Bytes)
    ensures |r| == n
  {
    if n == 0 then [] else Be(v / 256, n - 1) + [v % 256]
  }

  function GetBe(s: Bytes, i: nat, n: nat): (v: nat)
    requires i + n <= |s|
    ensures v < Pow256(n)
  {
    if n == 0 then 0 else 256 * GetBe(s, i, n - 1) + s[i + n - 1] as nat
  }

  // The bytes at i read as v exactly when they are v written out.
  lemma {:induction false} NumberIsItsBytes(s: Bytes, i: nat, n: nat, v: nat)
    requires i + n <= |s| && v < Pow256(n)
    ensures GetBe(s, i, n) == v <==> Spans(s, i, i + n, Be(v, n))
  {
    if n > 0 {
      NumberIsItsBytes(s, i, n - 1, v / 256);
      Split(s, i, Be(v / 256, n - 1), [v % 256]);
      Single(s, i + n - 1, v % 256);
    }
  }

  // Two and four bytes are the big-endian words of the file formats.
  lemma {:induction false} WordsAreBigEndian(v: nat, w: nat)
    requires v < U16 && w < U32
    ensures Be(v, 2) == Be16(v) && Be(w, 4) == Be32(w)
  {
    assert Be(v, 2) == Be(v / 256, 1) + [v % 256];
    assert Be(v / 256, 1) == Be(v / 256 / 256, 0) + [v / 256 % 256];
    assert w / 65536 == w / 256 / 256 && w / 16777216 == w / 256 / 256 / 256;
    assert Be(w, 4) == Be(w / 256, 3) + [w % 256];
    assert Be(w / 256, 3) == Be(w / 256 / 256, 2) + [w / 256 % 256];
    assert Be(w / 65536, 2) == Be(w / 65536 / 256, 1) + [w / 65536 % 256];
    assert Be(w / 16777216, 1) == Be(w / 16777216 / 256, 0) + [w / 16777216 % 256];
  }

  lemma {:induction false} ZeroIsZeros(n: nat)
    ensures Be(0, n) == Zeros(n)
  {
    if n > 0 { ZeroIsZeros(n - 1); }
  }

  lemma {:induction false} Pow256Values()
    ensures Pow256(2) == U16 && Pow256(4) == U32 && Pow256(8) == U64
  {
    assert Pow256(4) == 256 * (256 * Pow256(2));
    assert Pow256(6) == 256 * (256 * Pow256(4));
    assert Pow256(8) == 256 * (256 * Pow256(6));
  }

  // ---- Field tables ----

  datatype Field = Field(offset: nat, size: nat)

  // The fields follow each other with neither gap nor overlap, from `start` to `end`.
  predicate Tile(fields: seq<Field>, start: nat, end: nat) {
    if fields == [] then start == end
    else fields[0].offset == start && Tile(fields[1..], start + fields[0].size, end)
  }

  // A table whose neighbours meet tiles the record.
  lemma {:induction false} Chain(fields: seq<Field>, start: nat, end: nat)
    requires |fields| > 0 && fields[0].offset == start && fields[|fields| - 1].offset + fields[|fields| - 1].size == end
    requires forall i :: 1 <= i < |fields| ==> fields[i].offset == fields[i - 1].offset + fields[i - 1].size
    ensures Tile(fields, start, end)
  {
    if |fields| > 1 { Chain(fields[1..], start + fields[0].size, end); }
  }

  predicate Covers(f: Field, k: nat) { f.offset <= k < f.offset + f.size }

  // Every byte of a tiled record belongs to exactly one field.
  lemma {:induction false} TiledByteHasOneField(fields: seq<Field>, start: nat, end: nat, k: nat)
    requires Tile(fields, start, end)
    ensures start <= end
    ensures start <= k < end <==> exists i :: 0 <= i < |fields| && Covers(fields[i], k)
    ensures forall i, j ::
      0 <= i < |fields| && 0 <= j < |fields| && Covers(fields[i], k) && Covers(fields[j], k) ==> i == j
  {
    if fields != [] {
      var next := start + fields[0].size;
      TiledByteHasOneField(fields[1..], next, end, k);
      if Covers(fields[0], k) {
        forall i | 0 < i < |fields| ensures !Covers(fields[i], k) { assert fields[i] == fields[1..][i - 1]; }
      } else {
        forall i | 0 < i < |fields| ensures fields[i] == fields[1..][i - 1] {}
        if next <= k < end {
          var i :| 0 <= i < |fields[1..]| && Covers(fields[1..][i], k);
          assert Covers(fields[i + 1], k);
        }
      }
    }
  }

  predicate Fit(fields: seq<Field>, values: seq<Bytes>) {
    |fields| == |values| && forall i :: 0 <= i < |values| ==> |values[i]| == fields[i].size
  }

  function Layout(values: seq<Bytes>): Bytes {
    if values == [] then [] else values[0] + Layout(values[1..])
  }

  lemma {:induction false} LayoutConcat(a: seq<Bytes>, b: seq<Bytes>)
    ensures Layout(a + b) == Layout(a) + Layout(b)
  {
    if a == [] {
      assert a + b == b;
    } else {
      LayoutConcat(a[1..], b);
      assert (a + b)[1..] == a[1..] + b;
      Associate(a[0], Layout(a[1..]), Layout(b));
    }
  }

  lemma {:induction false} Associate(a: Bytes, b: Bytes, c: Bytes)
    ensures a + (b + c) == a + b + c
  {
  }

  // In a tiled record each value stands at its own offset, and that is all there is.
  lemma {:induction false} FieldsMakeTheRecord(text: Bytes, fields: seq<Field>, values: seq<Bytes>, start: nat,
        end: nat)
    requires Tile(fields, start, end) && Fit(fields, values)
    ensures (
      Occurs(text, start, Layout(values))
      <==> end <= |text| && forall i :: 0 <= i < |fields| ==> Occurs(text, fields[i].offset, values[i]))
    ensures start + |Layout(values)| == end
    decreases |fields|
  {
    if fields == [] {
    } else {
      FieldsMakeTheRecord(text, fields[1..], values[1..], start + fields[0].size, end);
      Split(text, start, values[0], Layout(values[1..]));
      ShiftFields(text, fields, values);
    }
  }

  lemma {:induction false} ShiftFields(text: Bytes, fields: seq<Field>, values: seq<Bytes>)
    requires |fields| == |values| > 0
    ensures (
      (forall i :: 0 <= i < |fields| ==> Occurs(text, fields[i].offset, values[i]))
      <==> (
        Occurs(text, fields[0].offset, values[0])
        && (forall i :: 0 <= i < |fields[1..]| ==> Occurs(text, fields[1..][i].offset, values[1..][i]))))
  {
    if forall i :: 0 <= i < |fields[1..]| ==> Occurs(text, fields[1..][i].offset, values[1..][i]) {
      forall i | 0 < i < |fields| ensures Occurs(text, fields[i].offset, values[i]) {
        assert Occurs(text, fields[1..][i - 1].offset, values[1..][i - 1]);
      }
    }
  }

  // Where the k-th value starts.
  lemma {:induction false} OffsetOf(fields: seq<Field>, values: seq<Bytes>, k: nat, start: nat, end: nat)
    requires Tile(fields, start, end) && Fit(fields, values) && k < |fields|
    ensures start + |Layout(values[..k])| == fields[k].offset && fields[k].offset + fields[k].size <= end
    ensures Layout(values[..k + 1]) == Layout(values[..k]) + values[k]
    decreases k
  {
    LayoutConcat(values[..k], [values[k]]);
    assert values[..k + 1] == values[..k] + [values[k]];
    if k > 0 {
      OffsetOf(fields[1..], values[1..], k - 1, start + fields[0].size, end);
      assert values[..k][1..] == values[1..][..k - 1];
    } else {
      TiledByteHasOneField(fields[1..], start + fields[0].size, end, 0);
    }
  }

  // ---- Writing fields into a buffer ----

  function Put(s: Bytes, at: nat, t: Bytes): (r: Bytes)
    requires at + |t| <= |s|
    ensures |r| == |s|
  {
    s[..at] + t + s[at + |t|..]
  }

  // What has been written so far, then zeros.
  function Page(p: Bytes, size: nat): (r: Bytes)
    requires |p| <= size
    ensures |r| == size
  {
    p + Zeros(size - |p|)
  }

  lemma {:induction false} PutAtEnd(p: Bytes, t: Bytes, size: nat)
    requires |p| + |t| <= size
    ensures Put(Page(p, size), |p|, t) == Page(p + t, size)
    ensures t == Zeros(|t|) ==> Page(p, size) == Page(p + t, size)
  {
  }

  // Writing the next field; a field that is zero needs no write.
  lemma {:induction false} FieldWritten(fields: seq<Field>, values: seq<Bytes>, k: nat, end: nat, size: nat)
    requires Tile(fields, 0, end) && Fit(fields, values) && k < |fields| && end <= size
    ensures fields[k].offset + fields[k].size <= end && |Layout(values[..k])| == fields[k].offset
    ensures |Layout(values[..k + 1])| == fields[k].offset + fields[k].size
    ensures Put(Page(Layout(values[..k]), size), fields[k].offset, values[k]) == Page(Layout(values[..k + 1]), size)
    ensures values[k] == Zeros(fields[k].size)
      ==> Page(Layout(values[..k]), size) == Page(Layout(values[..k + 1]), size)
  {
    OffsetOf(fields, values, k, 0, end);
    PutAtEnd(Layout(values[..k]), values[k], size);
  }
}
