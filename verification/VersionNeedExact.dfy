/**
 Version requirements as bytes: a section yields given files, version names and indices exactly when its headers and
 entries are the printed form of them (Linux Standard Base, "Version Requirements").
 */
module VersionNeedExact {
  import opened Wrappers
  import opened Pieces
  import opened Bytes
  import opened VersionNeed

  // vn_version, vn_cnt, vn_file, vn_aux, vn_next.
  function Verneed(count: nat, file: nat, aux: nat, next: nat): (r: Bytes)
    requires count < U16 && file < U32 && aux < U32 && next < U32
    ensures |r| == 16
  {
    Le16(1) + (Le16(count) + (Le32(file) + (Le32(aux) + Le32(next))))
  }

  // vna_hash, vna_flags, vna_other, vna_name, vna_next.
  function Vernaux(hash: nat, index: nat, name: nat, next: nat): (r: Bytes)
    requires hash < U32 && index < U16 && name < U32 && next < U32
    ensures |r| == 16
  {
    Le32(hash) + (Le16(0) + (Le16(index) + (Le32(name) + Le32(next))))
  }

  // An ASCII string and its terminator stand at the offset.
  predicate StringAt(strings: Bytes, offset: nat, s: Bytes) {
    0 !in s && (forall i :: 0 <= i < |s| ==> s[i] < 128) && Occurs(strings, offset, s + [0])
  }

  // ---- The printed section ----

  // The entry's sixteen bytes stand at its place, whatever its hash.
  ghost predicate EntryStands(t: Table, a: Aux, next: nat) {
    && a.index < U16 && next < U32
    && exists hash: nat, name: nat :: EntryReads(t, a, next, hash, name)
  }

  predicate EntryReads(t: Table, a: Aux, next: nat, hash: nat, name: nat)
    requires a.index < U16 && next < U32
  {
    && hash < U32 && name < U32 && StringAt(t.strings, name, a.name)
    && Occurs(t.data, a.at, Vernaux(hash, a.index, name, next))
  }

  // Each entry leads to the next one, sixteen bytes or more behind it; the last leads nowhere.
  ghost predicate EntriesStand(t: Table, entries: seq<Aux>)
    decreases |entries|
  {
    && entries != [] && entries[0].at + 16 <= t.end
    && if |entries| == 1 then EntryStands(t, entries[0], 0)
      else
        && entries[0].at + 16 <= entries[1].at
        && EntryStands(t, entries[0], entries[1].at - entries[0].at) && EntriesStand(t, entries[1..])
  }

  // The block's header stands at its place and leads to its entries.
  ghost predicate HeaderStands(t: Table, b: Block, next: nat)
    requires b.entries != []
  {
    && |b.entries| < U16 && next < U32 && b.at + 16 <= b.entries[0].at < b.at + U32
    && exists file: nat :: HeaderReads(t, b, next, file)
  }

  predicate HeaderReads(t: Table, b: Block, next: nat, file: nat)
    requires b.entries != [] && |b.entries| < U16 && next < U32 && b.at + 16 <= b.entries[0].at < b.at + U32
  {
    && file < U32 && StringAt(t.strings, file, b.file)
    && Occurs(t.data, b.at, Verneed(|b.entries|, file, b.entries[0].at - b.at, next))
  }

  // Each block leads to the next one, which starts where its entries end; the last ends with the section.
  ghost predicate BlocksStand(t: Table, bs: seq<Block>)
    decreases |bs|
  {
    && bs != [] && bs[0].entries != [] && EntriesStand(t, bs[0].entries) && bs[0].at < BlockEnd(bs[0])
    && if |bs| == 1 then BlockEnd(bs[0]) == t.end && HeaderStands(t, bs[0], 0)
      else
        && bs[1].at == BlockEnd(bs[0])
        && HeaderStands(t, bs[0], bs[1].at - bs[0].at) && BlocksStand(t, bs[1..])
  }

  // ---- Fields ----

  lemma {:induction false} Word16Over(data: Bytes, i: nat, v: nat)
    requires v < U16 && Occurs(data, i, Le16(v))
    ensures GetLe16(data, i) == v
  {
    var d := Le16(v);
    assert data[i + 0] == d[0] && data[i + 1] == d[1];
  }

  lemma {:induction false} Word32Over(data: Bytes, i: nat, v: nat)
    requires v < U32 && Occurs(data, i, Le32(v))
    ensures GetLe32(data, i) == v
  {
    hide Le32;
    var d := Le32(v);
    Le32Value(v);
    assert data[i + 0] == d[0] && data[i + 1] == d[1] && data[i + 2] == d[2] && data[i + 3] == d[3];
  }

  lemma {:induction false} Word16Read(data: Bytes, i: nat)
    requires i + 2 <= |data|
    ensures Occurs(data, i, Le16(GetLe16(data, i)))
  {
  }

  lemma {:induction false} Word32Read(data: Bytes, i: nat)
    requires i + 4 <= |data|
    ensures Occurs(data, i, Le32(GetLe32(data, i)))
  {
    Le32Digits(data[i], data[i + 1], data[i + 2], data[i + 3]);
  }

  lemma {:induction false} HeaderFields(data: Bytes, at: nat, count: nat, file: nat, aux: nat, next: nat)
    requires count < U16 && file < U32 && aux < U32 && next < U32
    ensures Occurs(data, at, Verneed(count, file, aux, next)) <==>
      (at + 16 <= |data| && GetLe16(data, at) == 1 && GetLe16(data, at + 2) == count && GetLe32(data, at + 4) == file
      && GetLe32(data, at + 8) == aux && GetLe32(data, at + 12) == next)
  {
    hide Occurs, Le16, Le32, GetLe16, GetLe32;
    Split(data, at, Le16(1), Le16(count) + (Le32(file) + (Le32(aux) + Le32(next))));
    Split(data, at + 2, Le16(count), Le32(file) + (Le32(aux) + Le32(next)));
    Split(data, at + 4, Le32(file), Le32(aux) + Le32(next));
    Split(data, at + 8, Le32(aux), Le32(next));
    if Occurs(data, at, Verneed(count, file, aux, next)) {
      Inside16(data, at, Verneed(count, file, aux, next));
      Word16Over(data, at, 1);
      Word16Over(data, at + 2, count);
      Word32Over(data, at + 4, file);
      Word32Over(data, at + 8, aux);
      Word32Over(data, at + 12, next);
    } else if at + 16 <= |data| {
      Word16Read(data, at);
      Word16Read(data, at + 2);
      Word32Read(data, at + 4);
      Word32Read(data, at + 8);
      Word32Read(data, at + 12);
    }
  }

  lemma {:induction false} EntryFields(data: Bytes, at: nat, hash: nat, index: nat, name: nat, next: nat)
    requires hash < U32 && index < U16 && name < U32 && next < U32
    ensures Occurs(data, at, Vernaux(hash, index, name, next)) <==>
      (at + 16 <= |data| && GetLe32(data, at) == hash && GetLe16(data, at + 4) == 0 && GetLe16(data, at + 6) == index
      && GetLe32(data, at + 8) == name && GetLe32(data, at + 12) == next)
  {
    hide Occurs, Le16, Le32, GetLe16, GetLe32;
    Split(data, at, Le32(hash), Le16(0) + (Le16(index) + (Le32(name) + Le32(next))));
    Split(data, at + 4, Le16(0), Le16(index) + (Le32(name) + Le32(next)));
    Split(data, at + 6, Le16(index), Le32(name) + Le32(next));
    Split(data, at + 8, Le32(name), Le32(next));
    if Occurs(data, at, Vernaux(hash, index, name, next)) {
      Inside16(data, at, Vernaux(hash, index, name, next));
      Word32Over(data, at, hash);
      Word16Over(data, at + 4, 0);
      Word16Over(data, at + 6, index);
      Word32Over(data, at + 8, name);
      Word32Over(data, at + 12, next);
    } else if at + 16 <= |data| {
      Word32Read(data, at);
      Word16Read(data, at + 4);
      Word16Read(data, at + 6);
      Word32Read(data, at + 8);
      Word32Read(data, at + 12);
    }
  }

  lemma {:induction false} Inside16(data: Bytes, at: nat, s: Bytes)
    requires Occurs(data, at, s)
    ensures at + |s| <= |data|
  {
  }

  // ---- Strings ----

  lemma {:induction false} FirstNul(s: Bytes, i: nat)
    requires i <= |s|
    ensures FindNul(s, i).Some? ==> 0 !in s[i..FindNul(s, i).value]
    ensures FindNul(s, i).None? ==> 0 !in s[i..]
    decreases |s| - i
  {
    if i < |s| && s[i] != 0 {
      FirstNul(s, i + 1);
      var end := FindNul(s, i);
      if end.Some? { assert s[i..end.value] == [s[i]] + s[i + 1..end.value]; }
      assert s[i..] == [s[i]] + s[i + 1..];
    }
  }

  // The program's string at an offset is the terminated ASCII string that stands there.
  lemma {:induction false} StringIsExact(strings: Bytes, offset: nat, s: Bytes)
    ensures CString(strings, offset) == Some(s) <==> StringAt(strings, offset, s)
  {
    if offset < |strings| {
      FirstNul(strings, offset);
      var end := FindNul(strings, offset);
      if CString(strings, offset) == Some(s) {
        Single(strings, end.value, 0);
        Split(strings, offset, s, [0]);
        assert Occurs(strings, offset, s);
      }
      if StringAt(strings, offset, s) {
        Split(strings, offset, s, [0]);
        Single(strings, offset + |s|, 0);
        assert strings[offset..offset + |s|] == s;
        SameNul(strings, offset, offset + |s|);
      }
    } else if StringAt(strings, offset, s) {
      Inside16(strings, offset, s + [0]);
    }
  }

  lemma {:induction false} SameNul(s: Bytes, i: nat, k: nat)
    requires i <= k < |s| && s[k] == 0 && 0 !in s[i..k]
    ensures FindNul(s, i) == Some(k)
    decreases k - i
  {
    if i < k {
      assert s[i..k][0] == s[i];
      assert s[i..k][1..] == s[i + 1..k];
      SameNul(s, i + 1, k);
    }
  }

  // ---- One entry, one header ----

  lemma {:induction false} EntryIsExact(t: Table, a: Aux, next: nat, used: set<nat>)
    requires ValidTable(t)
    ensures AuxAt(t, a.at, used) == Some((a, next)) <==>
      a.at + 16 <= t.end && a.index > 1 && a.index !in used && EntryStands(t, a, next)
  {
    hide Occurs, GetLe16, GetLe32, CString, StringAt;
    if a.at + 16 <= t.end {
      var hash, index, name := GetLe32(t.data, a.at), GetLe16(t.data, a.at + 6), GetLe32(t.data, a.at + 8);
      var after := GetLe32(t.data, a.at + 12);
      StringIsExact(t.strings, name, a.name);
      EntryFields(t.data, a.at, hash, index, name, after);
      if AuxAt(t, a.at, used) == Some((a, next)) { assert EntryReads(t, a, next, hash, name); }
      if EntryStands(t, a, next) {
        var h: nat, n: nat :| EntryReads(t, a, next, h, n);
        EntryFields(t.data, a.at, h, a.index, n, next);
      }
    }
  }

  lemma {:induction false} ChainIsExact(t: Table, at: nat, count: nat, used: set<nat>, entries: seq<Aux>)
    requires ValidTable(t) && count > 0
    ensures AuxChain(t, at, count, used) == Some(entries) <==>
      |entries| == count && entries[0].at == at && EntriesStand(t, entries) && FreshIndices(entries, used)
    decreases count
  {
    hide AuxAt, EntryStands, FreshIndices;
    if |entries| == count {
      var a := entries[0];
      FreshTail(entries, used);
      if count == 1 {
        EntryIsExact(t, a, 0, used);
        assert entries == [a];
        NothingFresh(used + {a.index});
        assert [a][1..] == [];
      } else {
        ChainTail(t, at, count, used, entries);
      }
    }
  }

  lemma {:induction false} ChainTail(t: Table, at: nat, count: nat, used: set<nat>, entries: seq<Aux>)
    requires ValidTable(t) && count > 1 && |entries| == count
    ensures AuxChain(t, at, count, used) == Some(entries) <==>
      entries[0].at == at && EntriesStand(t, entries) && FreshIndices(entries, used)
    decreases count, 0
  {
    hide AuxAt, EntryStands, FreshIndices, EntriesStand;
    var a, rest := entries[0], entries[1..];
    assert entries == [a] + rest && rest[0] == entries[1];
    FreshTail(entries, used);
    UnfoldEntries(t, entries);
    var more := used + {a.index};
    ChainIsExact(t, rest[0].at, count - 1, more, rest);
    if AuxChain(t, at, count, used) == Some(entries) {
      var (aux, next) := AuxAt(t, at, used).value;
      var tail := AuxChain(t, at + next, count - 1, used + {aux.index}).value;
      assert entries == [aux] + tail;
      assert a == aux && rest == tail;
      ChainIsExact(t, at + next, count - 1, more, rest);
      EntryIsExact(t, a, next, used);
    }
    if a.at == at && EntriesStand(t, entries) && FreshIndices(entries, used) {
      var next := rest[0].at - at;
      EntryIsExact(t, a, next, used);
      StandsInside(t, rest);
    }
  }

  lemma {:induction false} NothingFresh(used: set<nat>)
    ensures FreshIndices([], used)
  {
  }

  lemma {:induction false} StandsInside(t: Table, entries: seq<Aux>)
    requires EntriesStand(t, entries)
    ensures entries[0].at + 16 <= t.end
  {
  }

  lemma {:induction false} UnfoldEntries(t: Table, entries: seq<Aux>)
    requires |entries| > 1
    ensures EntriesStand(t, entries) <==>
      entries[0].at + 16 <= t.end && entries[0].at + 16 <= entries[1].at
      && EntryStands(t, entries[0], entries[1].at - entries[0].at) && EntriesStand(t, entries[1..])
  {
  }

  lemma {:induction false} FreshTail(entries: seq<Aux>, used: set<nat>)
    requires entries != []
    ensures FreshIndices(entries, used) <==>
      entries[0].index > 1 && entries[0].index !in used && FreshIndices(entries[1..], used + {entries[0].index})
  {
    var rest := entries[1..];
    forall i | 0 <= i < |rest| ensures rest[i] == entries[i + 1] {}
    if entries[0].index > 1 && entries[0].index !in used && FreshIndices(rest, used + {entries[0].index}) {
      forall i | 0 <= i < |entries| ensures entries[i].index > 1 && entries[i].index !in used {
        if i > 0 { assert rest[i - 1].index !in used + {entries[0].index}; }
      }
      forall i, j | 0 <= i < j < |entries| ensures entries[i].index != entries[j].index {
        assert rest[j - 1].index !in used + {entries[0].index};
        if i > 0 { assert rest[i - 1].index != rest[j - 1].index; }
      }
    }
  }

  lemma {:induction false} HeaderIsExact(t: Table, b: Block, next: nat, used: set<nat>)
    requires ValidTable(t) && b.entries != []
    ensures BlockAt(t, b.at, used) == Some((b, next)) <==>
      b.at + 16 <= t.end && HeaderStands(t, b, next) && EntriesStand(t, b.entries) && FreshIndices(b.entries, used)
  {
    hide Occurs, GetLe16, GetLe32, CString, StringAt, AuxChain, EntriesStand, FreshIndices;
    if b.at + 16 <= t.end {
      var count, file, aux := GetLe16(t.data, b.at + 2), GetLe32(t.data, b.at + 4), GetLe32(t.data, b.at + 8);
      var after := GetLe32(t.data, b.at + 12);
      StringIsExact(t.strings, file, b.file);
      if count > 0 { ChainIsExact(t, b.at + aux, count, used, b.entries); }
      HeaderFields(t.data, b.at, count, file, aux, after);
      if BlockAt(t, b.at, used) == Some((b, next)) { assert HeaderReads(t, b, next, file); }
      if HeaderStands(t, b, next) {
        var f: nat :| HeaderReads(t, b, next, f);
        HeaderFields(t.data, b.at, |b.entries|, f, b.entries[0].at - b.at, next);
      }
    }
  }

  // ---- The section ----

  lemma {:induction false} FreshBlocks(bs: seq<Block>, used: set<nat>)
    requires bs != []
    ensures FreshIndices(Entries(bs), used) <==>
      FreshIndices(bs[0].entries, used) && FreshIndices(Entries(bs[1..]), used + Indices(bs[0].entries))
  {
    var a, b := bs[0].entries, Entries(bs[1..]);
    assert Entries(bs) == a + b;
    if FreshIndices(a, used) && FreshIndices(b, used + Indices(a)) { FreshAfter(a, b, used); }
    if FreshIndices(a + b, used) { FreshSplit(a, b, used); }
  }

  lemma {:induction false} FreshSplit(a: seq<Aux>, b: seq<Aux>, used: set<nat>)
    requires FreshIndices(a + b, used)
    ensures FreshIndices(a, used) && FreshIndices(b, used + Indices(a))
  {
    var e := a + b;
    forall i | 0 <= i < |a| ensures a[i] == e[i] {}
    forall i | 0 <= i < |b| ensures b[i] == e[|a| + i] {}
    forall i, j | 0 <= i < |b| && 0 <= j < |a| ensures a[j].index != b[i].index {
      assert e[j].index != e[|a| + i].index;
    }
  }

  lemma {:induction false} UnfoldBlocks(t: Table, bs: seq<Block>)
    requires |bs| > 1 && bs[0].entries != []
    ensures BlocksStand(t, bs) <==>
      EntriesStand(t, bs[0].entries) && bs[0].at < BlockEnd(bs[0]) && bs[1].at == BlockEnd(bs[0])
      && HeaderStands(t, bs[0], bs[1].at - bs[0].at) && BlocksStand(t, bs[1..])
  {
  }

  lemma {:induction false} UnfoldBlock(t: Table, b: Block)
    requires b.entries != []
    ensures BlocksStand(t, [b]) <==>
      EntriesStand(t, b.entries) && b.at < BlockEnd(b) && BlockEnd(b) == t.end && HeaderStands(t, b, 0)
  {
  }

  lemma {:induction false} BlocksAreExact(t: Table, at: nat, count: nat, used: set<nat>, bs: seq<Block>)
    requires ValidTable(t) && count > 0
    ensures Blocks(t, at, count, used) == Some(bs) <==>
      |bs| == count && bs[0].at == at && BlocksStand(t, bs) && FreshIndices(Entries(bs), used)
    decreases count
  {
    hide BlockAt, HeaderStands, FreshIndices, EntriesStand, BlocksStand, Entries, Indices;
    if |bs| == count {
      FreshBlocks(bs, used);
      if count == 1 { OneBlock(t, at, used, bs); } else { MoreBlocks(t, at, count, used, bs); }
    }
  }

  lemma {:induction false} OneBlock(t: Table, at: nat, used: set<nat>, bs: seq<Block>)
    requires ValidTable(t) && |bs| == 1
    ensures Blocks(t, at, 1, used) == Some(bs) <==>
      bs[0].at == at && BlocksStand(t, bs) && FreshIndices(Entries(bs), used)
  {
    hide BlockAt, HeaderStands, FreshIndices, EntriesStand;
    var b := bs[0];
    assert bs == [b];
    Alone(b);
    if b.entries != [] {
      UnfoldBlock(t, b);
      HeaderIsExact(t, b, 0, used);
      if HeaderStands(t, b, 0) && EntriesStand(t, b.entries) { EndsInside(t, b, 0); }
    }
  }

  // A block's header ends before its entries do, which end inside the section.
  lemma {:induction false} EndsInside(t: Table, b: Block, next: nat)
    requires b.entries != [] && HeaderStands(t, b, next) && EntriesStand(t, b.entries)
    ensures b.at + 16 <= t.end && b.at < BlockEnd(b)
  {
    LastBehindFirst(t, b.entries);
  }

  lemma {:induction false} LastBehindFirst(t: Table, entries: seq<Aux>)
    requires EntriesStand(t, entries)
    ensures entries[0].at <= entries[|entries| - 1].at
    decreases |entries|
  {
    hide EntryStands;
    if |entries| > 1 { LastBehindFirst(t, entries[1..]); }
  }

  lemma {:induction false} MoreBlocks(t: Table, at: nat, count: nat, used: set<nat>, bs: seq<Block>)
    requires ValidTable(t) && count > 1 && |bs| == count
    ensures Blocks(t, at, count, used) == Some(bs) <==>
      bs[0].at == at && BlocksStand(t, bs) && FreshIndices(Entries(bs), used)
    decreases count, 0
  {
    hide BlockAt, HeaderStands, FreshIndices, EntriesStand, BlocksStand, Entries, Indices;
    var b, rest := bs[0], bs[1..];
    assert bs == [b] + rest && rest[0] == bs[1];
    FreshBlocks(bs, used);
    var more := used + Indices(b.entries);
    BlocksAreExact(t, rest[0].at, count - 1, more, rest);
    if Blocks(t, at, count, used) == Some(bs) {
      var (first, next) := BlockAt(t, at, used).value;
      var tail := Blocks(t, at + next, count - 1, used + Indices(first.entries)).value;
      assert bs == [first] + tail;
      assert b == first && rest == tail;
      BlocksAreExact(t, at + next, count - 1, more, rest);
      HeaderIsExact(t, b, next, used);
      UnfoldBlocks(t, bs);
      EndsInside(t, b, next);
    }
    if b.at == at && BlocksStand(t, bs) && FreshIndices(Entries(bs), used) {
      HasEntries(t, bs);
      UnfoldBlocks(t, bs);
      var next := rest[0].at - at;
      EndsInside(t, b, next);
      HeaderIsExact(t, b, next, used);
      LastBehindFirst(t, b.entries);
      NextIsFar(t, b, next);
    }
  }

  lemma {:induction false} HasEntries(t: Table, bs: seq<Block>)
    requires BlocksStand(t, bs)
    ensures bs[0].entries != []
  {
  }

  lemma {:induction false} NextIsFar(t: Table, b: Block, next: nat)
    requires b.entries != [] && HeaderStands(t, b, next) && EntriesStand(t, b.entries)
    ensures BlockEnd(b) - b.at >= 16
  {
    LastBehindFirst(t, b.entries);
  }

  // A section yields given blocks exactly when it is their printed form, with fresh version indices.
  lemma {:induction false} SectionIsExact(t: Table, start: nat, count: nat, bs: seq<Block>)
    requires ValidTable(t) && count > 0
    ensures Blocks(t, start, count, {}) == Some(bs) <==>
      |bs| == count && bs[0].at == start && BlocksStand(t, bs) && FreshIndices(Entries(bs), {})
  {
    BlocksAreExact(t, start, count, {}, bs);
  }

  ghost predicate SectionYields(t: Table, start: nat, count: nat, bs: seq<Block>) {
    count > 0 && |bs| == count && bs[0].at == start && BlocksStand(t, bs) && FreshIndices(Entries(bs), {})
  }

  // ---- Versions by index ----

  // Some entry carries the index; the version is its block's file and its own name.
  ghost predicate Named(bs: seq<Block>, index: nat, version: (Bytes, Bytes)) {
    exists i, j :: EntryNames(bs, i, j, index, version)
  }

  predicate EntryNames(bs: seq<Block>, i: int, j: int, index: nat, version: (Bytes, Bytes)) {
    && 0 <= i < |bs| && 0 <= j < |bs[i].entries| && bs[i].entries[j].index == index
    && version == (bs[i].file, bs[i].entries[j].name)
  }

  lemma {:induction false} EntriesKeep(names: Names, file: Bytes, entries: seq<Aux>, k: nat)
    requires k !in Indices(entries)
    ensures k in AddEntries(names, file, entries) <==> k in names
    ensures k in names ==> AddEntries(names, file, entries)[k] == names[k]
    decreases |entries|
  {
    if entries != [] {
      assert entries[0].index in Indices(entries);
      TailIndices(entries, k);
      EntriesKeep(names[entries[0].index := (file, entries[0].name)], file, entries[1..], k);
    }
  }

  lemma {:induction false} TailIndices(entries: seq<Aux>, k: nat)
    requires entries != [] && k !in Indices(entries)
    ensures k !in Indices(entries[1..])
  {
    forall i | 0 <= i < |entries[1..]| ensures entries[1..][i].index != k {
      assert entries[i + 1].index in Indices(entries);
    }
  }

  lemma {:induction false} EntriesRecord(names: Names, file: Bytes, entries: seq<Aux>, j: nat)
    requires j < |entries| && forall a, b :: 0 <= a < b < |entries| ==> entries[a].index != entries[b].index
    ensures entries[j].index in AddEntries(names, file, entries)
    ensures AddEntries(names, file, entries)[entries[j].index] == (file, entries[j].name)
    decreases |entries|
  {
    var rest, more := entries[1..], names[entries[0].index := (file, entries[0].name)];
    forall a, b | 0 <= a < b < |rest| ensures rest[a].index != rest[b].index {
      assert entries[a + 1].index != entries[b + 1].index;
    }
    if j == 0 {
      forall b | 0 <= b < |rest| ensures rest[b].index != entries[0].index { assert rest[b] == entries[b + 1]; }
      EntriesKeep(more, file, rest, entries[0].index);
    } else {
      assert rest[j - 1] == entries[j];
      EntriesRecord(more, file, rest, j - 1);
    }
  }

  lemma {:induction false} BlocksKeep(names: Names, bs: seq<Block>, k: nat)
    requires k !in Indices(Entries(bs))
    ensures k in AddBlocks(names, bs) <==> k in names
    ensures k in names ==> AddBlocks(names, bs)[k] == names[k]
    decreases |bs|
  {
    if bs != [] {
      IndicesConcat(bs[0].entries, Entries(bs[1..]));
      EntriesKeep(names, bs[0].file, bs[0].entries, k);
      BlocksKeep(AddEntries(names, bs[0].file, bs[0].entries), bs[1..], k);
    }
  }

  lemma {:induction false} BlocksRecord(names: Names, bs: seq<Block>, used: set<nat>, i: nat, j: nat)
    requires i < |bs| && j < |bs[i].entries| && FreshIndices(Entries(bs), used)
    ensures var a := bs[i].entries[j];
      a.index in AddBlocks(names, bs) && AddBlocks(names, bs)[a.index] == (bs[i].file, a.name)
    decreases |bs|
  {
    hide AddEntries, Entries;
    FreshBlocks(bs, used);
    var more := AddEntries(names, bs[0].file, bs[0].entries);
    if i == 0 {
      var a := bs[0].entries[j];
      EntriesRecord(names, bs[0].file, bs[0].entries, j);
      assert a.index in Indices(bs[0].entries);
      FreshAreOut(Entries(bs[1..]), used + Indices(bs[0].entries), a.index);
      BlocksKeep(more, bs[1..], a.index);
    } else {
      assert bs[1..][i - 1] == bs[i];
      BlocksRecord(more, bs[1..], used + Indices(bs[0].entries), i - 1, j);
    }
  }

  lemma {:induction false} FreshAreOut(entries: seq<Aux>, used: set<nat>, k: nat)
    requires FreshIndices(entries, used) && k in used
    ensures k !in Indices(entries)
  {
  }

  lemma {:induction false} IndexFrom(bs: seq<Block>, k: nat) returns (i: nat, j: nat)
    requires k in Indices(Entries(bs))
    ensures i < |bs| && j < |bs[i].entries| && bs[i].entries[j].index == k
    decreases |bs|
  {
    if bs == [] {
      assert false;
    } else {
      IndicesConcat(bs[0].entries, Entries(bs[1..]));
      if k in Indices(bs[0].entries) {
        i := 0;
        j :| 0 <= j < |bs[0].entries| && bs[0].entries[j].index == k;
      } else {
        var m: nat;
        m, j := IndexFrom(bs[1..], k);
        i := m + 1;
      }
    }
  }

  // The walk's table names exactly the entries' indices.
  lemma {:induction false} NamesAreEntries(bs: seq<Block>, index: nat)
    requires FreshIndices(Entries(bs), {})
    ensures index in AddBlocks(map[], bs) <==> exists version :: Named(bs, index, version)
    ensures index in AddBlocks(map[], bs) ==> Named(bs, index, AddBlocks(map[], bs)[index])
  {
    hide AddBlocks, Entries, Indices;
    AddBlocksKeys(map[], bs);
    var names: Names := map[];
    assert names.Keys == {};
    if index in AddBlocks(map[], bs) {
      var i, j := IndexFrom(bs, index);
      BlocksRecord(map[], bs, {}, i, j);
      assert EntryNames(bs, i, j, index, AddBlocks(map[], bs)[index]);
      assert Named(bs, index, AddBlocks(map[], bs)[index]);
    }
    if version :| Named(bs, index, version) { NamedIsRecorded(bs, index, version); }
  }

  lemma {:induction false} NamedIsRecorded(bs: seq<Block>, index: nat, version: (Bytes, Bytes))
    requires FreshIndices(Entries(bs), {}) && Named(bs, index, version)
    ensures index in AddBlocks(map[], bs) && AddBlocks(map[], bs)[index] == version
  {
    hide AddBlocks, Entries;
    var i, j :| EntryNames(bs, i, j, index, version);
    BlocksRecord(map[], bs, {}, i, j);
  }

  // The version an index stands for: none for the reserved 0 and 1, otherwise that of the entry carrying it.
  ghost predicate Stands(bs: seq<Block>, index: nat, version: (Bytes, Bytes)) {
    if index <= 1 then version == ([], []) else index < 0x8000 && Named(bs, index, version)
  }

  lemma {:induction false} IndexStands(bs: seq<Block>, index: nat)
    requires FreshIndices(Entries(bs), {})
    ensures Resolved(AddBlocks(map[], bs), index) <==> exists version :: Stands(bs, index, version)
    ensures Resolved(AddBlocks(map[], bs), index) ==> Stands(bs, index, VersionOf(AddBlocks(map[], bs), index))
  {
    hide AddBlocks, Named, Entries;
    NamesAreEntries(bs, index);
    if index <= 1 {
      ReservedIsFree(bs, index);
      assert Stands(bs, index, ([], []));
    } else if index < 0x8000 {
      assert index % 0x8000 == index;
      if Resolved(AddBlocks(map[], bs), index) { assert Stands(bs, index, AddBlocks(map[], bs)[index]); }
    }
  }

  lemma {:induction false} ReservedIsFree(bs: seq<Block>, index: nat)
    requires FreshIndices(Entries(bs), {}) && index <= 1
    ensures index !in AddBlocks(map[], bs)
  {
    AddBlocksKeys(map[], bs);
    UsableIndices(Entries(bs), index);
  }

  // The version table's entry for a symbol.
  predicate TableSays(t: Table, versym: nat, k: nat, index: nat) {
    index < U16 && Occurs(t.data, versym + 2 * k, Le16(index))
  }

  lemma {:induction false} TableIndex(t: Table, versym: nat, k: nat, index: nat)
    requires versym + 2 * k + 2 <= |t.data|
    ensures TableSays(t, versym, k, index) <==> index == GetLe16(t.data, versym + 2 * k)
  {
    Word16Read(t.data, versym + 2 * k);
    if TableSays(t, versym, k, index) { Word16Over(t.data, versym + 2 * k, index); }
  }

  // The section yields blocks, and every index of the version table stands for a version.
  ghost predicate VersionsHold(t: Table, start: nat, count: nat, versym: nat, symbolCount: nat, bs: seq<Block>) {
    && SectionYields(t, start, count, bs)
    && forall k, index :: 0 <= k < symbolCount && TableSays(t, versym, k, index) ==>
      exists version :: Stands(bs, index, version)
  }

  // The inspection succeeds exactly then, with the blocks' files and names, and with the version each undefined
  // symbol's index stands for.
  lemma {:induction false} InspectionIsExact(t: Table, start: nat, count: nat, versym: nat, symbolCount: nat,
        bs: seq<Block>)
    requires ValidTable(t) && versym + 2 * symbolCount <= |t.data|
    ensures VersionsHold(t, start, count, versym, symbolCount, bs) <==>
      Accepted(t, start, count, versym, symbolCount) && Blocks(t, start, count, {}) == Some(bs)
  {
    hide Blocks, Stands, Resolved, AddBlocks, TableSays, GetLe16, BlocksStand, FreshIndices;
    if count > 0 {
      SectionIsExact(t, start, count, bs);
      if SectionYields(t, start, count, bs) {
        forall k, index | 0 <= k < symbolCount
          ensures TableSays(t, versym, k, index) <==> index == GetLe16(t.data, versym + 2 * k)
        {
          TableIndex(t, versym, k, index);
        }
        forall index: nat
          ensures Resolved(AddBlocks(map[], bs), index) <==> exists version :: Stands(bs, index, version)
        {
          IndexStands(bs, index);
        }
        TableAgrees(t, versym, symbolCount, bs);
      }
    }
  }

  lemma {:induction false} TableAgrees(t: Table, versym: nat, symbolCount: nat, bs: seq<Block>)
    requires versym + 2 * symbolCount <= |t.data| && FreshIndices(Entries(bs), {})
    ensures
      (forall k :: 0 <= k < symbolCount ==> Resolved(AddBlocks(map[], bs), GetLe16(t.data, versym + 2 * k))) <==>
      forall k, index :: 0 <= k < symbolCount && TableSays(t, versym, k, index) ==>
        exists version :: Stands(bs, index, version)
  {
    hide Stands, Resolved, AddBlocks, TableSays, GetLe16, FreshIndices;
    var names := AddBlocks(map[], bs);
    if forall k :: 0 <= k < symbolCount ==> Resolved(names, GetLe16(t.data, versym + 2 * k)) {
      forall k, index | 0 <= k < symbolCount && TableSays(t, versym, k, index)
        ensures exists version :: Stands(bs, index, version)
      {
        TableIndex(t, versym, k, index);
        IndexStands(bs, index);
      }
    }
    if forall k, index :: 0 <= k < symbolCount && TableSays(t, versym, k, index) ==>
      exists version :: Stands(bs, index, version)
    {
      forall k | 0 <= k < symbolCount ensures Resolved(names, GetLe16(t.data, versym + 2 * k)) {
        TableIndex(t, versym, k, GetLe16(t.data, versym + 2 * k));
        IndexStands(bs, GetLe16(t.data, versym + 2 * k));
      }
    }
  }

  // The version reported for an undefined symbol is the one its index stands for.
  lemma {:induction false} ReportedVersionStands(t: Table, start: nat, count: nat, versym: nat, symbolCount: nat,
        bs: seq<Block>, symbols: seq<SymbolVersion>, undefined: seq<Undefined>, i: nat, index: nat)
    requires ValidTable(t) && versym + 2 * symbolCount <= |t.data|
    requires Accepted(t, start, count, versym, symbolCount) && Blocks(t, start, count, {}) == Some(bs)
    requires i < |undefined| && forall j :: 0 <= j < |undefined| ==> undefined[j].1 < symbolCount
    requires Matches(symbols, t, AddBlocks(map[], bs), versym, undefined)
    requires TableSays(t, versym, undefined[i].1, index)
    ensures symbols[i].symbol == undefined[i].0 && Stands(bs, index, symbols[i].version)
  {
    hide Blocks, Stands, AddBlocks, GetLe16, BlocksStand, FreshIndices, TableSays, Resolved, VersionOf;
    SectionIsExact(t, start, count, bs);
    TableIndex(t, versym, undefined[i].1, index);
    IndexStands(bs, index);
    assert Resolved(AddBlocks(map[], bs), GetLe16(t.data, versym + 2 * undefined[i].1));
  }
}
