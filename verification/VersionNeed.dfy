/**
 The `.gnu.version_r` walk: a chain of requirement headers, each with its own chain of auxiliary
 entries, and the resolution of the undefined symbols' version indices against it.
 */
module VersionNeed {
  import opened Wrappers
  import opened Bytes

  // ---- Strings ----

  // data.find(b"\0", i)
  function FindNul(s: Bytes, i: nat): (r: Option<nat>)
    requires i <= |s|
    ensures r.Some? ==> i <= r.value < |s| && s[r.value] == 0
    decreases |s| - i
  {
    if i == |s| then None else if s[i] == 0 then Some(i) else FindNul(s, i + 1)
  }

  predicate IsAscii(s: Bytes) { forall i :: 0 <= i < |s| ==> s[i] < 128 }

  function CString(s: Bytes, offset: nat): Option<Bytes> {
    if offset >= |s| then None
    else
      var end := FindNul(s, offset);
      if end.None? || !IsAscii(s[offset..end.value]) then None else Some(s[offset..end.value])
  }

  // ---- The section ----

  // The file, the section's end in it, and the dynamic string table.
  datatype Table = Table(data: Bytes, end: nat, strings: Bytes)

  predicate ValidTable(t: Table) { t.end <= |t.data| }

  datatype Aux = Aux(at: nat, index: nat, name: Bytes)

  datatype Block = Block(at: nat, file: Bytes, entries: seq<Aux>)

  function Indices(entries: seq<Aux>): set<nat> { set i | 0 <= i < |entries| :: entries[i].index }

  // One auxiliary entry; the second part is the offset of the next.
  function AuxAt(t: Table, at: nat, used: set<nat>): (r: Option<(Aux, nat)>)
    requires ValidTable(t)
    ensures r.Some? ==> r.value.0.at == at && at + 16 <= t.end
    ensures r.Some? ==> r.value.0.index > 1 && r.value.0.index !in used
  {
    if t.end - at < 16 then None
    else
      var flags, other := GetLe16(t.data, at + 4), GetLe16(t.data, at + 6);
      var nameOffset, next := GetLe32(t.data, at + 8), GetLe32(t.data, at + 12);
      if flags != 0 || other <= 1 || other in used then None
      else
        var name := CString(t.strings, nameOffset);
        if name.None? then None else Some((Aux(at, other, name.value), next))
  }

  // `count` entries starting at `at`; the last one must not name a successor.
  function AuxChain(t: Table, at: nat, count: nat, used: set<nat>): (r: Option<seq<Aux>>)
    requires ValidTable(t) && count > 0
    ensures r.Some? ==> |r.value| == count
    decreases count
  {
    var entry := AuxAt(t, at, used);
    if entry.None? then None
    else
      var (aux, next) := entry.value;
      if count == 1 then (if next != 0 then None else Some([aux]))
      else if next < 16 || at + next > t.end then None
      else
        var rest := AuxChain(t, at + next, count - 1, used + {aux.index});
        if rest.None? then None else Some([aux] + rest.value)
  }

  function BlockEnd(b: Block): nat
    requires b.entries != []
  {
    b.entries[|b.entries| - 1].at + 16
  }

  // One requirement; the second part is the offset of the next.
  function BlockAt(t: Table, at: nat, used: set<nat>): (r: Option<(Block, nat)>)
    requires ValidTable(t)
    ensures r.Some? ==> r.value.0.at == at && r.value.0.entries != [] && at + 16 <= t.end
  {
    if t.end - at < 16 then None
    else
      var version, count := GetLe16(t.data, at), GetLe16(t.data, at + 2);
      var fileOffset, auxOffset := GetLe32(t.data, at + 4), GetLe32(t.data, at + 8);
      if version != 1 || count == 0 || auxOffset < 16 then None
      else
        var file := CString(t.strings, fileOffset);
        if file.None? then None
        else
          var entries := AuxChain(t, at + auxOffset, count, used);
          if entries.None? then None
          else Some((Block(at, file.value, entries.value), GetLe32(t.data, at + 12)))
  }

  function Blocks(t: Table, at: nat, count: nat, used: set<nat>): (r: Option<seq<Block>>)
    requires ValidTable(t) && count > 0
    ensures r.Some? ==> |r.value| == count
    decreases count
  {
    var first := BlockAt(t, at, used);
    if first.None? then None
    else
      var (b, next) := first.value;
      if count == 1 then (if next != 0 || BlockEnd(b) != t.end then None else Some([b]))
      else if next < 16 || at + next != BlockEnd(b) then None
      else
        var rest := Blocks(t, at + next, count - 1, used + Indices(b.entries));
        if rest.None? then None else Some([b] + rest.value)
  }

  // ---- Layout of an accepted section ----

  // Sixteen-byte windows in order, without overlap, from `start` to `end` inclusive of both ends.
  predicate Tiled(windows: seq<nat>, start: nat, end: nat) {
    && windows != [] && start <= windows[0] && windows[|windows| - 1] + 16 == end
    && forall i, j :: 0 <= i < j < |windows| ==> windows[i] + 16 <= windows[j]
  }

  function AuxWindows(entries: seq<Aux>): (r: seq<nat>)
    ensures |r| == |entries| && forall i :: 0 <= i < |r| ==> r[i] == entries[i].at
  {
    seq(|entries|, i requires 0 <= i < |entries| => entries[i].at)
  }

  // Header window, then the windows of its entries.
  function BlockWindows(b: Block): seq<nat> { [b.at] + AuxWindows(b.entries) }

  function Windows(bs: seq<Block>): seq<nat> {
    if bs == [] then [] else BlockWindows(bs[0]) + Windows(bs[1..])
  }

  lemma {:induction false} TiledAfter(a: seq<nat>, b: seq<nat>, start: nat, middle: nat, later: nat, end: nat)
    requires Tiled(a, start, middle) && Tiled(b, later, end) && middle <= later
    ensures Tiled(a + b, start, end)
  {
    var w := a + b;
    forall i, j | 0 <= i < j < |w| ensures w[i] + 16 <= w[j] {
      if i < |a| <= j {
        assert i < |a| - 1 ==> a[i] + 16 <= a[|a| - 1];
        assert j > |a| ==> b[0] + 16 <= b[j - |a|];
      } else if j < |a| {
        assert a[i] + 16 <= a[j];
      } else {
        assert b[i - |a|] + 16 <= b[j - |a|];
      }
    }
  }

  // Pairwise different indices, all usable, none used before.
  predicate FreshIndices(entries: seq<Aux>, used: set<nat>) {
    && (forall i :: 0 <= i < |entries| ==> entries[i].index > 1 && entries[i].index !in used)
    && (forall i, j :: 0 <= i < j < |entries| ==> entries[i].index != entries[j].index)
  }

  lemma {:induction false} AuxChainLayout(t: Table, at: nat, count: nat, used: set<nat>)
    requires ValidTable(t) && count > 0 && AuxChain(t, at, count, used).Some?
    ensures var entries := AuxChain(t, at, count, used).value;
      && entries[0].at == at && entries[count - 1].at + 16 <= t.end
      && Tiled(AuxWindows(entries), at, entries[count - 1].at + 16)
      && FreshIndices(entries, used)
    decreases count
  {
    hide AuxAt;
    var (aux, next) := AuxAt(t, at, used).value;
    if count > 1 {
      AuxChainLayout(t, at + next, count - 1, used + {aux.index});
      var rest := AuxChain(t, at + next, count - 1, used + {aux.index}).value;
      var entries := AuxChain(t, at, count, used).value;
      assert AuxWindows(entries) == [at] + AuxWindows(rest);
      TiledAfter([at], AuxWindows(rest), at, at + 16, at + next, rest[count - 2].at + 16);
      forall i, j | 0 <= i < j < count ensures entries[i].index != entries[j].index {
        if i == 0 { assert rest[j - 1].index !in used + {aux.index}; }
        else { assert rest[i - 1].index != rest[j - 1].index; }
      }
    }
  }

  lemma {:induction false} BlockLayout(t: Table, at: nat, used: set<nat>)
    requires ValidTable(t) && BlockAt(t, at, used).Some?
    ensures var b := BlockAt(t, at, used).value.0;
      && Tiled(BlockWindows(b), at, BlockEnd(b)) && BlockEnd(b) <= t.end && FreshIndices(b.entries, used)
  {
    hide AuxChain;
    var b := BlockAt(t, at, used).value.0;
    var auxOffset := GetLe32(t.data, at + 8);
    AuxChainLayout(t, at + auxOffset, |b.entries|, used);
    TiledAfter([at], AuxWindows(b.entries), at, at + 16, at + auxOffset, BlockEnd(b));
  }

  // All entries of all blocks, in order.
  function Entries(bs: seq<Block>): seq<Aux> {
    if bs == [] then [] else bs[0].entries + Entries(bs[1..])
  }

  predicate Abutting(bs: seq<Block>) {
    && (forall i :: 0 <= i < |bs| ==> bs[i].entries != [])
    && (forall i :: 0 <= i < |bs| - 1 ==> bs[i + 1].at == BlockEnd(bs[i]))
  }

  lemma {:induction false} FreshAfter(a: seq<Aux>, b: seq<Aux>, used: set<nat>)
    requires FreshIndices(a, used) && FreshIndices(b, used + Indices(a))
    ensures FreshIndices(a + b, used)
  {
    var e := a + b;
    forall i, j | 0 <= i < j < |e| ensures e[i].index != e[j].index {
      if i < |a| <= j {
        assert a[i].index in Indices(a);
        assert b[j - |a|].index !in used + Indices(a);
      } else if i >= |a| {
        assert b[i - |a|].index != b[j - |a|].index;
      }
    }
  }

  lemma {:induction false} AbuttingAfter(b: Block, rest: seq<Block>)
    requires b.entries != [] && rest != [] && Abutting(rest) && rest[0].at == BlockEnd(b)
    ensures Abutting([b] + rest) && BlockEnd(([b] + rest)[|rest|]) == BlockEnd(rest[|rest| - 1])
  {
    var bs := [b] + rest;
    forall i | 0 <= i < |bs| - 1 ensures bs[i + 1].at == BlockEnd(bs[i]) {
      if i > 0 { assert rest[(i - 1) + 1].at == BlockEnd(rest[i - 1]); }
    }
  }

  lemma {:induction false} AbuttingAlone(b: Block)
    requires b.entries != []
    ensures Abutting([b])
  {
  }

  lemma {:induction false} WithTail(b: Block, rest: seq<Block>)
    ensures Windows([b] + rest) == BlockWindows(b) + Windows(rest) && Entries([b] + rest) == b.entries + Entries(rest)
  {
    assert ([b] + rest)[1..] == rest;
  }

  lemma {:induction false} Alone(b: Block)
    ensures Windows([b]) == BlockWindows(b) && Entries([b]) == b.entries
  {
    assert [b][1..] == [];
    assert BlockWindows(b) + [] == BlockWindows(b) && b.entries + [] == b.entries;
  }

  // On acceptance the windows do not overlap and stay inside the section, each block starts where the
  // one before it ends, the last ends where the section ends, and no version index occurs twice.
  lemma {:induction false} AcceptedLayout(t: Table, at: nat, count: nat, used: set<nat>)
    requires ValidTable(t) && count > 0 && Blocks(t, at, count, used).Some?
    ensures var bs := Blocks(t, at, count, used).value;
      && bs[0].at == at && Abutting(bs) && BlockEnd(bs[count - 1]) == t.end
      && Tiled(Windows(bs), at, t.end) && FreshIndices(Entries(bs), used)
    decreases count
  {
    hide BlockAt, Tiled, FreshIndices, BlockWindows, Indices, Windows, Entries, Abutting;
    var (b, next) := BlockAt(t, at, used).value;
    BlockLayout(t, at, used);
    if count == 1 {
      Alone(b);
      AbuttingAlone(b);
    } else {
      var taken := used + Indices(b.entries);
      var rest := Blocks(t, at + next, count - 1, taken).value;
      AcceptedLayout(t, at + next, count - 1, taken);
      AbuttingAfter(b, rest);
      TiledAfter(BlockWindows(b), Windows(rest), at, BlockEnd(b), at + next, t.end);
      FreshAfter(b.entries, Entries(rest), used);
      WithTail(b, rest);
    }
  }

  // ---- What the walk returns ----

  type Names = map<nat, (Bytes, Bytes)>

  function NamesOf(entries: seq<Aux>): (r: seq<Bytes>)
    ensures |r| == |entries| && forall i :: 0 <= i < |r| ==> r[i] == entries[i].name
  {
    seq(|entries|, i requires 0 <= i < |entries| => entries[i].name)
  }

  // What the section requires of each file.
  function Requirements(bs: seq<Block>): (r: seq<(Bytes, seq<Bytes>)>)
    ensures |r| == |bs|
    ensures forall i :: 0 <= i < |r| ==> r[i] == (bs[i].file, NamesOf(bs[i].entries))
  {
    seq(|bs|, i requires 0 <= i < |bs| => (bs[i].file, NamesOf(bs[i].entries)))
  }

  function AddEntries(names: Names, file: Bytes, entries: seq<Aux>): Names
    decreases |entries|
  {
    if entries == [] then names
    else AddEntries(names[entries[0].index := (file, entries[0].name)], file, entries[1..])
  }

  function AddBlocks(names: Names, bs: seq<Block>): Names
    decreases |bs|
  {
    if bs == [] then names else AddBlocks(AddEntries(names, bs[0].file, bs[0].entries), bs[1..])
  }

  lemma {:induction false} AddEntriesKeys(names: Names, file: Bytes, entries: seq<Aux>)
    ensures AddEntries(names, file, entries).Keys == names.Keys + Indices(entries)
    decreases |entries|
  {
    if entries != [] {
      AddEntriesKeys(names[entries[0].index := (file, entries[0].name)], file, entries[1..]);
      assert Indices(entries) == {entries[0].index} + Indices(entries[1..]) by {
        forall x | x in Indices(entries) ensures x in {entries[0].index} + Indices(entries[1..]) {
          var i :| 0 <= i < |entries| && entries[i].index == x;
          if i > 0 { assert entries[1..][i - 1].index == x; }
        }
        forall x | x in Indices(entries[1..]) ensures x in Indices(entries) {
          var i :| 0 <= i < |entries[1..]| && entries[1..][i].index == x;
          assert entries[i + 1].index == x;
        }
      }
    }
  }

  // Every recorded version is one the requirements list.
  predicate Listed(version: (Bytes, Bytes), requirements: seq<(Bytes, seq<Bytes>)>) {
    exists i :: 0 <= i < |requirements| && requirements[i].0 == version.0 && version.1 in requirements[i].1
  }

  lemma {:induction false} AddEntriesFrom(names: Names, file: Bytes, entries: seq<Aux>, k: nat)
    requires k in AddEntries(names, file, entries)
    ensures var v := AddEntries(names, file, entries)[k];
      (k in names && v == names[k]) || (v.0 == file && v.1 in NamesOf(entries))
    decreases |entries|
  {
    if entries != [] {
      AddEntriesFrom(names[entries[0].index := (file, entries[0].name)], file, entries[1..], k);
      assert NamesOf(entries)[0] == entries[0].name;
      assert NamesOf(entries)[1..] == NamesOf(entries[1..]);
    }
  }

  lemma {:induction false} AddBlocksFrom(names: Names, bs: seq<Block>, k: nat)
    requires k in AddBlocks(names, bs)
    ensures var v := AddBlocks(names, bs)[k]; (k in names && v == names[k]) || Listed(v, Requirements(bs))
    decreases |bs|
  {
    if bs != [] {
      var more := AddEntries(names, bs[0].file, bs[0].entries);
      AddBlocksFrom(more, bs[1..], k);
      var v := AddBlocks(names, bs)[k];
      if k in more && v == more[k] {
        AddEntriesFrom(names, bs[0].file, bs[0].entries, k);
        assert Requirements(bs)[0] == (bs[0].file, NamesOf(bs[0].entries));
      } else {
        var i :| 0 <= i < |bs[1..]| && Requirements(bs[1..])[i].0 == v.0 && v.1 in Requirements(bs[1..])[i].1;
        assert Requirements(bs)[i + 1] == Requirements(bs[1..])[i];
      }
    }
  }

  method WalkEntries(t: Table, at: nat, count: nat, file: Bytes, names: Names)
    returns (r: Option<seq<Aux>>, recorded: Names)
    requires ValidTable(t) && count > 0
    ensures r == AuxChain(t, at, count, names.Keys)
    ensures r.Some? ==> recorded == AddEntries(names, file, r.value)
  {
    hide AuxAt;
    recorded := names;
    var entries: seq<Aux> := [];
    var cursor: nat := at;
    ChainedNothing(AuxChain(t, at, count, names.Keys));
    for k := 0 to count
      invariant |entries| == k
      invariant k < count ==>
        AuxChain(t, at, count, names.Keys) == Chained(entries, AuxChain(t, cursor, count - k, recorded.Keys))
      invariant k == count ==> AuxChain(t, at, count, names.Keys) == Some(entries)
      invariant recorded == AddEntries(names, file, entries)
    {
      var entry := AuxAt(t, cursor, recorded.Keys);
      if entry.None? { return None, recorded; }
      var (aux, next) := entry.value;
      AddEntriesSnoc(names, file, entries, aux);
      ghost var before, keys := entries, recorded.Keys;
      entries := entries + [aux];
      recorded := recorded[aux.index := (file, aux.name)];
      assert recorded.Keys == keys + {aux.index};
      if k + 1 == count {
        if next != 0 { return None, recorded; }
      } else if next < 16 || cursor + next > t.end {
        return None, recorded;
      } else {
        cursor := cursor + next;
        ChainedChained(before, [aux], AuxChain(t, cursor, count - (k + 1), recorded.Keys));
      }
    }
    r := Some(entries);
  }

  function Chained<T>(a: seq<T>, rest: Option<seq<T>>): Option<seq<T>> {
    if rest.None? then None else Some(a + rest.value)
  }

  lemma {:induction false} ChainedChained<T>(a: seq<T>, b: seq<T>, rest: Option<seq<T>>)
    ensures Chained(a, Chained(b, rest)) == Chained(a + b, rest)
  {
    if rest.Some? { assert a + (b + rest.value) == a + b + rest.value; }
  }

  lemma {:induction false} ChainedNothing<T>(rest: Option<seq<T>>)
    ensures Chained([], rest) == rest
  {
    if rest.Some? { assert [] + rest.value == rest.value; }
  }

  lemma {:induction false} AddEntriesSnoc(names: Names, file: Bytes, entries: seq<Aux>, last: Aux)
    ensures AddEntries(names, file, entries + [last])
      == AddEntries(names, file, entries)[last.index := (file, last.name)]
    decreases |entries|
  {
    if entries == [] {
      assert [] + [last] == [last] && [last][1..] == [];
    } else {
      AddEntriesSnoc(names[entries[0].index := (file, entries[0].name)], file, entries[1..], last);
      assert (entries + [last])[1..] == entries[1..] + [last];
    }
  }

  lemma {:induction false} AddBlocksSnoc(names: Names, bs: seq<Block>, last: Block)
    ensures AddBlocks(names, bs + [last]) == AddEntries(AddBlocks(names, bs), last.file, last.entries)
    decreases |bs|
  {
    hide AddEntries;
    if bs == [] {
      assert [] + [last] == [last] && [last][1..] == [];
    } else {
      AddBlocksSnoc(AddEntries(names, bs[0].file, bs[0].entries), bs[1..], last);
      assert (bs + [last])[1..] == bs[1..] + [last];
    }
  }

  // The body of the requirement loop: one header and its entries.
  method ReadBlock(t: Table, cursor: nat, names: Names) returns (r: Option<(Block, nat)>, recorded: Names)
    requires ValidTable(t)
    ensures r == BlockAt(t, cursor, names.Keys)
    ensures r.Some? ==> recorded == AddEntries(names, r.value.0.file, r.value.0.entries)
  {
    recorded := names;
    if t.end - cursor < 16 { return None, names; }
    var version, entryCount := GetLe16(t.data, cursor), GetLe16(t.data, cursor + 2);
    var fileOffset, auxOffset := GetLe32(t.data, cursor + 4), GetLe32(t.data, cursor + 8);
    if version != 1 || entryCount == 0 || auxOffset < 16 { return None, names; }
    var file := CString(t.strings, fileOffset);
    if file.None? { return None, names; }
    var entries;
    entries, recorded := WalkEntries(t, cursor + auxOffset, entryCount, file.value, names);
    if entries.None? { return None, names; }
    r := Some((Block(cursor, file.value, entries.value), GetLe32(t.data, cursor + 12)));
  }

  method WalkRequirements(t: Table, start: nat, count: nat) returns (r: Option<seq<Block>>, names: Names)
    requires ValidTable(t) && count > 0
    ensures r == Blocks(t, start, count, {})
    ensures r.Some? ==> names == AddBlocks(map[], r.value)
  {
    hide AddEntries, BlockAt, BlockEnd, Indices;
    names := map[];
    var blocks: seq<Block> := [];
    var cursor: nat := start;
    assert names.Keys == {};
    ChainedNothing(Blocks(t, start, count, {}));
    for k := 0 to count
      invariant |blocks| == k
      invariant k < count ==> Blocks(t, start, count, {}) == Chained(blocks, Blocks(t, cursor, count - k, names.Keys))
      invariant k == count ==> Blocks(t, start, count, {}) == Some(blocks)
      invariant names == AddBlocks(map[], blocks)
    {
      var read, recorded := ReadBlock(t, cursor, names);
      if read.None? { return None, names; }
      var (block, next) := read.value;
      ghost var before, keys := blocks, names.Keys;
      AddEntriesKeys(names, block.file, block.entries);
      AddBlocksSnoc(map[], blocks, block);
      names := recorded;
      blocks := blocks + [block];
      if k + 1 == count {
        if next != 0 || BlockEnd(block) != t.end { return None, names; }
      } else if next < 16 || cursor + next != BlockEnd(block) {
        return None, names;
      } else {
        cursor := cursor + next;
        ChainedChained(before, [block], Blocks(t, cursor, count - (k + 1), names.Keys));
      }
    }
    r := Some(blocks);
  }

  // ---- Symbol versions ----

  datatype SymbolVersion = SymbolVersion(symbol: Bytes, version: (Bytes, Bytes))

  // An undefined symbol's name and its place in the symbol table.
  type Undefined = (Bytes, nat)

  // index & 0x7FFF
  function VersionOf(names: Names, index: nat): (Bytes, Bytes) {
    if index % 0x8000 in names then names[index % 0x8000] else ([], [])
  }

  predicate Resolved(names: Names, index: nat) {
    index < 0x8000 && (index % 0x8000 > 1 ==> index % 0x8000 in names)
  }

  datatype Versions = Versions(requirements: seq<(Bytes, seq<Bytes>)>, symbols: seq<SymbolVersion>)

  // The section is well formed and every index of the version table is resolved by it.
  predicate Accepted(t: Table, start: nat, count: nat, versym: nat, symbolCount: nat)
    requires ValidTable(t) && versym + 2 * symbolCount <= |t.data|
  {
    && count > 0 && Blocks(t, start, count, {}).Some?
    && var names := AddBlocks(map[], Blocks(t, start, count, {}).value);
      forall k :: 0 <= k < symbolCount ==> Resolved(names, GetLe16(t.data, versym + 2 * k))
  }

  predicate Matches(symbols: seq<SymbolVersion>, t: Table, names: Names, versym: nat, undefined: seq<Undefined>)
    requires forall i :: 0 <= i < |undefined| ==> versym + 2 * undefined[i].1 + 2 <= |t.data|
  {
    && |symbols| == |undefined|
    && forall i :: 0 <= i < |undefined| ==>
      var index := GetLe16(t.data, versym + 2 * undefined[i].1);
      symbols[i] == SymbolVersion(undefined[i].0, VersionOf(names, index))
  }

  // The section's requirements and each undefined symbol's version, in symbol order.
  method InspectVersions(t: Table, start: nat, count: nat, versym: nat, symbolCount: nat, undefined: seq<Undefined>)
    returns (r: Option<Versions>)
    requires ValidTable(t) && versym + 2 * symbolCount <= |t.data|
    requires forall i :: 0 <= i < |undefined| ==> undefined[i].1 < symbolCount
    ensures r.Some? <==> Accepted(t, start, count, versym, symbolCount)
    ensures r.Some? ==> r.value.requirements == Requirements(Blocks(t, start, count, {}).value)
    ensures r.Some? ==>
      Matches(r.value.symbols, t, AddBlocks(map[], Blocks(t, start, count, {}).value), versym, undefined)
  {
    hide Blocks, AddBlocks;
    if count == 0 { return None; }
    var blocks, names := WalkRequirements(t, start, count);
    if blocks.None? { return None; }
    for k := 0 to symbolCount
      invariant forall j :: 0 <= j < k ==> Resolved(names, GetLe16(t.data, versym + 2 * j))
    {
      if !Resolved(names, GetLe16(t.data, versym + 2 * k)) { return None; }
    }
    var symbols: seq<SymbolVersion> := [];
    for i := 0 to |undefined|
      invariant |symbols| == i
      invariant forall j :: 0 <= j < i ==> symbols[j] == SymbolVersion(undefined[j].0,
        VersionOf(names, GetLe16(t.data, versym + 2 * undefined[j].1)))
    {
      var (symbol, place) := undefined[i];
      symbols := symbols + [SymbolVersion(symbol, VersionOf(names, GetLe16(t.data, versym + 2 * place)))];
    }
    r := Some(Versions(Requirements(blocks.value), symbols));
  }

  // An undefined symbol's version is empty, exactly for the reserved indices 0 and 1, or listed in the
  // returned requirements.
  lemma {:induction false} SymbolVersionsAreListed(t: Table, start: nat, count: nat, index: nat)
    requires ValidTable(t) && count > 0 && Blocks(t, start, count, {}).Some?
    requires Resolved(AddBlocks(map[], Blocks(t, start, count, {}).value), index)
    ensures var bs := Blocks(t, start, count, {}).value; var v := VersionOf(AddBlocks(map[], bs), index);
      if index <= 1 then v == ([], []) else Listed(v, Requirements(bs))
  {
    hide Blocks, Tiled, Abutting, Windows, AddBlocks, Listed, Entries;
    var bs := Blocks(t, start, count, {}).value;
    AcceptedLayout(t, start, count, {});
    AddBlocksKeys(map[], bs);
    UsableIndices(Entries(bs), index);
    if index in AddBlocks(map[], bs) { AddBlocksFrom(map[], bs, index); }
  }

  lemma {:induction false} UsableIndices(entries: seq<Aux>, index: nat)
    requires FreshIndices(entries, {})
    ensures index in Indices(entries) ==> index > 1
  {
  }

  lemma {:induction false} AddBlocksKeys(names: Names, bs: seq<Block>)
    ensures AddBlocks(names, bs).Keys == names.Keys + Indices(Entries(bs))
    decreases |bs|
  {
    hide AddEntries;
    if bs != [] {
      AddEntriesKeys(names, bs[0].file, bs[0].entries);
      AddBlocksKeys(AddEntries(names, bs[0].file, bs[0].entries), bs[1..]);
      IndicesConcat(bs[0].entries, Entries(bs[1..]));
    }
  }

  lemma {:induction false} IndicesConcat(a: seq<Aux>, b: seq<Aux>)
    ensures Indices(a + b) == Indices(a) + Indices(b)
  {
    forall x | x in Indices(a + b) ensures x in Indices(a) + Indices(b) {
      var i :| 0 <= i < |a + b| && (a + b)[i].index == x;
      if i >= |a| { assert b[i - |a|].index == x; } else { assert a[i].index == x; }
    }
    forall x | x in Indices(a) ensures x in Indices(a + b) {
      var i :| 0 <= i < |a| && a[i].index == x;
      assert (a + b)[i].index == x;
    }
    forall x | x in Indices(b) ensures x in Indices(a + b) {
      var i :| 0 <= i < |b| && b[i].index == x;
      assert (a + b)[|a| + i].index == x;
    }
  }
}
