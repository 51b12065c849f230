/**
 PT_NOTE segments (System V gABI, chapter 5, "Note Section"): notes as values, their bytes, the walk
 that reads a segment, and the build-id census over a program table.
 */
module ElfNotes {
  import opened Wrappers
  import opened Pieces
  import opened Bytes

  datatype Note = Note(name: Bytes, kind: nat, description: Bytes)

  // Names end in NUL and nothing is empty; every size fits its field.
  predicate ValidNote(n: Note) {
    && n.name != [] && n.name[|n.name| - 1] == 0 && |n.name| < U32
    && n.description != [] && |n.description| < U32 && n.kind < U32
  }

  predicate ValidNotes(ns: seq<Note>) { forall i :: 0 <= i < |ns| ==> ValidNote(ns[i]) }

  function Padded(s: Bytes): (r: Bytes)
    ensures |r| % 4 == 0
  {
    s + Zeros(Pad4(|s|))
  }

  function NoteBytes(n: Note): Bytes
    requires ValidNote(n)
  {
    Le32(|n.name|) + (Le32(|n.description|) + (Le32(n.kind) + (Padded(n.name) + Padded(n.description))))
  }

  function NotesBytes(ns: seq<Note>): Bytes
    requires ValidNotes(ns)
  {
    if ns == [] then [] else NoteBytes(ns[0]) + NotesBytes(ns[1..])
  }

  predicate AllZero(data: Bytes, i: nat, j: nat)
    requires i <= j <= |data|
  {
    forall k :: i <= k < j ==> data[k] == 0
  }

  // A field of `size` bytes at `i` and its zero padding: the padding's end, if all of it is there.
  function FieldEnd(data: Bytes, i: nat, size: nat, end: nat): (r: Option<nat>)
    requires end <= |data|
    ensures r.Some? ==> r.value == i + size + Pad4(size) <= end
  {
    if size > end - i then None
    else
      var aligned := i + size + Pad4(size);
      if aligned > end || !AllZero(data, i + size, aligned) then None else Some(aligned)
  }

  // One pass of the walk: the note at the cursor and the cursor after it.
  function NoteAt(data: Bytes, cursor: nat, end: nat): (r: Option<(Note, nat)>)
    requires cursor < end <= |data|
    ensures r.Some? ==> ValidNote(r.value.0) && cursor < r.value.1 <= end
  {
    if end - cursor < 12 then None
    else
      var namesz, descsz := GetLe32(data, cursor), GetLe32(data, cursor + 4);
      var nameEnd := if namesz == 0 || descsz == 0 then None else FieldEnd(data, cursor + 12, namesz, end);
      if nameEnd.None? || data[cursor + 12 + namesz - 1] != 0 then None
      else
        var descEnd := FieldEnd(data, nameEnd.value, descsz, end);
        if descEnd.None? then None
        else
          Some((Note(data[cursor + 12..cursor + 12 + namesz], GetLe32(data, cursor + 8),
                     data[nameEnd.value..nameEnd.value + descsz]), descEnd.value))
  }

  function Notes(data: Bytes, cursor: nat, end: nat): (r: Option<seq<Note>>)
    requires cursor <= end <= |data|
    ensures r.Some? ==> ValidNotes(r.value)
    decreases end - cursor
  {
    if cursor == end then Some([])
    else
      var first := NoteAt(data, cursor, end);
      if first.None? then None
      else
        Seen([first.value.0], Notes(data, first.value.1, end))
  }

  function Seen(ns: seq<Note>, rest: Option<seq<Note>>): Option<seq<Note>> {
    if rest.None? then None else Some(ns + rest.value)
  }

  lemma {:induction false} SeenSeen(a: seq<Note>, b: seq<Note>, rest: Option<seq<Note>>)
    ensures Seen(a, Seen(b, rest)) == Seen(a + b, rest)
  {
    if rest.Some? { assert a + (b + rest.value) == a + b + rest.value; }
  }

  lemma {:induction false} SeenNothing(rest: Option<seq<Note>>)
    ensures Seen([], rest) == rest
  {
    if rest.Some? { assert [] + rest.value == rest.value; }
  }

  // ---- Parsing and printing are inverse ----

  lemma {:induction false} FieldOver(data: Bytes, i: nat, s: Bytes, end: nat)
    requires Occurs(data, i, Padded(s)) && i + |Padded(s)| <= end <= |data|
    ensures FieldEnd(data, i, |s|, end) == Some(i + |Padded(s)|)
    ensures data[i..i + |s|] == s
  {
    Split(data, i, s, Zeros(Pad4(|s|)));
    forall k | i + |s| <= k < i + |s| + Pad4(|s|) ensures data[k] == 0 {
      assert data[i + |s| + (k - i - |s|)] == Zeros(Pad4(|s|))[k - i - |s|];
    }
  }

  lemma {:induction false} FieldRead(data: Bytes, i: nat, size: nat, end: nat)
    requires end <= |data| && FieldEnd(data, i, size, end).Some?
    ensures Spans(data, i, FieldEnd(data, i, size, end).value, Padded(data[i..i + size]))
  {
    var aligned := FieldEnd(data, i, size, end).value;
    assert Spans(data, i, i + size, data[i..i + size]);
    assert Spans(data, i + size, aligned, Zeros(Pad4(size)));
    Join(data, i, i + size, aligned, data[i..i + size], Zeros(Pad4(size)));
  }

  lemma {:induction false} WordOver(data: Bytes, i: nat, v: nat)
    requires v < U32 && Occurs(data, i, Le32(v))
    ensures GetLe32(data, i) == v
  {
    hide Le32;
    var d := Le32(v);
    Le32Value(v);
    assert data[i + 0] == d[0] && data[i + 1] == d[1] && data[i + 2] == d[2] && data[i + 3] == d[3];
  }

  lemma {:induction false} WordRead(data: Bytes, i: nat)
    requires i + 4 <= |data|
    ensures Spans(data, i, i + 4, Le32(GetLe32(data, i)))
  {
    Le32Digits(data[i], data[i + 1], data[i + 2], data[i + 3]);
  }

  lemma {:induction false} NoteOver(data: Bytes, cursor: nat, n: Note, end: nat)
    requires ValidNote(n) && Occurs(data, cursor, NoteBytes(n)) && cursor + |NoteBytes(n)| <= end <= |data|
    ensures cursor < end && NoteAt(data, cursor, end) == Some((n, cursor + |NoteBytes(n)|))
  {
    hide Occurs, FieldEnd, GetLe32, Le32;
    var rest := Padded(n.name) + Padded(n.description);
    Split(data, cursor, Le32(|n.name|), Le32(|n.description|) + (Le32(n.kind) + rest));
    Split(data, cursor + 4, Le32(|n.description|), Le32(n.kind) + rest);
    Split(data, cursor + 8, Le32(n.kind), rest);
    Split(data, cursor + 12, Padded(n.name), Padded(n.description));
    WordOver(data, cursor, |n.name|);
    WordOver(data, cursor + 4, |n.description|);
    WordOver(data, cursor + 8, n.kind);
    FieldOver(data, cursor + 12, n.name, end);
    FieldOver(data, cursor + 12 + |Padded(n.name)|, n.description, end);
    assert data[cursor + 12..cursor + 12 + |n.name|][|n.name| - 1] == 0;
  }

  lemma {:induction false} NoteRead(data: Bytes, cursor: nat, end: nat)
    requires cursor < end <= |data| && NoteAt(data, cursor, end).Some?
    ensures var r := NoteAt(data, cursor, end).value; Spans(data, cursor, r.1, NoteBytes(r.0))
  {
    hide Occurs, Spans, FieldEnd, GetLe32, Le32, Padded;
    var (n, next) := NoteAt(data, cursor, end).value;
    var nameEnd := FieldEnd(data, cursor + 12, |n.name|, end).value;
    WordRead(data, cursor);
    WordRead(data, cursor + 4);
    WordRead(data, cursor + 8);
    FieldRead(data, cursor + 12, |n.name|, end);
    FieldRead(data, nameEnd, |n.description|, end);
    Join(data, cursor + 12, nameEnd, next, Padded(n.name), Padded(n.description));
    var rest := Padded(n.name) + Padded(n.description);
    Join(data, cursor + 8, cursor + 12, next, Le32(n.kind), rest);
    Join(data, cursor + 4, cursor + 8, next, Le32(|n.description|), Le32(n.kind) + rest);
    Join(data, cursor, cursor + 4, next, Le32(|n.name|), Le32(|n.description|) + (Le32(n.kind) + rest));
  }

  lemma {:induction false} NotesOver(data: Bytes, cursor: nat, ns: seq<Note>, end: nat)
    requires ValidNotes(ns) && end <= |data| && Spans(data, cursor, end, NotesBytes(ns))
    ensures Notes(data, cursor, end) == Some(ns)
    decreases |ns|
  {
    hide Occurs, NoteAt, ValidNote, NoteBytes;
    assert Occurs(data, cursor, NotesBytes(ns));
    if ns == [] {
    } else {
      Split(data, cursor, NoteBytes(ns[0]), NotesBytes(ns[1..]));
      NoteOver(data, cursor, ns[0], end);
      NotesOver(data, cursor + |NoteBytes(ns[0])|, ns[1..], end);
      assert [ns[0]] + ns[1..] == ns;
    }
  }

  lemma {:induction false} NotesRead(data: Bytes, cursor: nat, end: nat)
    requires cursor <= end <= |data| && Notes(data, cursor, end).Some?
    ensures Spans(data, cursor, end, NotesBytes(Notes(data, cursor, end).value))
    decreases end - cursor
  {
    hide Occurs, NoteAt, ValidNote, NoteBytes;
    if cursor == end {
      assert NotesBytes([]) == [];
      NothingAt(data, cursor);
    } else {
      var (n, next) := NoteAt(data, cursor, end).value;
      NoteRead(data, cursor, end);
      NotesRead(data, next, end);
      var ns := Notes(data, cursor, end).value;
      assert ns[1..] == Notes(data, next, end).value;
      Join(data, cursor, next, end, NoteBytes(n), NotesBytes(ns[1..]));
    }
  }

  lemma {:induction false} NothingAt(data: Bytes, i: nat)
    requires i <= |data|
    ensures Spans(data, i, i, [])
  {
  }

  // A segment is accepted exactly when it is the printed form of some notes, and then yields those.
  lemma {:induction false} NotesAreExact(data: Bytes, cursor: nat, end: nat, ns: seq<Note>)
    requires cursor <= end <= |data|
    ensures Notes(data, cursor, end) == Some(ns) <==> ValidNotes(ns) && data[cursor..end] == NotesBytes(ns)
  {
    if Notes(data, cursor, end) == Some(ns) {
      NotesRead(data, cursor, end);
      SliceOfSpan(data, cursor, end, NotesBytes(ns));
    }
    if ValidNotes(ns) && data[cursor..end] == NotesBytes(ns) {
      SpanOfSlice(data, cursor, end);
      NotesOver(data, cursor, ns, end);
    }
  }

  lemma {:induction false} SliceOfSpan(data: Bytes, i: nat, j: nat, s: Bytes)
    requires Spans(data, i, j, s)
    ensures data[i..j] == s
  {
  }

  lemma {:induction false} SpanOfSlice(data: Bytes, i: nat, j: nat)
    requires i <= j <= |data|
    ensures Spans(data, i, j, data[i..j])
  {
  }

  // Every note's bytes are a multiple of four, so the cursor stays aligned.
  lemma {:induction false} NotesStayAligned(ns: seq<Note>)
    requires ValidNotes(ns)
    ensures |NotesBytes(ns)| % 4 == 0
  {
    hide ValidNote, NoteBytes;
    if ns != [] {
      NotesStayAligned(ns[1..]);
      NoteIsAligned(ns[0]);
    }
  }

  lemma {:induction false} NoteIsAligned(n: Note)
    requires ValidNote(n)
    ensures |NoteBytes(n)| % 4 == 0
  {
    hide Padded;
    var a, b := |Padded(n.name)|, |Padded(n.description)|;
    assert |NoteBytes(n)| == 12 + a + b;
    assert a % 4 == 0 && b % 4 == 0;
  }

  // ---- The census ----

  // bytes.rstrip(b"\0")
  function StripNul(s: Bytes): Bytes {
    if s != [] && s[|s| - 1] == 0 then StripNul(s[..|s| - 1]) else s
  }

  const GNU: Bytes := [0x47, 0x4e, 0x55]

  predicate IsBuildId(n: Note) { StripNul(n.name) == GNU && n.kind == 3 }

  function BuildIds(ns: seq<Note>): seq<Bytes> {
    if ns == [] then []
    else (if IsBuildId(ns[0]) then [ns[0].description] else []) + BuildIds(ns[1..])
  }

  lemma {:induction false} BuildIdsConcat(a: seq<Note>, b: seq<Note>)
    ensures BuildIds(a + b) == BuildIds(a) + BuildIds(b)
  {
    hide IsBuildId;
    if a == [] {
      assert a + b == b;
    } else {
      BuildIdsConcat(a[1..], b);
      assert (a + b)[1..] == a[1..] + b && (a + b)[0] == a[0];
      var head := if IsBuildId(a[0]) then [a[0].description] else [];
      assert head + (BuildIds(a[1..]) + BuildIds(b)) == head + BuildIds(a[1..]) + BuildIds(b);
    }
  }

  datatype Program = Program(kind: nat, flags: nat, offset: nat, fileSize: nat, memorySize: nat, align: nat)

  const PT_NOTE := 4

  predicate ValidNoteSegment(p: Program) {
    p.flags == 4 && p.align == 4 && p.offset % 4 == 0 && p.fileSize != 0 && p.fileSize == p.memorySize
  }

  predicate InFile(data: Bytes, programs: seq<Program>) {
    forall i :: 0 <= i < |programs| ==> programs[i].offset + programs[i].fileSize <= |data|
  }

  // All notes of all note segments, in order.
  function AllNotes(data: Bytes, programs: seq<Program>): Option<seq<Note>>
    requires InFile(data, programs)
  {
    if programs == [] then Some([])
    else
      var p := programs[0];
      var rest := AllNotes(data, programs[1..]);
      if p.kind != PT_NOTE then rest
      else
        var ns := if ValidNoteSegment(p) then Notes(data, p.offset, p.offset + p.fileSize) else None;
        if ns.None? then None else Seen(ns.value, rest)
  }

  method WalkSegment(data: Bytes, start: nat, end: nat) returns (r: Option<seq<Bytes>>)
    requires start <= end <= |data|
    ensures r == var ns := Notes(data, start, end); if ns.None? then None else Some(BuildIds(ns.value))
  {
    hide NoteAt, IsBuildId;
    var buildIds: seq<Bytes> := [];
    var cursor := start;
    ghost var seen: seq<Note> := [];
    SeenNothing(Notes(data, start, end));
    while cursor < end
      invariant start <= cursor <= end
      invariant buildIds == BuildIds(seen)
      invariant Notes(data, start, end) == Seen(seen, Notes(data, cursor, end))
    {
      hide BuildIds;
      var note := NoteAt(data, cursor, end);
      if note.None? { return None; }
      BuildIdsConcat(seen, [note.value.0]);
      OneBuildId(note.value.0);
      if IsBuildId(note.value.0) {
        buildIds := buildIds + [note.value.0.description];
      }
      SeenSeen(seen, [note.value.0], Notes(data, note.value.1, end));
      seen := seen + [note.value.0];
      cursor := note.value.1;
    }
    assert seen + [] == seen;
    r := Some(buildIds);
  }

  lemma {:induction false} OneBuildId(n: Note)
    ensures BuildIds([n]) == if IsBuildId(n) then [n.description] else []
  {
    assert BuildIds([n][1..]) == [];
  }

  // The build id of an ELF file: every note segment is well formed and exactly one note is a build id.
  method CollectBuildId(data: Bytes, programs: seq<Program>) returns (r: Option<Bytes>)
    requires InFile(data, programs)
    ensures r == var ns := AllNotes(data, programs);
                 if ns.None? || |BuildIds(ns.value)| != 1 then None else Some(BuildIds(ns.value)[0])
  {
    hide Notes, IsBuildId, ValidNoteSegment;
    var buildIds: seq<Bytes> := [];
    ghost var seen: seq<Note> := [];
    assert programs[0..] == programs;
    SeenNothing(AllNotes(data, programs));
    for i := 0 to |programs|
      invariant AllNotes(data, programs) == Seen(seen, AllNotes(data, programs[i..]))
      invariant BuildIds(seen) == buildIds
    {
      hide BuildIds;
      assert programs[i..][1..] == programs[i + 1..];
      var p := programs[i];
      if p.kind != PT_NOTE { continue; }
      if !ValidNoteSegment(p) { return None; }
      var found := WalkSegment(data, p.offset, p.offset + p.fileSize);
      if found.None? { return None; }
      ghost var ns := Notes(data, p.offset, p.offset + p.fileSize).value;
      SeenSeen(seen, ns, AllNotes(data, programs[i + 1..]));
      BuildIdsConcat(seen, ns);
      seen := seen + ns;
      buildIds := buildIds + found.value;
    }
    assert seen + [] == seen;
    if |buildIds| != 1 { return None; }
    r := Some(buildIds[0]);
  }

  // ---- What the census counts ----

  // A GNU build id: the owner's name and any number of NULs, and type 3.
  ghost predicate GnuBuildId(n: Note) {
    n.kind == 3 && exists k: nat :: n.name == ['G' as Byte, 'N' as Byte, 'U' as Byte] + Zeros(k)
  }

  lemma {:induction false} StripsNuls(s: Bytes, k: nat)
    ensures StripNul(s + Zeros(k)) == StripNul(s)
  {
    if k == 0 {
      assert s + Zeros(0) == s;
    } else {
      assert (s + Zeros(k))[..|s| + k - 1] == s + Zeros(k - 1);
      StripsNuls(s, k - 1);
    }
  }

  lemma {:induction false} NulsStripped(s: Bytes) returns (k: nat)
    ensures s == StripNul(s) + Zeros(k)
  {
    if s != [] && s[|s| - 1] == 0 {
      var j := NulsStripped(s[..|s| - 1]);
      k := j + 1;
      assert s == StripNul(s) + Zeros(j) + [0] && Zeros(j) + [0] == Zeros(k);
    } else {
      k := 0;
      assert s == s + Zeros(0);
    }
  }

  lemma {:induction false} IsGnuBuildId(n: Note)
    ensures IsBuildId(n) <==> GnuBuildId(n)
  {
    var gnu: Bytes := ['G' as Byte, 'N' as Byte, 'U' as Byte];
    assert gnu == GNU;
    if IsBuildId(n) { var k := NulsStripped(n.name); }
    if GnuBuildId(n) {
      var k: nat :| n.name == gnu + Zeros(k);
      StripsNuls(gnu, k);
    }
  }

  // A readable, word-aligned segment of which everything is in the file, holding the printed form of some notes.
  ghost predicate HoldsNotes(data: Bytes, p: Program) {
    && p.flags == 4 && p.align == 4 && p.offset % 4 == 0 && p.fileSize == p.memorySize > 0
    && p.offset + p.fileSize <= |data|
    && exists ns :: ValidNotes(ns) && data[p.offset..p.offset + p.fileSize] == NotesBytes(ns)
  }

  lemma {:induction false} SegmentIsRead(data: Bytes, p: Program)
    requires p.offset + p.fileSize <= |data|
    ensures ValidNoteSegment(p) && Notes(data, p.offset, p.offset + p.fileSize).Some? <==> HoldsNotes(data, p)
  {
    hide Notes, NotesBytes;
    var start, end := p.offset, p.offset + p.fileSize;
    if Notes(data, start, end).Some? { NotesAreExact(data, start, end, Notes(data, start, end).value); }
    if HoldsNotes(data, p) {
      var ns :| ValidNotes(ns) && data[start..end] == NotesBytes(ns);
      NotesAreExact(data, start, end, ns);
    }
  }

  lemma {:induction false} CensusSucceeds(data: Bytes, programs: seq<Program>)
    requires InFile(data, programs)
    ensures AllNotes(data, programs).Some? <==>
      forall i :: 0 <= i < |programs| && programs[i].kind == 4 ==> HoldsNotes(data, programs[i])
  {
    hide Notes, HoldsNotes, ValidNoteSegment;
    if programs != [] {
      var p := programs[0];
      CensusSucceeds(data, programs[1..]);
      SegmentIsRead(data, p);
      forall i | 1 <= i < |programs| ensures programs[i] == programs[1..][i - 1] {}
    }
  }

  // Note `i` is a build id and no other one is.
  ghost predicate OnlyBuildId(ns: seq<Note>, i: int) {
    0 <= i < |ns| && GnuBuildId(ns[i]) && forall j :: 0 <= j < |ns| && j != i ==> !GnuBuildId(ns[j])
  }

  lemma {:induction false} NoBuildIds(ns: seq<Note>)
    ensures BuildIds(ns) == [] <==> forall j :: 0 <= j < |ns| ==> !GnuBuildId(ns[j])
  {
    hide IsBuildId, GnuBuildId;
    if ns != [] {
      IsGnuBuildId(ns[0]);
      NoBuildIds(ns[1..]);
      forall j | 1 <= j < |ns| ensures ns[j] == ns[1..][j - 1] {}
    }
  }

  lemma {:induction false} OneIsCounted(ns: seq<Note>, d: Bytes)
    ensures BuildIds(ns) == [d] <==> exists i :: OnlyBuildId(ns, i) && ns[i].description == d
  {
    hide IsBuildId, GnuBuildId;
    if ns != [] {
      var rest := ns[1..];
      IsGnuBuildId(ns[0]);
      NoBuildIds(rest);
      OneIsCounted(rest, d);
      forall j | 1 <= j < |ns| ensures ns[j] == rest[j - 1] {}
      if GnuBuildId(ns[0]) {
        assert BuildIds(ns) == [ns[0].description] + BuildIds(rest);
        if BuildIds(ns) == [d] {
          assert BuildIds(rest) == [];
          assert OnlyBuildId(ns, 0);
        }
        if i :| OnlyBuildId(ns, i) && ns[i].description == d { assert i == 0; }
      } else {
        assert BuildIds(ns) == BuildIds(rest);
        if i :| OnlyBuildId(ns, i) && ns[i].description == d { assert OnlyBuildId(rest, i - 1); }
        if i :| OnlyBuildId(rest, i) && rest[i].description == d { assert OnlyBuildId(ns, i + 1); }
      }
    }
  }

  // The census returns a build id exactly when every PT_NOTE segment is well formed and, of all their notes, one is a
  // GNU build id: its description.
  lemma {:induction false} CensusIsExact(data: Bytes, programs: seq<Program>, d: Bytes)
    requires InFile(data, programs)
    ensures var ns := AllNotes(data, programs);
      && (ns.Some? <==> forall i :: 0 <= i < |programs| && programs[i].kind == 4 ==> HoldsNotes(data, programs[i]))
      && (ns.Some? ==> (BuildIds(ns.value) == [d] <==>
        exists i :: OnlyBuildId(ns.value, i) && ns.value[i].description == d))
  {
    CensusSucceeds(data, programs);
    var ns := AllNotes(data, programs);
    if ns.Some? { OneIsCounted(ns.value, d); }
  }
}
