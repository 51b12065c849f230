/**
 What making a wheel canonical promises: its RECORD always verifies, nothing but names, bytes and executable bits
 matters, and doing it twice changes nothing.
 */
module WheelCanonical {
  import opened Wrappers
  import opened Bytes
  import opened ArchiveTree
  import opened WheelIdentity
  import opened Sorting
  import opened Csv
  import opened Wheel

  ghost predicate Sound(rules: Rules, scheme: Scheme) {
    rules.Sound() && scheme.Sound() && PortablePath(rules.Record())
  }

  lemma {:induction false} SortedIsWellKeyed(rules: Rules, ms: seq<Member>) returns (files: seq<Keyed<Member>>)
    requires Accepted(rules, ms)
    ensures files == Sort(KeyedFiles(ms)) && Ascending(files) && WellKeyed(files)
    ensures multiset(files) == multiset(KeyedFiles(ms))
    ensures forall x :: x in files <==> IsKeyedFile(ms, x)
  {
    hide Identity, Name, Codes;
    files := SortedFiles(rules, ms);
    KeyedFilesAre(ms);
  }

  // The canonical members are the files that were there, RECORD rewritten.
  lemma {:induction false} CanonicalKeepsFiles(rules: Rules, scheme: Scheme, ms: seq<Member>)
    requires Accepted(rules, ms)
    ensures FilesKept(rules, ms, Canonical(rules, scheme, ms))
    ensures forall m :: m in Canonical(rules, scheme, ms) ==> PortablePath(m.parts)
  {
    hide Identity, Name, Codes, ComesFrom, StaysIn;
    var files := SortedIsWellKeyed(rules, ms);
    var record := RecordBytes(rules, scheme, files);
    var out := Members(rules, record, files);
    forall i, j | 0 <= i < j < |out| ensures out[i].parts != out[j].parts {
      assert files[i] in files && files[j] in files && files[i].key != files[j].key;
    }
    forall m | m in out ensures ComesFrom(rules, ms, m) && PortablePath(m.parts) {
      var i :| 0 <= i < |out| && out[i] == m;
      assert files[i] in files;
      Kept(rules, ms, files[i].value, m);
    }
    forall m | m in ms && !m.directory ensures StaysIn(rules, out, m) {
      var x := Keyed(Codes(Name(m.parts)), m);
      assert x in files;
      var i :| 0 <= i < |files| && files[i] == x;
      Stays(rules, out, m, out[i]);
    }
  }

  lemma {:induction false} Kept(rules: Rules, ms: seq<Member>, m0: Member, m: Member)
    requires m0 in ms && SameFile(rules, m0, m)
    ensures ComesFrom(rules, ms, m)
  {
  }

  lemma {:induction false} Stays(rules: Rules, out: seq<Member>, m: Member, m': Member)
    requires m' in out && SameFile(rules, m, m')
    ensures StaysIn(rules, out, m)
  {
  }

  // The canonical wheel passes the identity check, and its RECORD passes the verifier.
  lemma {:induction false} CanonicalVerifies(rules: Rules, scheme: Scheme, ms: seq<Member>)
    requires Sound(rules, scheme) && Accepted(rules, ms)
    ensures Accepted(rules, Canonical(rules, scheme, ms))
    ensures RecordHolds(rules, scheme, Canonical(rules, scheme, ms))
  {
    hide Identity, Name, Codes, Lines, LastRow, RowsHold, Members, FilesKept;
    var out := Canonical(rules, scheme, ms);
    CanonicalKeepsFiles(rules, scheme, ms);
    IdentityStays(rules, ms, out);
    var files := SortedIsWellKeyed(rules, ms);
    RecordIsThere(rules, ms);
    var r :| r in ms && !r.directory && r.parts == rules.Record();
    var x := Keyed(Codes(Name(r.parts)), r);
    assert x in files;
    var record := RecordBytes(rules, scheme, files);
    CanonicalRowsHold(rules, scheme, files, record);
    RowsHaveNoReturn(rules, scheme, files);
    var rows := Lines(rules, scheme, files) + [LastRow(rules)];
    ReadsBack(rows);
    assert RecordText(rules, scheme, out, record);
    RecordIsWritten(rules, files, record, x);
  }

  lemma {:induction false} RecordIsWritten(rules: Rules, files: seq<Keyed<Member>>, record: Bytes, x: Keyed<Member>)
    requires x in files && x.value.parts == rules.Record()
    ensures Member(rules.Record(), false, record, false) in Members(rules, record, files)
  {
    var i :| 0 <= i < |files| && files[i] == x;
    assert Members(rules, record, files)[i] == Member(rules.Record(), false, record, false);
  }

  // ---- What the result depends on ----

  // The files as values, whatever their order and whatever their RECORD said.
  function Content(rules: Rules, ms: seq<Member>): set<Member> {
    set m | m in ms && !m.directory :: Written(rules, [], m)
  }

  function Blank(rules: Rules, files: seq<Keyed<Member>>): (r: seq<Keyed<Member>>)
    ensures |r| == |files|
    ensures forall i :: 0 <= i < |r| ==> r[i] == Keyed(files[i].key, Written(rules, [], files[i].value))
  {
    seq(|files|, i requires 0 <= i < |files| => Keyed(files[i].key, Written(rules, [], files[i].value)))
  }

  lemma {:induction false} BlankLines(rules: Rules, scheme: Scheme, files: seq<Keyed<Member>>)
    ensures Lines(rules, scheme, Blank(rules, files)) == Lines(rules, scheme, files)
  {
    hide RecordLine;
    if files != [] {
      var n := |files| - 1;
      BlankLines(rules, scheme, files[..n]);
      assert Blank(rules, files)[..n] == Blank(rules, files[..n]);
    }
  }

  lemma {:induction false} BlankMembers(rules: Rules, scheme: Scheme, files: seq<Keyed<Member>>)
    ensures Members(rules, RecordBytes(rules, scheme, files), files)
      == Members(rules, RecordBytes(rules, scheme, Blank(rules, files)), Blank(rules, files))
  {
    hide Lines, LastRow;
    BlankLines(rules, scheme, files);
  }

  lemma {:induction false} BlankedFiles(rules: Rules, ms: seq<Member>) returns (blank: seq<Keyed<Member>>)
    requires Accepted(rules, ms)
    ensures blank == Blank(rules, Sort(KeyedFiles(ms))) && Ascending(blank) && DistinctKeys(blank)
    ensures forall x :: x in blank <==> x.value in Content(rules, ms) && x.key == Codes(Name(x.value.parts))
  {
    hide Identity, Name, Codes, LexLe;
    var files := SortedIsWellKeyed(rules, ms);
    blank := Blank(rules, files);
    forall x | x in blank ensures x.value in Content(rules, ms) && x.key == Codes(Name(x.value.parts)) {
      var i :| 0 <= i < |blank| && blank[i] == x;
      assert files[i] in files;
    }
    forall x: Keyed<Member> | x.value in Content(rules, ms) && x.key == Codes(Name(x.value.parts)) ensures x in blank {
      var m :| m in ms && !m.directory && x.value == Written(rules, [], m);
      var y := Keyed(Codes(Name(m.parts)), m);
      assert y in files;
      var i :| 0 <= i < |files| && files[i] == y;
      assert blank[i] == x;
    }
  }

  lemma {:induction false} SameElementsSameMultiset(a: seq<Keyed<Member>>, b: seq<Keyed<Member>>)
    requires DistinctKeys(a) && DistinctKeys(b) && forall x :: x in a <==> x in b
    ensures multiset(a) == multiset(b)
  {
    forall x ensures multiset(a)[x] == multiset(b)[x] {
      CountsOnce(a, x);
      CountsOnce(b, x);
    }
  }

  lemma {:induction false} CountsOnce(s: seq<Keyed<Member>>, x: Keyed<Member>)
    requires DistinctKeys(s)
    ensures multiset(s)[x] == if x in s then 1 else 0
  {
    if x in s {
      var i :| 0 <= i < |s| && s[i] == x;
      Once(s, i);
      assert x in multiset(s);
    } else {
      assert x !in multiset(s);
    }
  }

  // Only names, bytes and executable bits matter: not the order, the directory entries or the old RECORD.
  lemma {:induction false} OnlyContentMatters(rules: Rules, scheme: Scheme, a: seq<Member>, b: seq<Member>)
    requires Accepted(rules, a) && Accepted(rules, b) && Content(rules, a) == Content(rules, b)
    ensures Canonical(rules, scheme, a) == Canonical(rules, scheme, b)
  {
    hide Accepted, Content, Blank, Members, RecordBytes, KeyedFiles, Name, Codes;
    var x := BlankedFiles(rules, a);
    var y := BlankedFiles(rules, b);
    SameElementsSameMultiset(x, y);
    AscendingUnique(x, y);
    BlankMembers(rules, scheme, Sort(KeyedFiles(a)));
    BlankMembers(rules, scheme, Sort(KeyedFiles(b)));
  }

  lemma {:induction false} CanonicalKeepsContent(rules: Rules, scheme: Scheme, ms: seq<Member>)
    requires Accepted(rules, ms)
    ensures Content(rules, Canonical(rules, scheme, ms)) == Content(rules, ms)
  {
    hide Identity, Name, Codes, RecordBytes;
    var files := SortedIsWellKeyed(rules, ms);
    var record := RecordBytes(rules, scheme, files);
    var out := Members(rules, record, files);
    forall c | c in Content(rules, out) ensures c in Content(rules, ms) {
      var m :| m in out && !m.directory && c == Written(rules, [], m);
      var i :| 0 <= i < |out| && out[i] == m;
      assert files[i] in files;
      assert c == Written(rules, [], files[i].value);
    }
    forall c | c in Content(rules, ms) ensures c in Content(rules, out) {
      var m :| m in ms && !m.directory && c == Written(rules, [], m);
      var x := Keyed(Codes(Name(m.parts)), m);
      assert x in files;
      var i :| 0 <= i < |files| && files[i] == x;
      assert out[i] in out && c == Written(rules, [], out[i]);
    }
  }

  ghost predicate HasTheFiles(rules: Rules, ms: seq<Member>, out: seq<Member>) {
    && (forall m: Member :: m.parts != rules.Record() ==> (m in out <==> m in ms && !m.directory))
    && exists record :: PlainRecord(rules, out, record)
  }

  ghost predicate PlainRecord(rules: Rules, out: seq<Member>, record: Bytes) {
    forall m: Member :: m.parts == rules.Record() ==>
      (m in out <==> m == Member(rules.Record(), false, record, false))
  }

  // Every name comes strictly before the next.
  predicate InNameOrder(out: seq<Member>) {
    forall i, j :: 0 <= i < j < |out| ==>
      Name(out[i].parts) != Name(out[j].parts) && LexLe(Codes(Name(out[i].parts)), Codes(Name(out[j].parts)))
  }

  // The canonical wheel is the files as they were, executable bits included, with a plain RECORD of its own, in the
  // order of their names.
  lemma {:induction false} CanonicalIsTheFiles(rules: Rules, scheme: Scheme, ms: seq<Member>)
    requires Sound(rules, scheme) && Accepted(rules, ms)
    ensures HasTheFiles(rules, ms, Canonical(rules, scheme, ms)) && InNameOrder(Canonical(rules, scheme, ms))
  {
    hide Identity, Name, Codes, LexLe, Members, InNameOrder, WellKeyed, PlainRecord;
    var files := SortedIsWellKeyed(rules, ms);
    var record := RecordBytes(rules, scheme, files);
    forall m: Member | m.parts != rules.Record()
      ensures m in Members(rules, record, files) <==> m in ms && !m.directory
    {
      OtherFileStays(rules, ms, files, record, m);
    }
    RecordIsThere(rules, ms);
    var r :| r in ms && !r.directory && r.parts == rules.Record();
    assert Keyed(Codes(Name(r.parts)), r) in files;
    RecordIsPlain(rules, files, record, Keyed(Codes(Name(r.parts)), r));
    FilesInOrder(rules, files, record);
  }

  lemma {:induction false} RecordIsPlain(rules: Rules, files: seq<Keyed<Member>>, record: Bytes, x: Keyed<Member>)
    requires x in files && x.value.parts == rules.Record()
    ensures PlainRecord(rules, Members(rules, record, files), record)
  {
    var out := Members(rules, record, files);
    RecordIsWritten(rules, files, record, x);
    forall m: Member | m.parts == rules.Record()
      ensures m in out <==> m == Member(rules.Record(), false, record, false)
    {
      if m in out { var i :| 0 <= i < |out| && out[i] == m; }
    }
  }

  lemma {:induction false} FilesInOrder(rules: Rules, files: seq<Keyed<Member>>, record: Bytes)
    requires WellKeyed(files) && Ascending(files)
    ensures InNameOrder(Members(rules, record, files))
  {
    hide Name, Codes, LexLe;
    forall i, j | 0 <= i < j < |files|
      ensures Name(files[i].value.parts) != Name(files[j].value.parts)
      ensures LexLe(Codes(Name(files[i].value.parts)), Codes(Name(files[j].value.parts)))
    {
      assert files[i] in files && files[j] in files;
      assert files[i].key != files[j].key;
    }
  }

  lemma {:induction false} OtherFileStays(rules: Rules, ms: seq<Member>, files: seq<Keyed<Member>>, record: Bytes,
        m: Member)
    requires m.parts != rules.Record() && forall x :: x in files <==> IsKeyedFile(ms, x)
    ensures m in Members(rules, record, files) <==> m in ms && !m.directory
  {
    hide Name, Codes;
    var out := Members(rules, record, files);
    if m in out {
      var i :| 0 <= i < |out| && out[i] == m;
      assert files[i] in files;
    }
    if m in ms && !m.directory {
      var x := Keyed(Codes(Name(m.parts)), m);
      assert x in files;
      var i :| 0 <= i < |files| && files[i] == x;
      assert out[i] == m;
    }
  }

  // Making a canonical wheel canonical changes nothing.
  lemma {:induction false} CanonicalIsStable(rules: Rules, scheme: Scheme, ms: seq<Member>)
    requires Sound(rules, scheme) && Accepted(rules, ms)
    ensures Canonical(rules, scheme, Canonical(rules, scheme, ms)) == Canonical(rules, scheme, ms)
  {
    hide Accepted, Canonical, Content;
    CanonicalVerifies(rules, scheme, ms);
    CanonicalKeepsContent(rules, scheme, ms);
    OnlyContentMatters(rules, scheme, Canonical(rules, scheme, ms), ms);
  }

  // ---- The program ----

  // The rewrite as it runs, after the identity check and with the verification that ends it.
  method Canonicalize(rules: Rules, scheme: Scheme, ms: seq<Member>) returns (r: Option<seq<Member>>)
    requires Sound(rules, scheme) && Accepted(rules, ms)
    ensures r == Some(Canonical(rules, scheme, ms))
  {
    hide Accepted, Canonical, RecordHolds, RecordLine, LastRow, Name, Codes, Sort;
    var files: seq<Keyed<Member>> := [];
    for i := 0 to |ms|
      invariant files == KeyedFiles(ms[..i])
    {
      assert ms[..i + 1][..i] == ms[..i];
      if !ms[i].directory { files := files + [Keyed(Codes(Name(ms[i].parts)), ms[i])]; }
    }
    assert ms[..|ms|] == ms;
    var sorted := Sort(files);
    var rows: seq<Row> := [];
    for i := 0 to |sorted|
      invariant rows == Lines(rules, scheme, sorted[..i])
    {
      assert sorted[..i + 1][..i] == sorted[..i];
      if sorted[i].value.parts != rules.Record() { rows := rows + [RecordLine(scheme, sorted[i].value)]; }
    }
    assert sorted[..|sorted|] == sorted;
    var record := scheme.encode(Render(rows + [LastRow(rules)]));
    var out: seq<Member> := [];
    for i := 0 to |sorted|
      invariant out == Members(rules, record, sorted)[..i]
    {
      out := out + [Written(rules, record, sorted[i].value)];
    }
    assert out == Canonical(rules, scheme, ms) by { CanonicalIs(rules, scheme, ms, record, out); }
    CanonicalVerifies(rules, scheme, ms);
    var ok := VerifyRecord(rules, scheme, out);
    return if ok then Some(out) else None;
  }

  lemma {:induction false} CanonicalIs(rules: Rules, scheme: Scheme, ms: seq<Member>, record: Bytes, out: seq<Member>)
    requires record == RecordBytes(rules, scheme, Sort(KeyedFiles(ms)))
    requires out == Members(rules, record, Sort(KeyedFiles(ms)))
    ensures out == Canonical(rules, scheme, ms)
  {
  }
}
