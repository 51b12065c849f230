/**
 Making a wheel canonical: members sorted by name, modes and RECORD normalised; and the verifier that its RECORD
 lists exactly its files.
 */
module Wheel {
  import opened Wrappers
  import opened Bytes
  import opened ArchiveTree
  import opened WheelIdentity
  import opened Sorting
  import opened Csv

  // Text as bytes, and the unpadded URL-safe form of a SHA-256 digest.
  datatype Scheme = Scheme(encode: string -> Bytes, decode: Bytes -> Option<string>, digest: Bytes -> string) {
    ghost predicate Sound() {
      (forall s :: decode(encode(s)) == Some(s)) && (forall b :: '\r' !in digest(b))
    }
  }

  // ---- Names ----

  predicate PortablePart(part: string) { part != "" && '/' !in part && '\r' !in part }

  predicate PortablePath(p: Path) { forall i :: 0 <= i < |p| ==> PortablePart(p[i]) }

  function Name(p: Path): string {
    if |p| == 1 then p[0] else p[0] + ("/" + Name(p[1..]))
  }

  // Where the first component of a name ends.
  lemma {:induction false} FirstPart(a: string, ra: string, b: string, rb: string)
    requires '/' !in a && '/' !in b && a + ra == b + rb
    requires (ra == "" || ra[0] == '/') && (rb == "" || rb[0] == '/')
    ensures a == b && ra == rb
  {
    var t := a + ra;
    assert forall k :: 0 <= k < |b| ==> t[k] == b[k] && b[k] in b;
    assert forall k :: 0 <= k < |a| ==> t[k] == a[k] && a[k] in a;
    assert (ra != "" ==> t[|a|] == '/') && (rb != "" ==> t[|b|] == '/');
    assert |a| == |b|;
    assert a == (a + ra)[..|a|] && b == (b + rb)[..|b|];
    assert ra == (a + ra)[|a|..] && rb == (b + rb)[|b|..];
  }

  lemma {:induction false} NamesAreDistinct(a: Path, b: Path)
    requires PortablePath(a) && PortablePath(b) && Name(a) == Name(b)
    ensures a == b
    decreases |a|
  {
    var ra, rb := Tail(a), Tail(b);
    assert a[0] + ra == Name(a) && b[0] + rb == Name(b);
    FirstPart(a[0], ra, b[0], rb);
    if |a| > 1 {
      assert Name(a[1..]) == ra[1..] && Name(b[1..]) == rb[1..];
      NamesAreDistinct(a[1..], b[1..]);
      assert a == [a[0]] + a[1..] && b == [b[0]] + b[1..];
    } else {
      assert |b| == 1;
      assert a == [a[0]] && b == [b[0]];
    }
  }

  function Tail(p: Path): string { if |p| == 1 then "" else "/" + Name(p[1..]) }

  lemma {:induction false} NameHasNoReturn(p: Path)
    requires PortablePath(p)
    ensures '\r' !in Name(p)
  {
    if |p| > 1 { NameHasNoReturn(p[1..]); }
  }

  // Code points, the order strings sort in.
  function Codes(s: string): (k: Key)
    ensures |k| == |s| && forall i :: 0 <= i < |k| ==> k[i] == s[i] as nat
  {
    seq(|s|, i requires 0 <= i < |s| => s[i] as nat)
  }

  lemma {:induction false} CodesAreDistinct(a: string, b: string)
    requires Codes(a) == Codes(b)
    ensures a == b
  {
    assert |a| == |b|;
    forall i | 0 <= i < |a| ensures a[i] == b[i] { assert Codes(a)[i] == Codes(b)[i]; }
  }

  // ---- Decimal sizes ----

  function Decimal(n: nat): (s: string)
    ensures '\r' !in s
  {
    if n < 10 then ["0123456789"[n]] else Decimal(n / 10) + ["0123456789"[n % 10]]
  }

  // The number a digit string stands for.
  function NumberOf(s: string): nat {
    if s == "" then 0 else 10 * NumberOf(s[..|s| - 1]) + DigitValue(s[|s| - 1])
  }

  function DigitValue(c: char): nat { if '0' <= c <= '9' then (c as int - '0' as int) as nat else 0 }

  // `s` writes `n` in decimal, without leading zeros.
  predicate WritesNumber(s: string, n: nat) {
    && s != "" && (forall i :: 0 <= i < |s| ==> '0' <= s[i] <= '9') && (s[0] == '0' ==> s == "0")
    && NumberOf(s) == n
  }

  lemma {:induction false} DigitIs(n: nat)
    requires n < 10
    ensures '0' <= "0123456789"[n] <= '9' && DigitValue("0123456789"[n]) == n && ("0123456789"[n] == '0' ==> n == 0)
  {
  }

  lemma {:induction false} DecimalWrites(n: nat)
    ensures WritesNumber(Decimal(n), n)
  {
    DigitIs(n % 10);
    if n < 10 {
      assert NumberOf([Decimal(n)[0]][..0]) == 0;
    } else {
      DecimalWrites(n / 10);
      WritesPositive(Decimal(n / 10), n / 10);
      var front, last := Decimal(n / 10), "0123456789"[n % 10];
      assert Decimal(n) == front + [last];
      assert (front + [last])[..|front|] == front;
    }
  }

  lemma {:induction false} WritesPositive(s: string, n: nat)
    requires WritesNumber(s, n) && n > 0
    ensures s[0] != '0'
  {
    if s[0] == '0' { assert s[..0] == "" && NumberOf(s[..0]) == 0; }
  }

  // There is one way to write a number.
  lemma {:induction false} OneWayToWrite(s: string, t: string, n: nat)
    requires WritesNumber(s, n) && WritesNumber(t, n)
    ensures s == t
    decreases |s|
  {
    if |s| == 1 || |t| == 1 {
      ShortWriting(s, t, n);
    } else {
      var a, b := s[..|s| - 1], t[..|t| - 1];
      assert NumberOf(s) == 10 * NumberOf(a) + DigitValue(s[|s| - 1]);
      assert NumberOf(t) == 10 * NumberOf(b) + DigitValue(t[|t| - 1]);
      assert NumberOf(a) == NumberOf(b) && DigitValue(s[|s| - 1]) == DigitValue(t[|t| - 1]);
      assert a[0] == s[0] && b[0] == t[0];
      OneWayToWrite(a, b, NumberOf(a));
      assert s == a + [s[|s| - 1]] && t == b + [t[|t| - 1]];
    }
  }

  lemma {:induction false} LongIsLarge(s: string)
    requires |s| > 1 && (forall i :: 0 <= i < |s| ==> '0' <= s[i] <= '9') && s[0] != '0'
    ensures NumberOf(s) >= 10
  {
    var front := s[..|s| - 1];
    if |s| == 2 {
      assert front == [s[0]] && front[..0] == "";
      assert NumberOf(front) == DigitValue(s[0]);
    } else {
      LongIsLarge(front);
    }
  }

  lemma {:induction false} ShortWriting(s: string, t: string, n: nat)
    requires WritesNumber(s, n) && WritesNumber(t, n) && (|s| == 1 || |t| == 1)
    ensures s == t
  {
    if |s| > 1 { LongIsLarge(s); }
    if |t| > 1 { LongIsLarge(t); }
    if |s| == 1 { assert s[..0] == "" && NumberOf(s) == DigitValue(s[0]); }
    if |t| == 1 { assert t[..0] == "" && NumberOf(t) == DigitValue(t[0]); }
    assert s == [s[0]] && t == [t[0]];
  }

  // A name is its components with slashes between them.
  lemma {:induction false} NameOfBoth(a: Path, b: Path)
    requires a != [] && b != []
    ensures Name(a + b) == Name(a) + "/" + Name(b)
  {
    if |a| == 1 {
      assert (a + b)[1..] == b;
    } else {
      NameOfBoth(a[1..], b);
      assert (a + b)[1..] == a[1..] + b;
    }
  }

  // ---- The canonical wheel ----

  // The files in the order they are listed, under the key they sort by.
  function KeyedFiles(ms: seq<Member>): seq<Keyed<Member>> {
    if ms == [] then []
    else
      var m, before := ms[|ms| - 1], KeyedFiles(ms[..|ms| - 1]);
      if m.directory then before else before + [Keyed(Codes(Name(m.parts)), m)]
  }

  function RecordLine(scheme: Scheme, m: Member): Row {
    [Name(m.parts), "sha256=" + scheme.digest(m.bytes), Decimal(|m.bytes|)]
  }

  function LastRow(rules: Rules): Row { [Name(rules.Record()), "", ""] }

  // A line for every file but RECORD, in order.
  function Lines(rules: Rules, scheme: Scheme, files: seq<Keyed<Member>>): seq<Row> {
    if files == [] then []
    else
      var before, m := Lines(rules, scheme, files[..|files| - 1]), files[|files| - 1].value;
      if m.parts == rules.Record() then before else before + [RecordLine(scheme, m)]
  }

  function RecordBytes(rules: Rules, scheme: Scheme, files: seq<Keyed<Member>>): Bytes {
    scheme.encode(Render(Lines(rules, scheme, files) + [LastRow(rules)]))
  }

  function Written(rules: Rules, record: Bytes, m: Member): Member {
    if m.parts == rules.Record() then Member(m.parts, false, record, false) else m
  }

  function Members(rules: Rules, record: Bytes, files: seq<Keyed<Member>>): (r: seq<Member>)
    ensures |r| == |files| && forall i :: 0 <= i < |r| ==> r[i] == Written(rules, record, files[i].value)
  {
    seq(|files|, i requires 0 <= i < |files| => Written(rules, record, files[i].value))
  }

  function Canonical(rules: Rules, scheme: Scheme, ms: seq<Member>): seq<Member> {
    var files := Sort(KeyedFiles(ms));
    Members(rules, RecordBytes(rules, scheme, files), files)
  }

  // The identity check, with the names it has found portable.
  ghost predicate Accepted(rules: Rules, ms: seq<Member>) {
    Identity(rules, ms) && forall m :: m in ms ==> PortablePath(m.parts)
  }

  // ---- The RECORD verifier ----

  // The row a file must have.
  function RowFor(rules: Rules, scheme: Scheme, m: Member): Row {
    if m.parts == rules.Record() then LastRow(rules) else RecordLine(scheme, m)
  }

  // The row of a file: its name, its digest, and its size in decimal; RECORD's own has neither digest nor size.
  predicate Describes(rules: Rules, scheme: Scheme, m: Member, row: Row) {
    && |row| == 3 && row[0] == Name(m.parts)
    && if m.parts == rules.Record() then row[1] == "" && row[2] == ""
      else row[1] == "sha256=" + scheme.digest(m.bytes) && WritesNumber(row[2], |m.bytes|)
  }

  lemma {:induction false} RowIsDescription(rules: Rules, scheme: Scheme, m: Member, row: Row)
    ensures row == RowFor(rules, scheme, m) <==> Describes(rules, scheme, m, row)
  {
    DecimalWrites(|m.bytes|);
    if Describes(rules, scheme, m, row) {
      assert row == [row[0], row[1], row[2]];
      if m.parts != rules.Record() { OneWayToWrite(row[2], Decimal(|m.bytes|), |m.bytes|); }
    }
  }

  // RECORD's rows describe the files one by one.
  ghost predicate RowsDescribe(rules: Rules, scheme: Scheme, ms: seq<Member>, rows: seq<Row>) {
    && DistinctNames(rows)
    && (forall m :: m in ms && !m.directory ==> exists row :: row in rows && Describes(rules, scheme, m, row))
    && (forall row :: row in rows ==> exists m :: m in ms && !m.directory && Describes(rules, scheme, m, row))
  }

  lemma {:induction false} RowsAreDescriptions(rules: Rules, scheme: Scheme, ms: seq<Member>, rows: seq<Row>)
    ensures RowsHold(rules, scheme, ms, rows) <==> RowsDescribe(rules, scheme, ms, rows)
  {
    hide RowFor, Describes, DistinctNames;
    forall m, row ensures row == RowFor(rules, scheme, m) <==> Describes(rules, scheme, m, row) {
      RowIsDescription(rules, scheme, m, row);
    }
    if RowsHold(rules, scheme, ms, rows) {
      forall m | m in ms && !m.directory ensures exists row :: row in rows && Describes(rules, scheme, m, row) {
        assert Describes(rules, scheme, m, RowFor(rules, scheme, m));
      }
      forall row | row in rows ensures exists m :: m in ms && !m.directory && Describes(rules, scheme, m, row) {
        assert IsFileRow(rules, scheme, ms, row);
      }
    }
    if RowsDescribe(rules, scheme, ms, rows) {
      forall row | row in rows ensures IsFileRow(rules, scheme, ms, row) {
        var m :| m in ms && !m.directory && Describes(rules, scheme, m, row);
      }
    }
  }

  ghost predicate DistinctNames(rows: seq<Row>) {
    && (forall i :: 0 <= i < |rows| ==> |rows[i]| == 3)
    && (forall i, j :: 0 <= i < j < |rows| ==> rows[i][0] != rows[j][0])
  }

  // The rows are one for each file, and no others.
  ghost predicate RowsHold(rules: Rules, scheme: Scheme, ms: seq<Member>, rows: seq<Row>) {
    && DistinctNames(rows)
    && (forall m :: m in ms && !m.directory ==> RowFor(rules, scheme, m) in rows)
    && (forall row :: row in rows ==> IsFileRow(rules, scheme, ms, row))
  }

  ghost predicate IsFileRow(rules: Rules, scheme: Scheme, ms: seq<Member>, row: Row) {
    exists m :: m in ms && !m.directory && row == RowFor(rules, scheme, m)
  }

  ghost predicate RecordHolds(rules: Rules, scheme: Scheme, ms: seq<Member>) {
    exists r :: r in ms && !r.directory && r.parts == rules.Record() && RecordText(rules, scheme, ms, r.bytes)
  }

  ghost predicate RecordText(rules: Rules, scheme: Scheme, ms: seq<Member>, bytes: Bytes) {
    && scheme.decode(bytes).Some? && Read(scheme.decode(bytes).value).Some?
    && RowsHold(rules, scheme, ms, Read(scheme.decode(bytes).value).value)
  }

  ghost predicate ByName(rows: seq<Row>, records: map<string, Row>) {
    && (forall i :: 0 <= i < |rows| ==> |rows[i]| == 3 && rows[i][0] in records && records[rows[i][0]] == rows[i])
    && (forall n :: n in records ==> exists i :: 0 <= i < |rows| && rows[i][0] == n)
  }

  // The rows by name, and the check that no name repeats.
  method RowsByName(rows: seq<Row>) returns (ok: bool, records: map<string, Row>)
    ensures ok <==> DistinctNames(rows)
    ensures ok ==> ByName(rows, records)
  {
    records := map[];
    if exists i :: 0 <= i < |rows| && |rows[i]| != 3 { return false, records; }
    for i := 0 to |rows|
      invariant forall j :: 0 <= j < i ==> rows[j][0] in records && records[rows[j][0]] == rows[j]
      invariant forall n :: n in records ==> exists j :: 0 <= j < i && rows[j][0] == n
      invariant forall j, k :: 0 <= j < k < i ==> rows[j][0] != rows[k][0]
    {
      if rows[i][0] in records { return false, records; }
      records := records[rows[i][0] := rows[i]];
    }
    ok := true;
  }

  lemma {:induction false} RowName(rules: Rules, scheme: Scheme, m: Member)
    ensures |RowFor(rules, scheme, m)| == 3 && RowFor(rules, scheme, m)[0] == Name(m.parts)
  {
  }

  // The names agree and every file has its row.
  method MatchRows(rules: Rules, scheme: Scheme, ms: seq<Member>, rows: seq<Row>, records: map<string, Row>)
    returns (ok: bool)
    requires DistinctNames(rows) && ByName(rows, records)
    ensures ok <==> RowsHold(rules, scheme, ms, rows)
  {
    hide RowFor, Name;
    var names := set m | m in ms && !m.directory :: Name(m.parts);
    if records.Keys != names {
      NamesDiffer(rules, scheme, ms, rows, records, names);
      return false;
    }
    for i := 0 to |ms|
      invariant forall j :: 0 <= j < i && !ms[j].directory ==>
        records[Name(ms[j].parts)] == RowFor(rules, scheme, ms[j])
    {
      var m := ms[i];
      if !m.directory && records[Name(m.parts)] != RowFor(rules, scheme, m) {
        WrongRow(rules, scheme, ms, rows, records, m);
        return false;
      }
    }
    AllRowsHold(rules, scheme, ms, rows, records);
    return true;
  }

  lemma {:induction false} NamesDiffer(rules: Rules, scheme: Scheme, ms: seq<Member>, rows: seq<Row>,
        records: map<string, Row>, names: set<string>)
    requires ByName(rows, records) && records.Keys != names && names == set m | m in ms && !m.directory :: Name(m.parts)
    ensures !RowsHold(rules, scheme, ms, rows)
  {
    hide RowFor, Name;
    if RowsHold(rules, scheme, ms, rows) {
      forall n ensures n in records <==> n in names {
        if n in records {
          var i :| 0 <= i < |rows| && rows[i][0] == n;
          assert IsFileRow(rules, scheme, ms, rows[i]);
          var m :| m in ms && !m.directory && rows[i] == RowFor(rules, scheme, m);
          RowName(rules, scheme, m);
        }
        if n in names {
          var m :| m in ms && !m.directory && Name(m.parts) == n;
          RowName(rules, scheme, m);
          var i :| 0 <= i < |rows| && rows[i] == RowFor(rules, scheme, m);
        }
      }
      assert false;
    }
  }

  lemma {:induction false} WrongRow(rules: Rules, scheme: Scheme, ms: seq<Member>, rows: seq<Row>,
        records: map<string, Row>, m: Member)
    requires ByName(rows, records) && m in ms && !m.directory && Name(m.parts) in records
    requires records[Name(m.parts)] != RowFor(rules, scheme, m)
    ensures !RowsHold(rules, scheme, ms, rows)
  {
    hide RowFor, Name;
    RowName(rules, scheme, m);
    forall i | 0 <= i < |rows| ensures rows[i] != RowFor(rules, scheme, m) {
      assert records[rows[i][0]] == rows[i];
    }
  }

  lemma {:induction false} AllRowsHold(rules: Rules, scheme: Scheme, ms: seq<Member>, rows: seq<Row>,
        records: map<string, Row>)
    requires DistinctNames(rows) && ByName(rows, records)
    requires records.Keys == set m | m in ms && !m.directory :: Name(m.parts)
    requires forall m :: m in ms && !m.directory ==> records[Name(m.parts)] == RowFor(rules, scheme, m)
    ensures RowsHold(rules, scheme, ms, rows)
  {
    hide RowFor, Name;
    forall m | m in ms && !m.directory ensures RowFor(rules, scheme, m) in rows {
      assert Name(m.parts) in records.Keys;
      var i :| 0 <= i < |rows| && rows[i][0] == Name(m.parts);
    }
    forall row | row in rows ensures IsFileRow(rules, scheme, ms, row) {
      var i :| 0 <= i < |rows| && rows[i] == row;
      assert row[0] in records.Keys;
      var m :| m in ms && !m.directory && Name(m.parts) == row[0];
    }
  }

  // The verifier, once the identity check has passed.
  method VerifyRecord(rules: Rules, scheme: Scheme, ms: seq<Member>) returns (ok: bool)
    requires rules.Sound() && Accepted(rules, ms)
    ensures ok <==> RecordHolds(rules, scheme, ms)
    ensures ok <==> RecordDescribes(rules, scheme, ms)
  {
    hide Read, RecordLine, LastRow, Identity, RecordDescribes;
    HoldsMeans(rules, scheme, ms);
    RecordIsThere(rules, ms);
    var r :| r in ms && !r.directory && r.parts == rules.Record();
    OnlyOneRecord(rules, scheme, ms, r);
    var text := scheme.decode(r.bytes);
    if text.None? { return false; }
    var parsed := ReadRows(text.value);
    if parsed.None? { return false; }
    var rows := parsed.value;
    var distinct, records := RowsByName(rows);
    if !distinct { return false; }
    ok := MatchRows(rules, scheme, ms, rows, records);
  }

  predicate IsRecord(rules: Rules, ms: seq<Member>, r: Member) {
    r in ms && !r.directory && r.parts == rules.Record()
  }

  predicate RecordReads(scheme: Scheme, bytes: Bytes, rows: seq<Row>) {
    scheme.decode(bytes).Some? && Read(scheme.decode(bytes).value) == Some(rows)
  }

  // RECORD reads as rows that describe the files one by one.
  ghost predicate RecordDescribes(rules: Rules, scheme: Scheme, ms: seq<Member>) {
    exists r, rows ::
      IsRecord(rules, ms, r) && RecordReads(scheme, r.bytes, rows) && RowsDescribe(rules, scheme, ms, rows)
  }

  lemma {:induction false} HoldsMeans(rules: Rules, scheme: Scheme, ms: seq<Member>)
    ensures RecordHolds(rules, scheme, ms) <==> RecordDescribes(rules, scheme, ms)
  {
    hide RowsHold, RowsDescribe, Read;
    if RecordHolds(rules, scheme, ms) {
      var r :| r in ms && !r.directory && r.parts == rules.Record() && RecordText(rules, scheme, ms, r.bytes);
      var rows := Read(scheme.decode(r.bytes).value).value;
      RowsAreDescriptions(rules, scheme, ms, rows);
      assert IsRecord(rules, ms, r) && RecordReads(scheme, r.bytes, rows);
    }
    if r, rows :|
      IsRecord(rules, ms, r) && RecordReads(scheme, r.bytes, rows) && RowsDescribe(rules, scheme, ms, rows)
    {
      RowsAreDescriptions(rules, scheme, ms, rows);
      assert RecordText(rules, scheme, ms, r.bytes);
    }
  }

  lemma {:induction false} RecordIsThere(rules: Rules, ms: seq<Member>)
    requires rules.Sound() && Identity(rules, ms)
    ensures exists r :: r in ms && !r.directory && r.parts == rules.Record()
  {
    hide PublicTreesMatch, Admissible, InfoPaths;
    InfoFile(rules, ms);
  }

  lemma {:induction false} OnlyOneRecord(rules: Rules, scheme: Scheme, ms: seq<Member>, r: Member)
    requires Identity(rules, ms) && r in ms && !r.directory && r.parts == rules.Record()
    ensures RecordHolds(rules, scheme, ms) <==> RecordText(rules, scheme, ms, r.bytes)
  {
    hide PublicTreesMatch, InfoPaths, RecordText;
    if RecordHolds(rules, scheme, ms) {
      var x :| x in ms && !x.directory && x.parts == rules.Record() && RecordText(rules, scheme, ms, x.bytes);
      OnePerPath(ms, x, r);
    }
  }

  // ---- The listed files, keyed ----

  predicate IsKeyedFile(ms: seq<Member>, x: Keyed<Member>) {
    x.value in ms && !x.value.directory && x.key == Codes(Name(x.value.parts))
  }

  lemma {:induction false} KeyedFilesAre(ms: seq<Member>)
    ensures forall x :: x in KeyedFiles(ms) <==> IsKeyedFile(ms, x)
  {
    if ms != [] {
      var m, before := ms[|ms| - 1], ms[..|ms| - 1];
      KeyedFilesAre(before);
      assert ms == before + [m];
    }
  }

  lemma {:induction false} FilesHaveDistinctKeys(ms: seq<Member>)
    requires Distinct(ms) && forall m :: m in ms ==> PortablePath(m.parts)
    ensures DistinctKeys(KeyedFiles(ms))
  {
    if ms != [] {
      var m, before := ms[|ms| - 1], ms[..|ms| - 1];
      FilesHaveDistinctKeys(before);
      var files := KeyedFiles(before);
      forall i | 0 <= i < |files| ensures files[i].key != Codes(Name(m.parts)) {
        KeyedFilesAre(before);
        assert files[i] in files;
        if files[i].key == Codes(Name(m.parts)) { SameNameSamePath(files[i].value, m); }
      }
    }
  }

  lemma {:induction false} SameNameSamePath(a: Member, b: Member)
    requires PortablePath(a.parts) && PortablePath(b.parts) && Codes(Name(a.parts)) == Codes(Name(b.parts))
    ensures a.parts == b.parts
  {
    CodesAreDistinct(Name(a.parts), Name(b.parts));
    NamesAreDistinct(a.parts, b.parts);
  }

  // The files of an accepted wheel in their canonical order.
  lemma {:induction false} SortedFiles(rules: Rules, ms: seq<Member>) returns (files: seq<Keyed<Member>>)
    requires Accepted(rules, ms)
    ensures files == Sort(KeyedFiles(ms)) && Ascending(files) && DistinctKeys(files)
    ensures forall x :: x in files <==> x in KeyedFiles(ms)
    ensures multiset(files) == multiset(KeyedFiles(ms))
  {
    hide Identity;
    files := Sort(KeyedFiles(ms));
    assert Distinct(ms) by { AcceptedIsDistinct(rules, ms); }
    FilesHaveDistinctKeys(ms);
    SortPermutes(KeyedFiles(ms));
    SortAscends(KeyedFiles(ms));
    DistinctByMultiset(KeyedFiles(ms), files);
    forall x ensures x in files <==> x in KeyedFiles(ms) { SameElements(KeyedFiles(ms), x); }
  }

  lemma {:induction false} AcceptedIsDistinct(rules: Rules, ms: seq<Member>)
    requires Accepted(rules, ms)
    ensures Distinct(ms)
  {
  }

  // ---- The rows of the canonical RECORD ----

  lemma {:induction false} LinesAre(rules: Rules, scheme: Scheme, files: seq<Keyed<Member>>)
    ensures forall row :: row in Lines(rules, scheme, files) ==>
      exists i :: 0 <= i < |files| && IsLineOf(rules, scheme, files[i], row)
    ensures forall i :: 0 <= i < |files| && files[i].value.parts != rules.Record() ==>
      HasLine(rules, scheme, files, files[i])
  {
    hide RecordLine;
    if files != [] {
      var n := |files| - 1;
      LinesAre(rules, scheme, files[..n]);
      forall row | row in Lines(rules, scheme, files)
        ensures exists i :: 0 <= i < |files| && IsLineOf(rules, scheme, files[i], row)
      {
        if row in Lines(rules, scheme, files[..n]) {
          var i :| 0 <= i < n && IsLineOf(rules, scheme, files[..n][i], row);
          assert IsLineOf(rules, scheme, files[i], row);
        } else {
          assert IsLineOf(rules, scheme, files[n], row);
        }
      }
      forall i | 0 <= i < |files| && files[i].value.parts != rules.Record()
        ensures HasLine(rules, scheme, files, files[i])
      {
        if i < n { assert HasLine(rules, scheme, files[..n], files[..n][i]); }
      }
    }
  }

  predicate HasLine(rules: Rules, scheme: Scheme, files: seq<Keyed<Member>>, x: Keyed<Member>) {
    RecordLine(scheme, x.value) in Lines(rules, scheme, files)
  }

  predicate IsLineOf(rules: Rules, scheme: Scheme, x: Keyed<Member>, row: Row) {
    x.value.parts != rules.Record() && row == RecordLine(scheme, x.value)
  }

  ghost predicate WellKeyed(files: seq<Keyed<Member>>) {
    && DistinctKeys(files)
    && forall x :: x in files ==>
      x.key == Codes(Name(x.value.parts)) && !x.value.directory && PortablePath(x.value.parts)
  }

  lemma {:induction false} LinesAreDistinct(rules: Rules, scheme: Scheme, files: seq<Keyed<Member>>)
    requires WellKeyed(files)
    ensures DistinctNames(Lines(rules, scheme, files))
  {
    hide Name, Codes;
    if files != [] {
      var n := |files| - 1;
      var before := Lines(rules, scheme, files[..n]);
      LinesAreDistinct(rules, scheme, files[..n]);
      NewNameIsNew(rules, scheme, files);
    }
  }

  lemma {:induction false} NewNameIsNew(rules: Rules, scheme: Scheme, files: seq<Keyed<Member>>)
    requires WellKeyed(files) && files != []
    ensures var n := |files| - 1; var before := Lines(rules, scheme, files[..n]);
      forall i :: 0 <= i < |before| ==> |before[i]| > 0 && before[i][0] != Name(files[n].value.parts)
  {
    hide Name, Codes, Lines;
    var n := |files| - 1;
    var before := Lines(rules, scheme, files[..n]);
    LinesAre(rules, scheme, files[..n]);
    forall i | 0 <= i < |before| ensures |before[i]| > 0 && before[i][0] != Name(files[n].value.parts) {
      assert before[i] in before;
      var j :| 0 <= j < n && IsLineOf(rules, scheme, files[..n][j], before[i]);
      assert files[j].key != files[n].key;
      assert files[j] in files && files[n] in files;
    }
  }

  lemma {:induction false} RowsAreDistinct(rules: Rules, scheme: Scheme, files: seq<Keyed<Member>>)
    requires WellKeyed(files) && PortablePath(rules.Record())
    ensures DistinctNames(Lines(rules, scheme, files) + [LastRow(rules)])
  {
    hide Name, Codes;
    var lines := Lines(rules, scheme, files);
    LinesAreDistinct(rules, scheme, files);
    LinesAre(rules, scheme, files);
    forall i | 0 <= i < |lines| ensures lines[i][0] != Name(rules.Record()) {
      assert lines[i] in lines;
      var j :| 0 <= j < |files| && IsLineOf(rules, scheme, files[j], lines[i]);
      assert files[j] in files;
      if Name(files[j].value.parts) == Name(rules.Record()) { NamesAreDistinct(files[j].value.parts, rules.Record()); }
    }
  }

  // The rows are those of the canonical members.
  lemma {:induction false} CanonicalRowsHold(rules: Rules, scheme: Scheme, files: seq<Keyed<Member>>, record: Bytes)
    requires WellKeyed(files) && PortablePath(rules.Record())
    requires exists x :: x in files && x.value.parts == rules.Record()
    ensures RowsHold(rules, scheme, Members(rules, record, files), Lines(rules, scheme, files) + [LastRow(rules)])
  {
    hide Name, Codes, RecordLine, LastRow, DistinctNames;
    var ms := Members(rules, record, files);
    var rows := Lines(rules, scheme, files) + [LastRow(rules)];
    RowsAreDistinct(rules, scheme, files);
    LinesAre(rules, scheme, files);
    forall m | m in ms ensures RowFor(rules, scheme, m) in rows {
      var i :| 0 <= i < |ms| && ms[i] == m;
      assert files[i].value.parts != rules.Record() ==> HasLine(rules, scheme, files, files[i]);
    }
    forall row | row in rows ensures IsFileRow(rules, scheme, ms, row) {
      if row in Lines(rules, scheme, files) {
        var i :| 0 <= i < |files| && IsLineOf(rules, scheme, files[i], row);
        assert files[i] in files && ms[i] in ms && row == RowFor(rules, scheme, ms[i]);
      } else {
        var x :| x in files && x.value.parts == rules.Record();
        var i :| 0 <= i < |files| && files[i] == x;
        assert ms[i] in ms && row == RowFor(rules, scheme, ms[i]);
      }
    }
  }

  lemma {:induction false} RowsHaveNoReturn(rules: Rules, scheme: Scheme, files: seq<Keyed<Member>>)
    requires WellKeyed(files) && PortablePath(rules.Record()) && scheme.Sound()
    ensures var rows := Lines(rules, scheme, files) + [LastRow(rules)];
      forall i :: 0 <= i < |rows| ==> NoReturn(rows[i])
  {
    hide Name, Codes;
    var rows := Lines(rules, scheme, files) + [LastRow(rules)];
    LinesAre(rules, scheme, files);
    NameHasNoReturn(rules.Record());
    forall i | 0 <= i < |rows| ensures NoReturn(rows[i]) {
      if rows[i] in Lines(rules, scheme, files) {
        var j :| 0 <= j < |files| && IsLineOf(rules, scheme, files[j], rows[i]);
        assert files[j] in files;
        NameHasNoReturn(files[j].value.parts);
      }
    }
  }
}
