/**
 The identity check a wheel passes before and after it is made canonical: one portable tree, the exact metadata
 inventory, one data root, and two equal public trees that hold exactly what the embedded catalog lists.
 */
module WheelIdentity {
  import opened Wrappers
  import opened Bytes
  import opened ArchiveTree

  type Relative = seq<string>

  // What one release expects.  `allowed` is every check made of a member's path and kind alone; `inventory`
  // reads the expected public files off the canonical tree.
  datatype Rules = Rules(fold: Folding, allowed: (Path, bool) -> bool, isDistInfo: string -> bool, distInfo: string,
    isData: string -> bool, dataRoot: string, infoFiles: set<Relative>, infoDirectories: set<Relative>,
    canonical: Path, legacy: Path, inventory: map<Relative, Bytes> -> Option<set<Relative>>, metadataOk: Bytes -> bool)
  {
    function Record(): Path { [distInfo, "RECORD"] }

    function Metadata(): Path { [distInfo, "METADATA"] }

    // The metadata and data roots are distinct, the public trees are under the data root, the inventories name
    // RECORD, METADATA and the catalog.
    ghost predicate Sound() {
      && distInfo != dataRoot && canonical[0] == legacy[0] == dataRoot
      && ["RECORD"] in infoFiles && ["METADATA"] in infoFiles
      && forall files :: inventory(files).Some? ==> inventory(files).value != {}
    }
  }

  predicate IsPublic(prefix: Path, m: Member) { !m.directory && prefix < m.parts }

  // The files under a public root, by their path from it; a later member would replace an earlier one.
  function PublicFiles(prefix: Path, ms: seq<Member>): map<Relative, Bytes> {
    if ms == [] then map[]
    else
      var m, rest := ms[|ms| - 1], PublicFiles(prefix, ms[..|ms| - 1]);
      if IsPublic(prefix, m) then rest[m.parts[|prefix|..] := m.bytes] else rest
  }

  // The directories under a public root: those listed, and those the members' paths go through.
  function PublicDirectories(prefix: Path, ms: seq<Member>): set<Relative> {
    {[]} + (set m, n | m in ms && prefix < m.parts && 1 <= n < |m.parts| - |prefix| :: m.parts[|prefix|..][..n])
    + (set m | m in ms && prefix < m.parts && m.directory :: m.parts[|prefix|..])
  }

  function ExpectedDirectories(files: set<Relative>): set<Relative> {
    {[]} + (set p, n | p in files && 1 <= n < |p| :: p[..n])
  }

  ghost predicate PublicTreesMatch(rules: Rules, ms: seq<Member>) {
    var files := PublicFiles(rules.canonical, ms);
    var expected := rules.inventory(files);
    && (exists m :: m in ms && rules.canonical <= m.parts) && (exists m :: m in ms && rules.legacy <= m.parts)
    && expected.Some?
    && files.Keys == expected.value && PublicDirectories(rules.canonical, ms) == ExpectedDirectories(expected.value)
    && PublicFiles(rules.legacy, ms) == files
    && PublicDirectories(rules.legacy, ms) == ExpectedDirectories(expected.value)
  }

  // Paths from the metadata root, files and directories apart; the root itself has the empty path.
  function InfoPaths(rules: Rules, ms: seq<Member>, directory: bool): set<Relative> {
    set m | m in ms && m.parts[0] == rules.distInfo && m.directory == directory :: m.parts[1..]
  }

  ghost predicate Identity(rules: Rules, ms: seq<Member>) {
    && Admissible(rules.fold, ms)
    && (forall m :: m in ms ==> rules.allowed(m.parts, m.directory))
    && (set m | m in ms && rules.isDistInfo(m.parts[0]) :: m.parts[0]) == {rules.distInfo}
    && InfoPaths(rules, ms, false) == rules.infoFiles
    && InfoPaths(rules, ms, true) <= rules.infoDirectories
    && (set m | m in ms && rules.isData(m.parts[0]) :: m.parts[0]) == {rules.dataRoot}
    && PublicTreesMatch(rules, ms)
    && (forall m :: m in ms && m.parts == rules.Metadata() ==> rules.metadataOk(m.bytes))
  }

  // ---- Keeping the files and their bytes keeps the identity ----

  predicate SameFile(rules: Rules, a: Member, b: Member) {
    && !a.directory && !b.directory && a.parts == b.parts
    && (a.parts != rules.Record() ==> a.bytes == b.bytes)
  }

  // `b` has `a`'s files, with any RECORD, and no directories.
  ghost predicate FilesKept(rules: Rules, a: seq<Member>, b: seq<Member>) {
    && Distinct(b)
    && (forall m :: m in b ==> ComesFrom(rules, a, m))
    && (forall m :: m in a && !m.directory ==> StaysIn(rules, b, m))
  }

  ghost predicate ComesFrom(rules: Rules, a: seq<Member>, m: Member) { exists m0 :: m0 in a && SameFile(rules, m0, m) }

  ghost predicate StaysIn(rules: Rules, b: seq<Member>, m: Member) { exists m' :: m' in b && SameFile(rules, m, m') }

  // The file of `b` that a file of `a` became, and the file of `a` that a file of `b` was.
  lemma {:induction false} StillThere(rules: Rules, a: seq<Member>, b: seq<Member>, m: Member) returns (m': Member)
    requires FilesKept(rules, a, b) && m in a && !m.directory
    ensures m' in b && SameFile(rules, m, m')
  {
    hide ComesFrom;
    assert StaysIn(rules, b, m);
    m' :| m' in b && SameFile(rules, m, m');
  }

  lemma {:induction false} WasThere(rules: Rules, a: seq<Member>, b: seq<Member>, m: Member) returns (m0: Member)
    requires FilesKept(rules, a, b) && m in b
    ensures m0 in a && SameFile(rules, m0, m)
  {
    hide StaysIn;
    assert ComesFrom(rules, a, m);
    m0 :| m0 in a && SameFile(rules, m0, m);
  }

  lemma {:induction false} PublicFileIn(prefix: Path, ms: seq<Member>, r: Relative)
    ensures r in PublicFiles(prefix, ms) <==> exists m :: m in ms && IsPublic(prefix, m) && m.parts[|prefix|..] == r
    ensures r in PublicFiles(prefix, ms)
      ==> exists m ::
        m in ms && IsPublic(prefix, m) && m.parts[|prefix|..] == r && m.bytes == PublicFiles(prefix, ms)[r]
  {
    if ms != [] {
      var m, before := ms[|ms| - 1], ms[..|ms| - 1];
      PublicFileIn(prefix, before, r);
      assert ms == before + [m];
      if r in PublicFiles(prefix, before) {
        var x :| x in before && IsPublic(prefix, x) && x.parts[|prefix|..] == r
          && x.bytes == PublicFiles(prefix, before)[r];
        assert x in ms;
      }
      if !IsPublic(prefix, m) && (exists x :: x in ms && IsPublic(prefix, x) && x.parts[|prefix|..] == r) {
        var x :| x in ms && IsPublic(prefix, x) && x.parts[|prefix|..] == r;
        assert x in before;
      }
    }
  }

  lemma {:induction false} SameTail(prefix: Path, a: Path, b: Path)
    requires prefix < a && prefix < b && a[|prefix|..] == b[|prefix|..]
    ensures a == b
  {
    assert a == prefix + a[|prefix|..] && b == prefix + b[|prefix|..];
  }

  lemma {:induction false} PublicMember(prefix: Path, ms: seq<Member>, r: Relative) returns (m: Member)
    requires r in PublicFiles(prefix, ms)
    ensures m in ms && IsPublic(prefix, m) && m.parts[|prefix|..] == r && m.bytes == PublicFiles(prefix, ms)[r]
  {
    PublicFileIn(prefix, ms, r);
    m :| m in ms && IsPublic(prefix, m) && m.parts[|prefix|..] == r && m.bytes == PublicFiles(prefix, ms)[r];
  }

  lemma {:induction false} PublicFileStays(rules: Rules, prefix: Path, a: seq<Member>, b: seq<Member>, r: Relative)
    requires Distinct(b) && FilesKept(rules, a, b) && prefix[0] != rules.distInfo && r in PublicFiles(prefix, a)
    ensures r in PublicFiles(prefix, b) && PublicFiles(prefix, b)[r] == PublicFiles(prefix, a)[r]
  {
    hide ComesFrom, StaysIn;
    hide PublicFiles;
    var m := PublicMember(prefix, a, r);
    var m' := StillThere(rules, a, b, m);
    assert m.parts[0] == prefix[0];
    PublicFileIn(prefix, b, r);
    var y := PublicMember(prefix, b, r);
    SameTail(prefix, y.parts, m'.parts);
    OnePerPath(b, y, m');
  }

  lemma {:induction false} OnePerPath(ms: seq<Member>, a: Member, b: Member)
    requires Distinct(ms) && a in ms && b in ms && a.parts == b.parts
    ensures a == b
  {
  }

  lemma {:induction false} PublicFileWas(rules: Rules, prefix: Path, a: seq<Member>, b: seq<Member>, r: Relative)
    requires FilesKept(rules, a, b) && r in PublicFiles(prefix, b)
    ensures r in PublicFiles(prefix, a)
  {
    hide ComesFrom, StaysIn;
    hide PublicFiles;
    var m := PublicMember(prefix, b, r);
    var m0 := WasThere(rules, a, b, m);
    PublicFileIn(prefix, a, r);
  }

  lemma {:induction false} SamePublicFiles(rules: Rules, prefix: Path, a: seq<Member>, b: seq<Member>)
    requires FilesKept(rules, a, b) && prefix[0] != rules.distInfo
    ensures PublicFiles(prefix, a) == PublicFiles(prefix, b)
  {
    hide PublicFiles;
    var x, y := PublicFiles(prefix, a), PublicFiles(prefix, b);
    forall r | r in x ensures r in y && y[r] == x[r] { PublicFileStays(rules, prefix, a, b, r); }
    forall r | r in y ensures r in x { PublicFileWas(rules, prefix, a, b, r); }
  }

  // Where the files are exactly the expected ones, their own paths go through exactly the expected directories.
  lemma {:induction false} FilesImplyDirectories(prefix: Path, ms: seq<Member>)
    requires forall m :: m in ms ==> !m.directory
    ensures PublicDirectories(prefix, ms) == ExpectedDirectories(PublicFiles(prefix, ms).Keys)
  {
    hide PublicFiles;
    var files := PublicFiles(prefix, ms).Keys;
    forall d | d in PublicDirectories(prefix, ms) ensures d in ExpectedDirectories(files) {
      if d != [] {
        var m, n :| m in ms && prefix < m.parts && 1 <= n < |m.parts| - |prefix| && m.parts[|prefix|..][..n] == d;
        PublicFileIn(prefix, ms, m.parts[|prefix|..]);
      }
    }
    forall d | d in ExpectedDirectories(files) ensures d in PublicDirectories(prefix, ms) {
      if d != [] {
        var p, n :| p in files && 1 <= n < |p| && p[..n] == d;
        var m := PublicMember(prefix, ms, p);
      }
    }
  }

  lemma {:induction false} AdmissibleStays(rules: Rules, a: seq<Member>, b: seq<Member>)
    requires Admissible(rules.fold, a) && FilesKept(rules, a, b)
    ensures Admissible(rules.fold, b)
  {
    hide ComesFrom, StaysIn;
    forall p | p in Places(b) ensures p in Places(a) {
      var m :| m in b && p in PlacesOf(m);
      var m0 := WasThere(rules, a, b, m);
      SamePlaces(m0, m);
    }
  }

  lemma {:induction false} SamePlaces(a: Member, b: Member)
    requires a.parts == b.parts && a.directory == b.directory
    ensures PlacesOf(a) == PlacesOf(b)
  {
    assert forall n :: 1 <= n <= |a.parts| ==> PlaceAt(a, n) == PlaceAt(b, n);
  }

  lemma {:induction false} RootsStay(rules: Rules, a: seq<Member>, b: seq<Member>, isRoot: string -> bool, root: string)
    requires FilesKept(rules, a, b)
    requires (set m | m in a && isRoot(m.parts[0]) :: m.parts[0]) == {root}
    requires exists m :: m in a && !m.directory && m.parts[0] == root
    ensures (set m | m in b && isRoot(m.parts[0]) :: m.parts[0]) == {root}
  {
    hide ComesFrom, StaysIn;
    var found := set m | m in b && isRoot(m.parts[0]) :: m.parts[0];
    var was := set m | m in a && isRoot(m.parts[0]) :: m.parts[0];
    forall r | r in found ensures r in was {
      var m :| m in b && isRoot(m.parts[0]) && m.parts[0] == r;
      var m0 := WasThere(rules, a, b, m);
    }
    assert root in was;
    var x :| x in a && isRoot(x.parts[0]) && x.parts[0] == root;
    var m :| m in a && !m.directory && m.parts[0] == root;
    var m' := StillThere(rules, a, b, m);
    assert root in found;
  }

  lemma {:induction false} InfoStays(rules: Rules, a: seq<Member>, b: seq<Member>)
    requires FilesKept(rules, a, b)
    ensures InfoPaths(rules, b, false) == InfoPaths(rules, a, false) && InfoPaths(rules, b, true) == {}
  {
    hide ComesFrom, StaysIn;
    forall m | m in b ensures !m.directory { var m0 := WasThere(rules, a, b, m); }
    forall r | r in InfoPaths(rules, b, false) ensures r in InfoPaths(rules, a, false) {
      var m :| m in b && m.parts[0] == rules.distInfo && !m.directory && m.parts[1..] == r;
      var m0 := WasThere(rules, a, b, m);
    }
    forall r | r in InfoPaths(rules, a, false) ensures r in InfoPaths(rules, b, false) {
      var m :| m in a && m.parts[0] == rules.distInfo && !m.directory && m.parts[1..] == r;
      var m' := StillThere(rules, a, b, m);
    }
  }

  // A public file: there is one, since the catalog is never empty.
  lemma {:induction false} SomePublicFile(rules: Rules, prefix: Path, ms: seq<Member>,
        files: set<Relative>) returns (m: Member)
    requires PublicFiles(prefix, ms).Keys == files && files != {}
    ensures m in ms && IsPublic(prefix, m) && m.parts[0] == prefix[0]
  {
    hide PublicFiles;
    var r :| r in files;
    m := PublicMember(prefix, ms, r);
  }

  lemma {:induction false} PublicTreesStay(rules: Rules, a: seq<Member>, b: seq<Member>)
    requires rules.Sound() && PublicTreesMatch(rules, a) && FilesKept(rules, a, b)
    ensures PublicTreesMatch(rules, b)
  {
    hide PublicFiles, PublicDirectories, ExpectedDirectories;
    SamePublicFiles(rules, rules.canonical, a, b);
    SamePublicFiles(rules, rules.legacy, a, b);
    FilesImplyDirectories(rules.canonical, b);
    FilesImplyDirectories(rules.legacy, b);
    var expected := rules.inventory(PublicFiles(rules.canonical, a)).value;
    var m := SomePublicFile(rules, rules.canonical, b, expected);
    var m' := SomePublicFile(rules, rules.legacy, b, expected);
  }

  // Dropping directory entries and rewriting RECORD keeps the identity.
  lemma {:induction false} IdentityStays(rules: Rules, a: seq<Member>, b: seq<Member>)
    requires rules.Sound() && Identity(rules, a) && FilesKept(rules, a, b)
    ensures Identity(rules, b)
  {
    hide ComesFrom, StaysIn;
    hide PublicTreesMatch, InfoPaths, Admissible;
    AdmissibleStays(rules, a, b);
    PublicTreesStay(rules, a, b);
    InfoStays(rules, a, b);
    InfoFile(rules, a);
    RootsStay(rules, a, b, rules.isDistInfo, rules.distInfo);
    DataFile(rules, a);
    RootsStay(rules, a, b, rules.isData, rules.dataRoot);
    forall m | m in b ensures rules.allowed(m.parts, m.directory) {
      var m0 := WasThere(rules, a, b, m);
    }
    forall m | m in b && m.parts == rules.Metadata() ensures rules.metadataOk(m.bytes) {
      var m0 := WasThere(rules, a, b, m);
      assert rules.Metadata()[1] != rules.Record()[1];
    }
  }

  lemma {:induction false} InfoFile(rules: Rules, ms: seq<Member>)
    requires rules.Sound() && InfoPaths(rules, ms, false) == rules.infoFiles
    ensures exists m :: m in ms && !m.directory && m.parts[0] == rules.distInfo
    ensures exists m :: m in ms && !m.directory && m.parts == rules.Record()
  {
    assert ["RECORD"] in InfoPaths(rules, ms, false);
    var m :| m in ms && m.parts[0] == rules.distInfo && !m.directory && m.parts[1..] == ["RECORD"];
    assert m.parts == [m.parts[0]] + m.parts[1..];
  }

  lemma {:induction false} DataFile(rules: Rules, ms: seq<Member>)
    requires rules.Sound() && PublicTreesMatch(rules, ms)
    ensures exists m :: m in ms && !m.directory && m.parts[0] == rules.dataRoot
  {
    hide PublicFiles, PublicDirectories, ExpectedDirectories;
    var m := SomePublicFile(rules, rules.canonical, ms, rules.inventory(PublicFiles(rules.canonical, ms)).value);
  }
}
