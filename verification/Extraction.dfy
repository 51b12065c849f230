/**
 Extracting an admitted archive into an empty directory of a file system that finds names by their portable key
 alone: directories shortest first, then files, each created exclusively.
 */
module Extraction {
  import opened Bytes
  import opened ArchiveTree

  datatype Node = Dir(path: Path) | File(path: Path, bytes: Bytes, executable: bool)

  // What stands under each key; the root itself is not listed.
  type Files = map<seq<string>, Node>

  predicate HasFile(fold: Folding, fs: Files, m: Member) {
    KeyOf(fold, m.parts) in fs && fs[KeyOf(fold, m.parts)] == File(m.parts, m.bytes, m.executable)
  }

  ghost predicate Directory(ms: seq<Member>, d: Path) { Place(d, true) in Places(ms) }

  // The tree the members spell out, and nothing else.
  ghost predicate IsTree(fold: Folding, ms: seq<Member>, fs: Files) {
    && (forall d: Path :: Directory(ms, d) ==> KeyOf(fold, d) in fs && fs[KeyOf(fold, d)] == Dir(d))
    && (forall m :: m in ms && !m.directory ==> HasFile(fold, fs, m))
    && (forall k :: k in fs ==> exists p :: p in Places(ms) && KeyOf(fold, p.path) == k)
  }

  // The parent of a path is the root or a directory found by its key.
  predicate ParentExists(fold: Folding, fs: Files, p: Path) {
    |p| == 1 || (KeyOf(fold, p[..|p| - 1]) in fs && fs[KeyOf(fold, p[..|p| - 1])].Dir?)
  }

  ghost predicate KeyOfSome(fold: Folding, ps: set<Path>, k: seq<string>) { exists p :: p in ps && KeyOf(fold, p) == k }

  // mkdir, which puts up with a directory already there, and exclusive creation, which does not.
  datatype Created = Created(fs: Files, failed: bool, found: bool)

  function MakeDirectory(fold: Folding, fs: Files, p: Path): Created {
    var key := KeyOf(fold, p);
    if !ParentExists(fold, fs, p) then Created(fs, true, false)
    else if key in fs then Created(fs, !fs[key].Dir?, true)
    else Created(fs[key := Dir(p)], false, false)
  }

  function CreateFile(fold: Folding, fs: Files, m: Member): Created {
    var key := KeyOf(fold, m.parts);
    if !ParentExists(fold, fs, m.parts) then Created(fs, true, false)
    else if key in fs then Created(fs, true, true)
    else Created(fs[key := File(m.parts, m.bytes, m.executable)], false, false)
  }

  // One more directory, or one more file, made as the loops make them.
  ghost predicate Partial(fold: Folding, dirs: set<Path>, files: set<Member>, fs: Files) {
    && (forall d :: d in dirs ==> KeyOf(fold, d) in fs && fs[KeyOf(fold, d)] == Dir(d))
    && (forall m :: m in files ==> HasFile(fold, fs, m))
    && (forall k :: k in fs ==> KeyOfSome(fold, dirs, k) || KeyOfSome(fold, set m | m in files :: m.parts, k))
  }

  function DirectoriesOf(ms: seq<Member>): set<Path> { set p | p in Places(ms) && p.directory :: p.path }

  lemma {:induction false} Shortest(s: set<Path>)
    requires s != {}
    ensures exists p :: p in s && forall e :: e in s ==> |p| <= |e|
  {
    var x :| x in s;
    if s == {x} {
    } else {
      Shortest(s - {x});
      var p :| p in s - {x} && forall e :: e in s - {x} ==> |p| <= |e|;
      if |x| < |p| {
        assert forall e :: e in s ==> |x| <= |e|;
      } else {
        assert forall e :: e in s ==> |p| <= |e|;
      }
    }
  }

  // The parent of a directory to be made is a shorter directory, so it was made before.
  lemma {:induction false} ParentFirst(fold: Folding, ms: seq<Member>, made: set<Path>, fs: Files, p: Path)
    requires exists d :: Place(p, d) in Places(ms)
    requires forall d :: d in DirectoriesOf(ms) && |d| < |p| ==> d in made
    requires forall d :: d in made ==> KeyOf(fold, d) in fs && fs[KeyOf(fold, d)] == Dir(d)
    ensures ParentExists(fold, fs, p)
  {
    hide KeyOf, DirectoriesOf, Places;
    if |p| > 1 { ParentIsDirectory(ms, p); }
  }

  lemma {:induction false} ParentIsDirectory(ms: seq<Member>, p: Path)
    requires |p| > 1 && exists d :: Place(p, d) in Places(ms)
    ensures p[..|p| - 1] in DirectoriesOf(ms)
  {
    hide DirectoriesOf;
    var d :| Place(p, d) in Places(ms);
    var m :| m in ms && Place(p, d) in PlacesOf(m);
    PlaceKind(m, Place(p, d));
    PrefixIsAPlace(ms, m, p[..|p| - 1]);
    IsDirectory(ms, p[..|p| - 1]);
  }

  lemma {:induction false} FreshDirectory(fold: Folding, ms: seq<Member>, made: set<Path>, fs: Files, p: Path)
    requires Admissible(fold, ms) && Partial(fold, made, {}, fs) && made <= DirectoriesOf(ms)
    requires p in DirectoriesOf(ms) && p !in made
    ensures KeyOf(fold, p) !in fs
    ensures Partial(fold, made + {p}, {}, fs[KeyOf(fold, p) := Dir(p)])
  {
    hide KeyOf;
    forall d | d in made ensures KeyOf(fold, d) != KeyOf(fold, p) {
      assert Place(d, true) in Places(ms) && Place(p, true) in Places(ms);
      assert Place(d, true).path != Place(p, true).path;
    }
    assert p in made + {p};
    forall k | k in fs ensures KeyOfSome(fold, made + {p}, k) {
      var d :| d in made && KeyOf(fold, d) == k;
      assert d in made + {p};
    }
  }

  lemma {:induction false} FreshFile(fold: Folding, ms: seq<Member>, made: set<Member>, fs: Files, m: Member)
    requires Admissible(fold, ms) && Partial(fold, DirectoriesOf(ms), made, fs)
    requires (forall x :: x in made ==> x in ms && !x.directory) && m in ms && !m.directory && m !in made
    ensures KeyOf(fold, m.parts) !in fs
    ensures Partial(fold, DirectoriesOf(ms), made + {m},
      fs[KeyOf(fold, m.parts) := File(m.parts, m.bytes, m.executable)])
  {
    hide KeyOf;
    FileKeyIsFree(fold, ms, made, m);
    assert m in made + {m};
    var names, names' := set x | x in made :: x.parts, set x | x in made + {m} :: x.parts;
    forall k | k in fs && !KeyOfSome(fold, DirectoriesOf(ms), k) ensures KeyOfSome(fold, names', k) {
      var p :| p in names && KeyOf(fold, p) == k;
      var x :| x in made && x.parts == p;
      assert x in made + {m} && p in names';
    }
    assert m.parts in names' && KeyOf(fold, m.parts) == KeyOf(fold, m.parts);
  }

  lemma {:induction false} FileKeyIsFree(fold: Folding, ms: seq<Member>, made: set<Member>, m: Member)
    requires Admissible(fold, ms)
    requires (forall x :: x in made ==> x in ms && !x.directory) && m in ms && !m.directory && m !in made
    ensures !KeyOfSome(fold, DirectoriesOf(ms), KeyOf(fold, m.parts))
    ensures forall x :: x in made ==> KeyOf(fold, x.parts) != KeyOf(fold, m.parts)
  {
    hide KeyOf;
    PrefixIsAPlace(ms, m, m.parts);
    var here := Place(m.parts, false);
    forall d | d in DirectoriesOf(ms) ensures KeyOf(fold, d) != KeyOf(fold, m.parts) {
      assert Place(d, true) in Places(ms) && here in Places(ms);
      assert Place(d, true).directory != here.directory;
      assert Place(d, true).path == d && here.path == m.parts;
    }
    forall x | x in made ensures KeyOf(fold, x.parts) != KeyOf(fold, m.parts) {
      PrefixIsAPlace(ms, x, x.parts);
      assert Place(x.parts, false) in Places(ms) && here in Places(ms);
      var i :| 0 <= i < |ms| && ms[i] == x;
      var j :| 0 <= j < |ms| && ms[j] == m;
      assert Place(x.parts, false).path != here.path;
    }
  }

  lemma {:induction false} IsDirectory(ms: seq<Member>, d: Path)
    ensures d in DirectoriesOf(ms) <==> Place(d, true) in Places(ms)
  {
  }

  // `collided` is raised when something was already found where a directory or file was to be made.
  method ExtractTree(fold: Folding, ms: seq<Member>) returns (fs: Files, ok: bool, collided: bool)
    requires Admissible(fold, ms)
    ensures ok && !collided && IsTree(fold, ms, fs)
  {
    hide KeyOf, DirectoriesOf;
    fs, ok, collided := map[], true, false;
    var directories := DirectoriesOf(ms);
    var todo := directories;
    ghost var made: set<Path> := {};
    while todo != {}
      invariant made + todo == directories && made !! todo
      invariant forall d, e :: d in made && e in todo ==> |d| <= |e|
      invariant Partial(fold, made, {}, fs) && ok && !collided
    {
      Shortest(todo);
      var parts :| parts in todo && forall e :: e in todo ==> |parts| <= |e|;
      assert Place(parts, true) in Places(ms) by { IsDirectory(ms, parts); }
      ParentFirst(fold, ms, made, fs, parts);
      FreshDirectory(fold, ms, made, fs, parts);
      var r := MakeDirectory(fold, fs, parts);
      fs, collided := r.fs, collided || r.found;
      if r.failed { ok := false; return; }
      made, todo := made + {parts}, todo - {parts};
    }
    assert made == directories;
    fs, ok, collided := ExtractFiles(fold, ms, fs);
  }

  method ExtractFiles(fold: Folding, ms: seq<Member>, start: Files) returns (fs: Files, ok: bool, collided: bool)
    requires Admissible(fold, ms) && Partial(fold, DirectoriesOf(ms), {}, start)
    ensures ok && !collided && IsTree(fold, ms, fs)
  {
    hide KeyOf, DirectoriesOf;
    fs, ok, collided := start, true, false;
    var all := set m | m in ms && !m.directory;
    var todo := all;
    ghost var made: set<Member> := {};
    while todo != {}
      invariant made + todo == all && made !! todo
      invariant Partial(fold, DirectoriesOf(ms), made, fs) && ok && !collided
    {
      var m :| m in todo;
      PrefixIsAPlace(ms, m, m.parts);
      ParentFirst(fold, ms, DirectoriesOf(ms), fs, m.parts);
      FreshFile(fold, ms, made, fs, m);
      var r := CreateFile(fold, fs, m);
      fs, collided := r.fs, collided || r.found;
      if r.failed { ok := false; return; }
      made, todo := made + {m}, todo - {m};
    }
    assert made == all;
    WholeTree(fold, ms, made, fs);
  }

  lemma {:induction false} WholeTree(fold: Folding, ms: seq<Member>, files: set<Member>, fs: Files)
    requires files == set m | m in ms && !m.directory
    requires Partial(fold, DirectoriesOf(ms), files, fs)
    ensures IsTree(fold, ms, fs)
  {
    hide KeyOf;
    forall d: Path | Directory(ms, d) ensures d in DirectoriesOf(ms) { IsDirectory(ms, d); }
    forall k | k in fs ensures exists p :: p in Places(ms) && KeyOf(fold, p.path) == k {
      if KeyOfSome(fold, DirectoriesOf(ms), k) {
        var d :| d in DirectoriesOf(ms) && KeyOf(fold, d) == k;
        assert Place(d, true) in Places(ms) && KeyOf(fold, Place(d, true).path) == k;
      } else {
        var p :| p in (set x | x in files :: x.parts) && KeyOf(fold, p) == k;
        var m :| m in files && m.parts == p;
        PrefixIsAPlace(ms, m, p);
        assert KeyOf(fold, Place(p, false).path) == k;
      }
    }
  }

  // Every order of the members, and every order of the creations, gives the same tree.
  lemma {:induction false} TreeIgnoresOrder(fold: Folding, a: seq<Member>, b: seq<Member>, fs: Files, fs': Files)
    requires multiset(a) == multiset(b) && IsTree(fold, a, fs) && IsTree(fold, b, fs')
    ensures fs == fs'
  {
    hide IsTree;
    SameMembers(a, b);
    TreeDetermined(fold, a, b, fs, fs');
    TreeDetermined(fold, b, a, fs', fs);
  }

  lemma {:induction false} SameMembers(a: seq<Member>, b: seq<Member>)
    requires multiset(a) == multiset(b)
    ensures (forall m :: m in a <==> m in b) && Places(a) == Places(b)
  {
    forall m ensures m in a <==> m in b { assert m in multiset(a) <==> m in multiset(b); }
  }

  lemma {:induction false} FileOf(ms: seq<Member>, p: Place) returns (m: Member)
    requires p in Places(ms) && !p.directory
    ensures m in ms && !m.directory && m.parts == p.path
  {
    m :| m in ms && p in PlacesOf(m);
    PlaceKind(m, p);
  }

  lemma {:induction false} TreeDetermined(fold: Folding, a: seq<Member>, b: seq<Member>, fs: Files, fs': Files)
    requires (forall m :: m in a <==> m in b) && Places(a) == Places(b)
    requires IsTree(fold, a, fs) && IsTree(fold, b, fs')
    ensures forall k :: k in fs ==> k in fs' && fs[k] == fs'[k]
  {
    hide KeyOf, Places;
    forall k | k in fs ensures k in fs' && fs[k] == fs'[k] {
      var p :| p in Places(a) && KeyOf(fold, p.path) == k;
      if p.directory {
        assert Directory(a, p.path) && Directory(b, p.path);
      } else {
        var m := FileOf(a, p);
        assert HasFile(fold, fs, m) && HasFile(fold, fs', m);
      }
    }
  }
}
