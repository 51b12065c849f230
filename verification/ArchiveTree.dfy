/**
 Which member lists form one portable tree: the two-phase check made before a tar is extracted, the one-pass
 prefix and kind table made for a wheel, and extraction into a file system that tells names apart only by their
 portable key.
 */
module ArchiveTree {
  import opened Bytes
  import Sorting

  type Path = p: seq<string> | |p| > 0 witness ["a"]

  // NFC and case folding of one path component: any function will do.
  type Folding = string -> string

  // The portable key works component by component.
  function KeyOf(fold: Folding, p: seq<string>): (k: seq<string>)
    ensures |k| == |p|
  {
    seq(|p|, i requires 0 <= i < |p| => fold(p[i]))
  }

  // Two paths share a key exactly when they fold alike, component by component.
  lemma {:induction false} KeysFoldAlike(fold: Folding, p: seq<string>, q: seq<string>)
    ensures KeyOf(fold, p) == KeyOf(fold, q) <==> |p| == |q| && forall i :: 0 <= i < |p| ==> fold(p[i]) == fold(q[i])
  {
    var a, b := KeyOf(fold, p), KeyOf(fold, q);
    forall i | 0 <= i < |p| && |p| == |q| ensures a[i] == fold(p[i]) && b[i] == fold(q[i]) {}
  }

  datatype Member = Member(parts: Path, directory: bool, bytes: Bytes, executable: bool)

  // A place in the tree: a path and whether something needs it to be a directory.
  datatype Place = Place(path: Path, directory: bool)

  function PlaceAt(m: Member, n: nat): Place
    requires 1 <= n <= |m.parts|
  {
    Place(m.parts[..n], n < |m.parts| || m.directory)
  }

  function PlacesOf(m: Member): set<Place> { set n | 1 <= n <= |m.parts| :: PlaceAt(m, n) }

  function Places(ms: seq<Member>): set<Place> { set m, p | m in ms && p in PlacesOf(m) :: p }

  // ---- What it means to be one tree ----

  ghost predicate Distinct(ms: seq<Member>) { forall i, j :: 0 <= i < j < |ms| ==> ms[i].parts != ms[j].parts }

  // No two distinct places share a portable key.
  ghost predicate OnePathPerKey(fold: Folding, ps: set<Place>) {
    forall a, b :: a in ps && b in ps && KeyOf(fold, a.path) == KeyOf(fold, b.path) ==> a.path == b.path
  }

  // No path is both a file and a directory.
  ghost predicate OneKindPerPath(ps: set<Place>) {
    forall a, b :: a in ps && b in ps && a.path == b.path ==> a.directory == b.directory
  }

  ghost predicate Admissible(fold: Folding, ms: seq<Member>) {
    Distinct(ms) && OnePathPerKey(fold, Places(ms)) && OneKindPerPath(Places(ms))
  }

  // ---- Places, one at a time ----

  // The places of the members before the i-th, and of the i-th up to length n.
  ghost function PlacesUpTo(ms: seq<Member>, i: nat, n: nat): set<Place>
    requires i < |ms| && 1 <= n <= |ms[i].parts| + 1
  {
    Places(ms[..i]) + (set k | 1 <= k < n :: PlaceAt(ms[i], k))
  }

  lemma {:induction false} PlacesGrow(ms: seq<Member>, i: nat, n: nat)
    requires i < |ms| && 1 <= n <= |ms[i].parts| + 1
    ensures PlacesUpTo(ms, i, n) <= Places(ms)
    ensures n <= |ms[i].parts| ==> PlaceAt(ms[i], n) in Places(ms)
    ensures n <= |ms[i].parts| ==> PlacesUpTo(ms, i, n + 1) == PlacesUpTo(ms, i, n) + {PlaceAt(ms[i], n)}
    ensures PlacesUpTo(ms, i, 1) == Places(ms[..i])
  {
    forall p | p in PlacesUpTo(ms, i, n) ensures p in Places(ms) {
      if p in Places(ms[..i]) {
        var m :| m in ms[..i] && p in PlacesOf(m);
        assert m in ms;
      } else {
        assert p in PlacesOf(ms[i]);
      }
    }
    if n <= |ms[i].parts| { assert PlaceAt(ms[i], n) in PlacesOf(ms[i]); }
  }

  lemma {:induction false} MemberDone(ms: seq<Member>, i: nat)
    requires i < |ms|
    ensures PlacesUpTo(ms, i, |ms[i].parts| + 1) == Places(ms[..i + 1])
  {
    var m := ms[i];
    assert ms[..i + 1] == ms[..i] + [m];
    assert PlacesOf(m) == set k | 1 <= k < |m.parts| + 1 :: PlaceAt(m, k);
    PlacesAppend(ms[..i], m);
  }

  lemma {:induction false} PlacesAppend(ms: seq<Member>, m: Member)
    ensures Places(ms + [m]) == Places(ms) + PlacesOf(m)
  {
    var all, parts := Places(ms + [m]), Places(ms) + PlacesOf(m);
    forall p | p in all ensures p in parts {
      var q :| q in ms + [m] && p in PlacesOf(q);
      assert q in ms || q == m;
    }
    forall p | p in parts ensures p in all {
      if p in PlacesOf(m) {
        assert m in ms + [m];
      } else {
        var q :| q in ms && p in PlacesOf(q);
        assert q in ms + [m];
      }
    }
  }

  // The table a check keeps: the path last seen under each key.
  ghost predicate Records(fold: Folding, ps: set<Place>, portable: map<seq<string>, Path>) {
    && (forall p :: p in ps ==> KeyOf(fold, p.path) in portable && portable[KeyOf(fold, p.path)] == p.path)
    && (forall k :: k in portable ==> exists p :: p in ps && KeyOf(fold, p.path) == k)
  }

  lemma {:induction false} RecordsMeanOnePath(fold: Folding, ps: set<Place>, portable: map<seq<string>, Path>)
    requires Records(fold, ps, portable)
    ensures OnePathPerKey(fold, ps)
  {
  }

  lemma {:induction false} Recorded(fold: Folding, ps: set<Place>, portable: map<seq<string>, Path>, p: Place)
    requires Records(fold, ps, portable)
    requires KeyOf(fold, p.path) in portable ==> portable[KeyOf(fold, p.path)] == p.path
    ensures Records(fold, ps + {p}, portable[KeyOf(fold, p.path) := p.path])
  {
    var table := portable[KeyOf(fold, p.path) := p.path];
    forall k | k in table ensures exists q :: q in ps + {p} && KeyOf(fold, q.path) == k {
      if k == KeyOf(fold, p.path) {
        assert p in ps + {p};
      } else {
        var q :| q in ps && KeyOf(fold, q.path) == k;
        assert q in ps + {p};
      }
    }
  }

  lemma {:induction false} Collides(fold: Folding, ps: set<Place>, portable: map<seq<string>, Path>, p: Place,
        all: set<Place>)
    requires Records(fold, ps, portable) && ps <= all && p in all
    requires KeyOf(fold, p.path) in portable && portable[KeyOf(fold, p.path)] != p.path
    ensures !OnePathPerKey(fold, all)
  {
    var q :| q in ps && KeyOf(fold, q.path) == KeyOf(fold, p.path);
    assert q in all && q.path != p.path;
  }

  // ---- The tar check ----

  method AdmitTar(fold: Folding, ms: seq<Member>) returns (ok: bool)
    ensures ok <==> Admissible(fold, ms)
  {
    hide PlacesUpTo, Places, Records, OnePathPerKey, KeyOf;
    var portable: map<seq<string>, Path> := map[];
    var seen: set<Path> := {};
    NothingYet(fold, ms);
    for i := 0 to |ms|
      invariant forall j :: 0 <= j < i ==> ms[j].parts in seen
      invariant forall p :: p in seen ==> exists j :: 0 <= j < i && ms[j].parts == p
      invariant Distinct(ms[..i]) && Records(fold, Places(ms[..i]), portable)
    {
      var m := ms[i];
      if m.parts in seen {
        var j :| 0 <= j < i && ms[j].parts == m.parts;
        return false;
      }
      seen := seen + {m.parts};
      PlacesGrow(ms, i, 1);
      for n := 1 to |m.parts| + 1
        invariant Records(fold, PlacesUpTo(ms, i, n), portable)
      {
        var path: Path := m.parts[..n];
        var key := KeyOf(fold, path);
        PlacesGrow(ms, i, n);
        if key in portable && portable[key] != path {
          Collides(fold, PlacesUpTo(ms, i, n), portable, PlaceAt(m, n), Places(ms));
          return false;
        }
        Recorded(fold, PlacesUpTo(ms, i, n), portable, PlaceAt(m, n));
        portable := portable[key := path];
      }
      MemberDone(ms, i);
    }
    assert ms[..|ms|] == ms;
    RecordsMeanOnePath(fold, Places(ms), portable);
    ok := NoFileAbove(ms);
    KindsByMembers(ms);
  }

  // No file's path continues into another member's.
  ghost predicate FilesAreLeaves(ms: seq<Member>) {
    forall i, j :: 0 <= i < |ms| && 0 <= j < |ms| && !ms[i].directory ==> !(ms[i].parts < ms[j].parts)
  }

  lemma {:induction false} PlaceKind(m: Member, p: Place)
    requires p in PlacesOf(m)
    ensures p.path <= m.parts && (p.directory <==> p.path != m.parts || m.directory)
  {
  }

  lemma {:induction false} PrefixIsAPlace(ms: seq<Member>, m: Member, path: Path)
    requires m in ms && path <= m.parts
    ensures Place(path, path != m.parts || m.directory) in Places(ms)
  {
    assert path == m.parts[..|path|];
    assert PlaceAt(m, |path|) in PlacesOf(m);
  }

  lemma {:induction false} KindsByMembers(ms: seq<Member>)
    requires Distinct(ms)
    ensures OneKindPerPath(Places(ms)) <==> FilesAreLeaves(ms)
  {
    if FilesAreLeaves(ms) {
      forall a, b | a in Places(ms) && b in Places(ms) && a.path == b.path ensures a.directory == b.directory {
        var m :| m in ms && a in PlacesOf(m);
        var m' :| m' in ms && b in PlacesOf(m');
        PlaceKind(m, a);
        PlaceKind(m', b);
        var i :| 0 <= i < |ms| && ms[i] == m;
        var j :| 0 <= j < |ms| && ms[j] == m';
      }
    }
    if OneKindPerPath(Places(ms)) {
      forall i, j | 0 <= i < |ms| && 0 <= j < |ms| && !ms[i].directory ensures !(ms[i].parts < ms[j].parts) {
        if ms[i].parts < ms[j].parts { FileAbove(ms, ms[i], ms[j]); }
      }
    }
  }

  lemma {:induction false} FileAbove(ms: seq<Member>, file: Member, below: Member)
    requires file in ms && below in ms && !file.directory && file.parts < below.parts
    ensures !OneKindPerPath(Places(ms))
  {
    PrefixIsAPlace(ms, file, file.parts);
    PrefixIsAPlace(ms, below, file.parts);
  }

  // Each path's declared kind.
  ghost predicate Types(ms: seq<Member>, types: map<Path, bool>) {
    && (forall m :: m in ms ==> m.parts in types && types[m.parts] == m.directory)
    && (forall p :: p in types ==> exists m :: m in ms && m.parts == p)
  }

  method TypesOf(ms: seq<Member>) returns (types: map<Path, bool>)
    requires Distinct(ms)
    ensures Types(ms, types)
  {
    types := map[];
    for i := 0 to |ms|
      invariant Types(ms[..i], types)
    {
      assert ms[..i + 1] == ms[..i] + [ms[i]];
      types := types[ms[i].parts := ms[i].directory];
      assert forall p :: p in types ==> exists m :: m in ms[..i + 1] && m.parts == p;
    }
    assert ms[..|ms|] == ms;
  }

  // The second phase: every ancestor of every member, and every file against every longer path.
  method NoFileAbove(ms: seq<Member>) returns (ok: bool)
    requires Distinct(ms)
    ensures ok <==> FilesAreLeaves(ms)
  {
    var types := TypesOf(ms);
    for i := 0 to |ms|
      invariant forall j, k :: 0 <= j < i && 0 <= k < |ms| && !ms[k].directory ==> !(ms[k].parts < ms[j].parts)
    {
      var clear := AncestorsAreDirectories(ms, types, ms[i].parts);
      if !clear { return false; }
      if !ms[i].directory && exists c :: c in types.Keys && ms[i].parts < c {
        var c :| c in types.Keys && ms[i].parts < c;
        var m :| m in ms && m.parts == c;
        return false;
      }
    }
    return true;
  }

  method AncestorsAreDirectories(ms: seq<Member>, types: map<Path, bool>, parts: Path) returns (ok: bool)
    requires Types(ms, types)
    ensures ok <==> forall m :: m in ms && !m.directory ==> !(m.parts < parts)
  {
    for n := 1 to |parts|
      invariant forall l :: 1 <= l < n ==> !(parts[..l] in types && !types[parts[..l]])
    {
      var ancestor: Path := parts[..n];
      if ancestor in types && !types[ancestor] {
        var m :| m in ms && m.parts == ancestor;
        return false;
      }
    }
    forall m | m in ms && !m.directory ensures !(m.parts < parts) {
      if |m.parts| < |parts| { assert parts[..|m.parts|] != m.parts; }
    }
    return true;
  }

  // ---- The wheel check ----

  ghost predicate RecordsKinds(fold: Folding, ps: set<Place>, kinds: map<seq<string>, bool>) {
    && (forall p :: p in ps ==> KeyOf(fold, p.path) in kinds && kinds[KeyOf(fold, p.path)] == p.directory)
    && (forall k :: k in kinds ==> exists p :: p in ps && KeyOf(fold, p.path) == k)
  }

  lemma {:induction false} KindRecorded(fold: Folding, ps: set<Place>, kinds: map<seq<string>, bool>, p: Place)
    requires RecordsKinds(fold, ps, kinds)
    requires KeyOf(fold, p.path) in kinds ==> kinds[KeyOf(fold, p.path)] == p.directory
    ensures RecordsKinds(fold, ps + {p}, kinds[KeyOf(fold, p.path) := p.directory])
  {
    var table := kinds[KeyOf(fold, p.path) := p.directory];
    forall k | k in table ensures exists q :: q in ps + {p} && KeyOf(fold, q.path) == k {
      if k == KeyOf(fold, p.path) {
        assert p in ps + {p};
      } else {
        var q :| q in ps && KeyOf(fold, q.path) == k;
        assert q in ps + {p};
      }
    }
  }

  lemma {:induction false} KindsClash(fold: Folding, ps: set<Place>, kinds: map<seq<string>, bool>, p: Place,
        all: set<Place>)
    requires RecordsKinds(fold, ps, kinds) && ps <= all && p in all
    requires KeyOf(fold, p.path) in kinds && kinds[KeyOf(fold, p.path)] != p.directory
    ensures !(OnePathPerKey(fold, all) && OneKindPerPath(all))
  {
    var q :| q in ps && KeyOf(fold, q.path) == KeyOf(fold, p.path);
    assert q in all && q.directory == kinds[KeyOf(fold, q.path)];
  }

  lemma {:induction false} KindsMeanOneKind(fold: Folding, ps: set<Place>, kinds: map<seq<string>, bool>)
    requires RecordsKinds(fold, ps, kinds)
    ensures OneKindPerPath(ps)
  {
  }

  // A member's name is its path, with a slash after a directory.
  predicate SameName(a: Member, b: Member) { a.parts == b.parts && a.directory == b.directory }

  method AdmitWheel(fold: Folding, ms: seq<Member>) returns (ok: bool)
    ensures ok <==> Admissible(fold, ms)
  {
    hide PlacesUpTo, Places, Records, RecordsKinds, OnePathPerKey, OneKindPerPath, KeyOf;
    if exists i, j :: 0 <= i < j < |ms| && SameName(ms[i], ms[j]) { return false; }
    var portable: map<seq<string>, Path> := map[];
    var kinds: map<seq<string>, bool> := map[];
    NothingYet(fold, ms);
    for i := 0 to |ms|
      invariant Records(fold, Places(ms[..i]), portable) && RecordsKinds(fold, Places(ms[..i]), kinds)
    {
      var m := ms[i];
      PlacesGrow(ms, i, 1);
      for n := 1 to |m.parts| + 1
        invariant Records(fold, PlacesUpTo(ms, i, n), portable) && RecordsKinds(fold, PlacesUpTo(ms, i, n), kinds)
      {
        var prefix: Path := m.parts[..n];
        var key := KeyOf(fold, prefix);
        PlacesGrow(ms, i, n);
        if key in portable && portable[key] != prefix {
          Collides(fold, PlacesUpTo(ms, i, n), portable, PlaceAt(m, n), Places(ms));
          return false;
        }
        Recorded(fold, PlacesUpTo(ms, i, n), portable, PlaceAt(m, n));
        portable := portable[key := prefix];
        var requiresDirectory := n < |m.parts| || m.directory;
        if key in kinds && kinds[key] != requiresDirectory {
          KindsClash(fold, PlacesUpTo(ms, i, n), kinds, PlaceAt(m, n), Places(ms));
          return false;
        }
        KindRecorded(fold, PlacesUpTo(ms, i, n), kinds, PlaceAt(m, n));
        kinds := kinds[key := requiresDirectory];
      }
      MemberDone(ms, i);
    }
    assert ms[..|ms|] == ms;
    RecordsMeanOnePath(fold, Places(ms), portable);
    KindsMeanOneKind(fold, Places(ms), kinds);
    DistinctNames(ms);
    return true;
  }

  lemma {:induction false} NothingYet(fold: Folding, ms: seq<Member>)
    ensures Records(fold, Places(ms[..0]), map[]) && RecordsKinds(fold, Places(ms[..0]), map[])
  {
  }

  // Where every path has one kind, distinct names are distinct paths.
  lemma {:induction false} DistinctNames(ms: seq<Member>)
    requires OneKindPerPath(Places(ms))
    requires !exists i, j :: 0 <= i < j < |ms| && SameName(ms[i], ms[j])
    ensures Distinct(ms)
  {
    forall i, j | 0 <= i < j < |ms| ensures ms[i].parts != ms[j].parts {
      assert !SameName(ms[i], ms[j]);
      PrefixIsAPlace(ms, ms[i], ms[i].parts);
      PrefixIsAPlace(ms, ms[j], ms[j].parts);
    }
  }

  // Admission does not depend on the order of the members.
  lemma {:induction false} AdmissionIgnoresOrder(fold: Folding, a: seq<Member>, b: seq<Member>)
    requires multiset(a) == multiset(b) && Admissible(fold, a)
    ensures Admissible(fold, b) && Places(a) == Places(b)
  {
    forall m ensures m in a <==> m in b { assert m in multiset(a) <==> m in multiset(b); }
    forall i, j | 0 <= i < j < |b| ensures b[i].parts != b[j].parts {
      if b[i].parts == b[j].parts {
        assert b[i] in a && b[j] in a;
        var p :| 0 <= p < |a| && a[p] == b[i];
        var q :| 0 <= q < |a| && a[q] == b[j];
        assert p == q;
        Sorting.Twice(b, i, j);
        OnceInDistinct(a, p);
        assert false;
      }
    }
  }

  lemma {:induction false} OnceInDistinct(ms: seq<Member>, i: nat)
    requires i < |ms| && Distinct(ms)
    ensures multiset(ms)[ms[i]] <= 1
  {
    assert ms == ms[..i] + [ms[i]] + ms[i + 1..];
    assert ms[i] !in ms[..i] && ms[i] !in ms[i + 1..];
  }
}
