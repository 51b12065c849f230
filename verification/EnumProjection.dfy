/**
 Projecting the content modes into a schema: every enum of an asset_content_mode object is replaced, and the form
 that is reviewed has all of them replaced by one sentinel.
 */
module EnumProjection {
  import opened Wrappers
  import opened JsonTree

  predicate IsProjected(m: Member) {
    m.key == "asset_content_mode" && m.value.Object? && HasKey(m.value.members, "enum")
  }

  function Modes(modes: seq<string>): (r: Json)
    ensures r.Array? && |r.items| == |modes| && forall i :: 0 <= i < |modes| ==> r.items[i] == Text(modes[i])
  {
    Array(seq(|modes|, i requires 0 <= i < |modes| => Text(modes[i])))
  }

  // The tree with its enums replaced, and how many there were.
  function Replace(node: Json, modes: seq<string>): (Json, nat) {
    match node
    case Object(ms) => (var r := ReplaceMembers(ms, modes); (Object(r.0), r.1))
    case Array(items) => (var r := ReplaceItems(items, modes); (Array(r.0), r.1))
    case _ => (node, 0)
  }

  function ReplaceMember(m: Member, modes: seq<string>): (Member, nat) {
    if IsProjected(m) then (Member(m.key, Object(Assign(m.value.members, "enum", Modes(modes)))), 1)
    else (var r := Replace(m.value, modes); (Member(m.key, r.0), r.1))
  }

  function ReplaceMembers(ms: seq<Member>, modes: seq<string>): (r: (seq<Member>, nat))
    ensures |r.0| == |ms|
  {
    if ms == [] then ([], 0)
    else
      var first, rest := ReplaceMember(ms[0], modes), ReplaceMembers(ms[1..], modes);
      ([first.0] + rest.0, first.1 + rest.1)
  }

  function ReplaceItems(items: seq<Json>, modes: seq<string>): (r: (seq<Json>, nat))
    ensures |r.0| == |items|
  {
    if items == [] then ([], 0)
    else
      var first, rest := Replace(items[0], modes), ReplaceItems(items[1..], modes);
      ([first.0] + rest.0, first.1 + rest.1)
  }

  // ---- The last projection is the one that counts ----

  lemma {:induction false} ReplaceTwice(node: Json, a: seq<string>, b: seq<string>)
    ensures Replace(Replace(node, a).0, b) == Replace(node, b) && Replace(node, a).1 == Replace(node, b).1
  {
    match node
    case Object(ms) => MembersTwice(ms, a, b);
    case Array(items) => ItemsTwice(items, a, b);
    case _ =>
  }

  lemma {:induction false} MemberTwice(m: Member, a: seq<string>, b: seq<string>)
    ensures ReplaceMember(ReplaceMember(m, a).0, b) == ReplaceMember(m, b)
    ensures ReplaceMember(m, a).1 == ReplaceMember(m, b).1
    decreases m, 1
  {
    if IsProjected(m) {
      AssignTwice(m.value.members, "enum", Modes(a), Modes(b));
    } else {
      ReplaceTwice(m.value, a, b);
      StillNotProjected(m, a);
    }
  }

  // Replacing inside a member that is not projected does not make it one.
  lemma {:induction false} StillNotProjected(m: Member, modes: seq<string>)
    requires !IsProjected(m)
    ensures !IsProjected(ReplaceMember(m, modes).0)
  {
    if m.value.Object? {
      var ms, r := m.value.members, ReplaceMembers(m.value.members, modes).0;
      KeysStay(ms, modes);
    }
  }

  lemma {:induction false} KeysStay(ms: seq<Member>, modes: seq<string>)
    ensures var r := ReplaceMembers(ms, modes).0;
      |r| == |ms| && forall i :: 0 <= i < |ms| ==> r[i] == ReplaceMember(ms[i], modes).0 && r[i].key == ms[i].key
  {
    if ms != [] { KeysStay(ms[1..], modes); }
  }

  lemma {:induction false} MembersTwice(ms: seq<Member>, a: seq<string>, b: seq<string>)
    ensures ReplaceMembers(ReplaceMembers(ms, a).0, b) == ReplaceMembers(ms, b)
    ensures ReplaceMembers(ms, a).1 == ReplaceMembers(ms, b).1
  {
    if ms != [] {
      MemberTwice(ms[0], a, b);
      MembersTwice(ms[1..], a, b);
      var r := ReplaceMembers(ms, a).0;
      assert r[0] == ReplaceMember(ms[0], a).0 && r[1..] == ReplaceMembers(ms[1..], a).0;
    }
  }

  lemma {:induction false} ItemsTwice(items: seq<Json>, a: seq<string>, b: seq<string>)
    ensures ReplaceItems(ReplaceItems(items, a).0, b) == ReplaceItems(items, b)
    ensures ReplaceItems(items, a).1 == ReplaceItems(items, b).1
  {
    if items != [] {
      ReplaceTwice(items[0], a, b);
      ItemsTwice(items[1..], a, b);
      var r := ReplaceItems(items, a).0;
      assert r[0] == Replace(items[0], a).0 && r[1..] == ReplaceItems(items[1..], a).0;
    }
  }

  // ---- Nothing else is touched ----

  // The path goes into a projected enum.
  predicate IntoEnum(node: Json, path: seq<nat>)
    decreases |path|
  {
    if path == [] || path[0] >= |Children(node)| then false
    else if node.Object? && IsProjected(node.members[path[0]]) then
      |path| >= 2 && path[1] == Place(node.members[path[0]].value.members, "enum")
    else IntoEnum(Children(node)[path[0]], path[1..])
  }

  // The path ends at a projected enum.
  predicate AtEnum(node: Json, path: seq<nat>)
    decreases |path|
  {
    if path == [] || path[0] >= |Children(node)| then false
    else if node.Object? && IsProjected(node.members[path[0]]) then
      |path| == 2 && path[1] == Place(node.members[path[0]].value.members, "enum")
    else AtEnum(Children(node)[path[0]], path[1..])
  }

  lemma {:induction false} ItemsStay(items: seq<Json>, modes: seq<string>)
    ensures var r := ReplaceItems(items, modes).0;
      |r| == |items| && forall i :: 0 <= i < |items| ==> r[i] == Replace(items[i], modes).0
  {
    if items != [] { ItemsStay(items[1..], modes); }
  }

  function ReplacedChild(node: Json, modes: seq<string>, i: nat): Json
    requires i < |Children(node)|
  {
    if node.Object? && IsProjected(node.members[i])
    then Object(Assign(node.members[i].value.members, "enum", Modes(modes)))
    else Replace(Children(node)[i], modes).0
  }

  lemma {:induction false} ChildrenReplaced(node: Json, modes: seq<string>)
    ensures var r := Replace(node, modes).0;
      && SameLabel(node, r) && |Children(r)| == |Children(node)|
      && forall i :: 0 <= i < |Children(node)| ==> Children(r)[i] == ReplacedChild(node, modes, i)
  {
    if node.Object? { KeysStay(node.members, modes); }
    if node.Array? { ItemsStay(node.items, modes); }
  }

  // Outside the projected enums every place has its node, alike but for what is below it.
  lemma {:induction false} OutsideIsUntouched(node: Json, modes: seq<string>, path: seq<nat>)
    requires !IntoEnum(node, path)
    ensures var was, now := At(node, path), At(Replace(node, modes).0, path);
      (was.Some? <==> now.Some?) && (was.Some? ==> SameLabel(was.value, now.value))
    decreases |path|
  {
    ChildrenReplaced(node, modes);
    if path != [] && path[0] < |Children(node)| {
      var i := path[0];
      if node.Object? && IsProjected(node.members[i]) {
        var ms := node.members[i].value.members;
        AssignedInPlace(ms, "enum", Modes(modes));
        BesideEnum(ms, modes, path[1..]);
      } else {
        OutsideIsUntouched(Children(node)[i], modes, path[1..]);
      }
    }
  }

  lemma {:induction false} BesideEnum(ms: seq<Member>, modes: seq<string>, path: seq<nat>)
    requires HasKey(ms, "enum") && (path != [] ==> path[0] != Place(ms, "enum"))
    ensures var was, now := At(Object(ms), path), At(Object(Assign(ms, "enum", Modes(modes))), path);
      (was.Some? <==> now.Some?) && (was.Some? ==> SameLabel(was.value, now.value))
  {
    AssignedInPlace(ms, "enum", Modes(modes));
    if path != [] && path[0] < |ms| {
      assert Children(Object(Assign(ms, "enum", Modes(modes))))[path[0]] == Children(Object(ms))[path[0]];
      if At(Object(ms), path).Some? { SameAsItself(At(Object(ms), path).value); }
    }
  }

  lemma {:induction false} SameAsItself(node: Json)
    ensures SameLabel(node, node)
  {
  }

  // Every projected enum holds exactly the modes.
  lemma {:induction false} EnumsAreReplaced(node: Json, modes: seq<string>, path: seq<nat>)
    requires AtEnum(node, path)
    ensures At(Replace(node, modes).0, path) == Some(Modes(modes))
    decreases |path|
  {
    ChildrenReplaced(node, modes);
    var i := path[0];
    if node.Object? && IsProjected(node.members[i]) {
      var ms := node.members[i].value.members;
      AssignedInPlace(ms, "enum", Modes(modes));
      var r := Object(Assign(ms, "enum", Modes(modes)));
      assert path[1..][1..] == [] && Children(r)[path[1]] == Modes(modes);
      assert At(r, path[1..]) == Some(Modes(modes));
    } else {
      EnumsAreReplaced(Children(node)[i], modes, path[1..]);
    }
  }

  // ---- Where the enums stand ----

  // Member `i` of an object, read off the tree.
  predicate MemberIs(node: Option<Json>, i: nat, key: string) {
    node.Some? && node.value.Object? && i < |node.value.members| && node.value.members[i].key == key
  }

  // The path ends at the value of an asset_content_mode member that is an object with an enum.
  predicate AtMode(node: Json, path: seq<nat>) {
    && path != [] && MemberIs(At(node, path[..|path| - 1]), path[|path| - 1], "asset_content_mode")
    && At(node, path).Some? && At(node, path).value.Object?
    && exists i :: 0 <= i < |At(node, path).value.members| && At(node, path).value.members[i].key == "enum"
  }

  predicate FirstEnum(node: Option<Json>, i: nat) {
    MemberIs(node, i, "enum") && forall j :: 0 <= j < i ==> node.value.members[j].key != "enum"
  }

  // No earlier place on the path is such a value.
  predicate NoModeOnTheWay(node: Json, path: seq<nat>) {
    forall k :: 0 <= k < |path| ==> !AtMode(node, path[..k])
  }

  lemma {:induction false} PlaceIsFirst(ms: seq<Member>, key: string, i: nat)
    requires HasKey(ms, key)
    ensures i == Place(ms, key)
      <==> i < |ms| && ms[i].key == key && forall j :: 0 <= j < i ==> ms[j].key != key
  {
    if ms[0].key != key {
      var k :| 0 <= k < |ms| && ms[k].key == key;
      assert ms[1..][k - 1].key == key;
      if i > 0 { PlaceIsFirst(ms[1..], key, i - 1); }
      forall j | 1 <= j < |ms| ensures ms[j] == ms[1..][j - 1] {}
    }
  }

  lemma {:induction false} OneStep(node: Json, path: seq<nat>)
    requires path != [] && path[0] < |Children(node)|
    ensures At(node, path) == At(Children(node)[path[0]], path[1..])
  {
  }

  lemma {:induction false} ModeBelow(node: Json, path: seq<nat>)
    requires |path| >= 2 && path[0] < |Children(node)|
    ensures AtMode(node, path) <==> AtMode(Children(node)[path[0]], path[1..])
  {
    OneStep(node, path);
    OneStep(node, path[..|path| - 1]);
    assert path[..|path| - 1][1..] == path[1..][..|path| - 2];
    assert path[1..][|path| - 2] == path[|path| - 1];
  }

  lemma {:induction false} ModeHere(node: Json, i: nat)
    ensures AtMode(node, [i]) <==> node.Object? && i < |node.members| && IsProjected(node.members[i])
  {
    assert [i][..0] == [] && At(node, []) == Some(node);
    if i < |Children(node)| {
      assert [i][1..] == [] && At(node, [i]) == Some(Children(node)[i]);
    }
  }

  predicate EnumStands(node: Json, path: seq<nat>) {
    && |path| >= 2
    && AtMode(node, path[..|path| - 1]) && NoModeOnTheWay(node, path[..|path| - 1])
    && FirstEnum(At(node, path[..|path| - 1]), path[|path| - 1])
  }

  // Modes on the way are those on the way below the first step, and the first step itself.
  lemma {:induction false} WayBelow(node: Json, path: seq<nat>)
    requires |path| >= 2 && path[0] < |Children(node)|
    ensures NoModeOnTheWay(node, path)
      <==> !AtMode(node, [path[0]]) && NoModeOnTheWay(Children(node)[path[0]], path[1..])
  {
    hide AtMode;
    var child, below := Children(node)[path[0]], path[1..];
    forall k | 0 <= k < |below| ensures k > 0 ==> (AtMode(child, below[..k]) <==> AtMode(node, path[..k + 1])) {
      if k > 0 {
        assert path[..k + 1][1..] == below[..k];
        ModeBelow(node, path[..k + 1]);
      }
    }
    assert path[..1] == [path[0]] && below[..0] == [] && path[..0] == [];
    assert !AtMode(node, []) && !AtMode(child, []) by { NoModeAtRoot(node); NoModeAtRoot(child); }
    if NoModeOnTheWay(node, path) {
      forall k | 0 <= k < |below| ensures !AtMode(child, below[..k]) { assert !AtMode(node, path[..k + 1]); }
      assert !AtMode(node, path[..1]);
    }
    if !AtMode(node, [path[0]]) && NoModeOnTheWay(child, below) {
      forall k | 0 <= k < |path| ensures !AtMode(node, path[..k]) {
        if k > 1 { assert !AtMode(child, below[..k - 1]); }
      }
    }
  }

  lemma {:induction false} NoModeAtRoot(node: Json)
    ensures !AtMode(node, [])
  {
  }

  // A projected enum is the first member named enum of the first asset_content_mode object on the way to it.
  lemma {:induction false} EnumsStandThere(node: Json, path: seq<nat>)
    ensures AtEnum(node, path) <==> EnumStands(node, path)
    decreases |path|
  {
    hide AtMode, NoModeOnTheWay;
    if |path| >= 2 && path[0] < |Children(node)| {
      var up := path[..|path| - 1];
      ModeHere(node, path[0]);
      if |path| == 2 {
        assert up == [path[0]];
        assert NoModeOnTheWay(node, up) by { NoModeBeforeOne(node, path[0]); }
        OneStep(node, up);
        assert up[1..] == [] && At(node, up) == Some(Children(node)[path[0]]);
        if node.Object? && IsProjected(node.members[path[0]]) {
          PlaceIsFirst(node.members[path[0]].value.members, "enum", path[1]);
        } else {
          assert path[1..] == [path[1]];
          NotAtOneStep(Children(node)[path[0]], path[1]);
        }
      } else {
        WayBelow(node, up);
        if !AtMode(node, [path[0]]) {
          assert up[1..] == path[1..][..|path| - 2];
          ModeBelow(node, up);
          OneStep(node, up);
          EnumsStandThere(Children(node)[path[0]], path[1..]);
        }
      }
    } else if |path| >= 2 {
      assert At(node, path[..|path| - 1]) == None;
    } else if |path| == 1 {
      assert path == [path[0]];
      NotAtOneStep(node, path[0]);
    }
  }

  lemma {:induction false} NoModeBeforeOne(node: Json, i: nat)
    ensures NoModeOnTheWay(node, [i])
  {
    assert [i][..0] == [];
  }

  lemma {:induction false} NotAtOneStep(node: Json, i: nat)
    ensures !AtEnum(node, [i])
  {
    assert [i][1..] == [];
  }

  // ---- The count ----

  predicate AllDifferent(paths: seq<seq<nat>>) {
    forall i, j :: 0 <= i < j < |paths| ==> paths[i] != paths[j]
  }

  // The paths are those of the projected enums, each once.
  ghost predicate ListsEnums(node: Json, paths: seq<seq<nat>>) {
    AllDifferent(paths) && forall path :: path in paths <==> AtEnum(node, path)
  }

  // The paths into child `i`, from paths of that child.
  function Under(i: nat, paths: seq<seq<nat>>): (r: seq<seq<nat>>)
    ensures |r| == |paths| && forall k :: 0 <= k < |r| ==> r[k] == [i] + paths[k]
  {
    seq(|paths|, k requires 0 <= k < |paths| => [i] + paths[k])
  }

  // How many enums the children before `k` hold.
  function CountBefore(node: Json, modes: seq<string>, k: nat): nat
    requires k <= |Children(node)|
  {
    match node
    case Object(ms) => ReplaceMembers(ms[..k], modes).1
    case Array(items) => ReplaceItems(items[..k], modes).1
    case _ => 0
  }

  function CountOf(node: Json, modes: seq<string>, i: nat): nat
    requires i < |Children(node)|
  {
    if node.Object? then ReplaceMember(node.members[i], modes).1 else Replace(Children(node)[i], modes).1
  }

  lemma {:induction false} MembersSnoc(ms: seq<Member>, m: Member, modes: seq<string>)
    ensures ReplaceMembers(ms + [m], modes).1 == ReplaceMembers(ms, modes).1 + ReplaceMember(m, modes).1
  {
    if ms == [] { assert [] + [m] == [m]; } else {
      assert (ms + [m])[1..] == ms[1..] + [m];
      MembersSnoc(ms[1..], m, modes);
    }
  }

  lemma {:induction false} ItemsSnoc(items: seq<Json>, x: Json, modes: seq<string>)
    ensures ReplaceItems(items + [x], modes).1 == ReplaceItems(items, modes).1 + Replace(x, modes).1
  {
    if items == [] { assert [] + [x] == [x]; } else {
      assert (items + [x])[1..] == items[1..] + [x];
      ItemsSnoc(items[1..], x, modes);
    }
  }

  lemma {:induction false} CountNext(node: Json, modes: seq<string>, k: nat)
    requires k < |Children(node)|
    ensures CountBefore(node, modes, k + 1) == CountBefore(node, modes, k) + CountOf(node, modes, k)
  {
    if node.Object? {
      assert node.members[..k + 1] == node.members[..k] + [node.members[k]];
      MembersSnoc(node.members[..k], node.members[k], modes);
    } else {
      assert node.items[..k + 1] == node.items[..k] + [node.items[k]];
      ItemsSnoc(node.items[..k], node.items[k], modes);
    }
  }

  // The enums below child `k`.
  lemma {:induction false} EnumsUnder(node: Json, modes: seq<string>, k: nat) returns (paths: seq<seq<nat>>)
    requires k < |Children(node)|
    ensures |paths| == CountOf(node, modes, k) && AllDifferent(paths)
    ensures forall path :: path in paths <==> AtEnum(node, path) && path[0] == k
    decreases node, 0, k
  {
    if node.Object? && IsProjected(node.members[k]) {
      paths := [[k, Place(node.members[k].value.members, "enum")]];
      forall path | AtEnum(node, path) && path[0] == k ensures path in paths { assert path == paths[0]; }
    } else {
      var below := EnumPaths(Children(node)[k], modes);
      paths := Under(k, below);
      forall path ensures path in paths <==> AtEnum(node, path) && path[0] == k {
        if AtEnum(node, path) && path[0] == k {
          assert path[1..] in below;
          var j :| 0 <= j < |below| && below[j] == path[1..];
          assert path == [k] + path[1..] && paths[j] == path;
        }
        if path in paths {
          var j :| 0 <= j < |paths| && paths[j] == path;
          assert path[1..] == below[j] && below[j] in below;
        }
      }
      forall i, j | 0 <= i < j < |paths| ensures paths[i] != paths[j] {
        assert paths[i][1..] == below[i] && paths[j][1..] == below[j];
      }
    }
  }

  lemma {:induction false} EnumsBefore(node: Json, modes: seq<string>, k: nat) returns (paths: seq<seq<nat>>)
    requires k <= |Children(node)|
    ensures |paths| == CountBefore(node, modes, k) && AllDifferent(paths)
    ensures forall path :: path in paths <==> AtEnum(node, path) && path[0] < k
    decreases node, 1, k
  {
    if k == 0 {
      paths := [];
    } else {
      var first := EnumsBefore(node, modes, k - 1);
      var last := EnumsUnder(node, modes, k - 1);
      CountNext(node, modes, k - 1);
      paths := first + last;
      forall i, j | 0 <= i < j < |paths| ensures paths[i] != paths[j] {
        if i < |first| <= j { assert first[i] in first && last[j - |first|] in last; }
      }
    }
  }

  lemma {:induction false} EnumPaths(node: Json, modes: seq<string>) returns (paths: seq<seq<nat>>)
    ensures |paths| == Replace(node, modes).1 && ListsEnums(node, paths)
    decreases node, 2, 0
  {
    paths := EnumsBefore(node, modes, |Children(node)|);
    if node.Object? { assert node.members[..|node.members|] == node.members; }
    if node.Array? { assert node.items[..|node.items|] == node.items; }
  }

  // The count is the number of places at which a projected enum stands, however they are listed.
  lemma {:induction false} CountIsTheEnums(node: Json, modes: seq<string>, paths: seq<seq<nat>>)
    requires ListsEnums(node, paths)
    ensures Replace(node, modes).1 == |paths|
  {
    var all := EnumPaths(node, modes);
    SameLength(all, paths);
    SameLength(paths, all);
  }

  lemma {:induction false} SameLength(a: seq<seq<nat>>, b: seq<seq<nat>>)
    requires AllDifferent(a) && forall path :: path in a ==> path in b
    ensures |a| <= |b|
  {
    if a != [] {
      var first, rest := a[0], a[1..];
      assert first in a && first in b;
      var j :| 0 <= j < |b| && b[j] == first;
      var others := b[..j] + b[j + 1..];
      forall path | path in rest ensures path in others {
        var i :| 0 <= i < |rest| && rest[i] == path;
        assert a[0] != a[i + 1] && a[i + 1] in a;
        var m :| 0 <= m < |b| && b[m] == path;
        if m < j { assert others[m] == path; } else { assert others[m - 1] == path; }
      }
      SameLength(rest, others);
    }
  }

  // ---- The generator's own check ----

  // The form under review; None when there are not exactly two enums to project.
  function Nonprojected(schema: Json, sentinel: seq<string>): Option<Json> {
    var r := Replace(schema, sentinel);
    if r.1 != 2 then None else Some(r.0)
  }

  function Build(schema: Json, modes: seq<string>, sentinel: seq<string>, hash: Json -> string,
        reviewed: string): Option<Json>
  {
    var form := Nonprojected(schema, sentinel);
    if form.None? || hash(form.value) != reviewed then None
    else
      var r := Replace(schema, modes);
      if r.1 != 2 then None else Some(r.0)
  }

  // A schema is built exactly when it has two projected enums and its reviewed form is the recorded one.
  lemma {:induction false} BuildsExactly(schema: Json, modes: seq<string>, sentinel: seq<string>, hash: Json -> string,
      reviewed: string, paths: seq<seq<nat>>)
    requires ListsEnums(schema, paths)
    ensures var r := Build(schema, modes, sentinel, hash, reviewed);
      && (r.Some? <==> |paths| == 2 && hash(Replace(schema, sentinel).0) == reviewed)
      && (r.Some? ==> forall i :: 0 <= i < |paths| ==> At(r.value, paths[i]) == Some(Modes(modes)))
  {
    CountIsTheEnums(schema, modes, paths);
    CountIsTheEnums(schema, sentinel, paths);
    forall i | 0 <= i < |paths| ensures At(Replace(schema, modes).0, paths[i]) == Some(Modes(modes)) {
      assert paths[i] in paths;
      EnumsAreReplaced(schema, modes, paths[i]);
    }
  }

  // Projecting the modes leaves the reviewed form as it was.
  lemma {:induction false} ProjectionIsInvisible(schema: Json, modes: seq<string>, sentinel: seq<string>)
    ensures Nonprojected(Replace(schema, modes).0, sentinel) == Nonprojected(schema, sentinel)
  {
    ReplaceTwice(schema, modes, sentinel);
  }

  // A built schema is accepted again, whatever modes come next, and building it with the same modes changes nothing.
  lemma {:induction false} BuiltSchemaPasses(schema: Json, modes: seq<string>, next: seq<string>, sentinel: seq<string>,
      hash: Json -> string, reviewed: string)
    requires Build(schema, modes, sentinel, hash, reviewed).Some?
    ensures var built := Build(schema, modes, sentinel, hash, reviewed).value;
      && Build(built, next, sentinel, hash, reviewed) == Build(schema, next, sentinel, hash, reviewed)
      && Build(built, modes, sentinel, hash, reviewed) == Some(built)
  {
    ProjectionIsInvisible(schema, modes, sentinel);
    ReplaceTwice(schema, modes, next);
    ReplaceTwice(schema, modes, modes);
  }
}
