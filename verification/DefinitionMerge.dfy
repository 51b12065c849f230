/**
 Merging a definition and everything it refers to into one table, from a source whose references may go anywhere.
 The recursion is as deep as the longest walk along references, and the interpreter's stack is finite.
 */
module DefinitionMerge {
  import opened Wrappers
  import opened JsonTree

  // ---- References ----

  const PREFIX: string := "#/$defs/"

  function AfterLastSlash(s: string): string {
    if s == "" || s[|s| - 1] == '/' then "" else AfterLastSlash(s[..|s| - 1]) + [s[|s| - 1]]
  }

  // The definition an object's own $ref names.
  function Own(node: Json): set<string> {
    if !node.Object? then {}
    else
      var r := Lookup(node.members, "$ref");
      if r.Some? && r.value.Text? && PREFIX <= r.value.s then {AfterLastSlash(r.value.s)} else {}
  }

  function References(node: Json): set<string> {
    match node
    case Array(items) => ReferencesOfAll(items)
    case Object(ms) => Own(node) + ReferencesOfMembers(ms)
    case _ => {}
  }

  function ReferencesOfAll(nodes: seq<Json>): set<string> {
    if nodes == [] then {} else References(nodes[0]) + ReferencesOfAll(nodes[1..])
  }

  function ReferencesOfMembers(ms: seq<Member>): set<string> {
    if ms == [] then {} else References(ms[0].value) + ReferencesOfMembers(ms[1..])
  }

  function Size(node: Json): nat {
    match node
    case Array(items) => 1 + SizeOfAll(items)
    case Object(ms) => 1 + SizeOfMembers(ms)
    case _ => 1
  }

  function SizeOfAll(nodes: seq<Json>): nat { if nodes == [] then 0 else Size(nodes[0]) + SizeOfAll(nodes[1..]) }

  function SizeOfMembers(ms: seq<Member>): nat { if ms == [] then 0 else Size(ms[0].value) + SizeOfMembers(ms[1..]) }

  lemma {:induction false} MembersAreChildren(ms: seq<Member>)
    ensures ReferencesOfAll(Children(Object(ms))) == ReferencesOfMembers(ms)
    ensures SizeOfAll(Children(Object(ms))) == SizeOfMembers(ms)
  {
    if ms != [] {
      MembersAreChildren(ms[1..]);
      assert Children(Object(ms))[1..] == Children(Object(ms[1..]));
    }
  }

  lemma {:induction false} Joined(a: seq<Json>, b: seq<Json>)
    ensures ReferencesOfAll(a + b) == ReferencesOfAll(a) + ReferencesOfAll(b)
    ensures SizeOfAll(a + b) == SizeOfAll(a) + SizeOfAll(b)
  {
    if a == [] {
      assert a + b == b;
    } else {
      Joined(a[1..], b);
      assert (a + b)[1..] == a[1..] + b;
    }
  }

  lemma {:induction false} Parts(node: Json)
    ensures References(node) == Own(node) + ReferencesOfAll(Children(node))
    ensures Size(node) == 1 + SizeOfAll(Children(node))
  {
    if node.Object? { MembersAreChildren(node.members); }
  }

  // The walk over a stack of nodes still to be looked at.
  method DefinitionReferences(value: Json) returns (references: set<string>)
    ensures references == References(value)
    ensures StandSomewhere(value, references)
  {
    references := {};
    var pending := [value];
    while pending != []
      invariant references + ReferencesOfAll(pending) == References(value)
      decreases SizeOfAll(pending)
    {
      var n := |pending| - 1;
      var current := pending[n];
      assert pending == pending[..n] + [current];
      Joined(pending[..n], [current]);
      Joined(pending[..n], Children(current));
      Parts(current);
      references := references + Own(current);
      pending := pending[..n] + Children(current);
    }
    forall x ensures x in references <==> exists path :: RefersAt(value, path, x) {
      ReferencesStandSomewhere(value, x);
    }
    assert StandSomewhere(value, references);
  }

  // ---- References by place ----

  // `x` is what stands after the last slash of `s`.
  predicate IsAfterLastSlash(s: string, x: string) {
    '/' !in x && exists p :: 0 <= p < |s| && s[p] == '/' && s[p + 1..] == x
  }

  // The node at `path` is an object whose "$ref" is a text "#/$defs/...", ending in `/x`.
  predicate RefersAt(node: Json, path: seq<nat>, x: string) {
    var here := At(node, path);
    && here.Some? && here.value.Object?
    && var r := Lookup(here.value.members, "$ref");
      r.Some? && r.value.Text? && "#/$defs/" <= r.value.s && IsAfterLastSlash(r.value.s, x)
  }

  // The names that some place of the tree refers to.
  ghost predicate StandSomewhere(node: Json, references: set<string>) {
    forall x :: x in references <==> exists path :: RefersAt(node, path, x)
  }

  lemma {:induction false} AfterLastSlashIs(s: string, x: string)
    requires '/' in s
    ensures AfterLastSlash(s) == x <==> IsAfterLastSlash(s, x)
  {
    LastSlash(s);
    var p :| 0 <= p < |s| && s[p] == '/' && s[p + 1..] == AfterLastSlash(s);
    if IsAfterLastSlash(s, x) {
      var q :| 0 <= q < |s| && s[q] == '/' && s[q + 1..] == x;
      SlashBehind(s, p, q);
      SlashBehind(s, q, p);
      assert p == q;
    }
  }

  lemma {:induction false} SlashBehind(s: string, p: nat, q: nat)
    requires p < |s| && q < |s| && s[q] == '/'
    ensures p < q ==> '/' in s[p + 1..]
  {
    if p < q { assert s[p + 1..][q - p - 1] == '/'; }
  }

  lemma {:induction false} LastSlash(s: string)
    requires '/' in s
    ensures '/' !in AfterLastSlash(s)
    ensures exists p :: 0 <= p < |s| && s[p] == '/' && s[p + 1..] == AfterLastSlash(s)
  {
    var n := |s| - 1;
    if s[n] == '/' {
      assert s[n + 1..] == "";
    } else {
      var front := s[..n];
      assert s == front + [s[n]];
      LastSlash(front);
      var p :| 0 <= p < |front| && front[p] == '/' && front[p + 1..] == AfterLastSlash(front);
      assert s[p] == '/' && s[p + 1..] == front[p + 1..] + [s[n]];
    }
  }

  lemma {:induction false} OwnIs(node: Json, x: string)
    ensures x in Own(node) <==> RefersAt(node, [], x)
  {
    if node.Object? {
      var r := Lookup(node.members, "$ref");
      if r.Some? && r.value.Text? && "#/$defs/" <= r.value.s {
        assert r.value.s[1] == '/';
        AfterLastSlashIs(r.value.s, x);
      }
    }
  }

  lemma {:induction false} RefersBelow(node: Json, i: nat, path: seq<nat>, x: string)
    requires i < |Children(node)|
    ensures RefersAt(node, [i] + path, x) <==> RefersAt(Children(node)[i], path, x)
  {
    assert ([i] + path)[1..] == path;
  }

  lemma {:induction false} AmongAll(nodes: seq<Json>, x: string)
    ensures x in ReferencesOfAll(nodes) <==> exists i :: 0 <= i < |nodes| && x in References(nodes[i])
  {
    if nodes != [] {
      AmongAll(nodes[1..], x);
      if i :| 0 <= i < |nodes| && x in References(nodes[i]) {
        if i > 0 { assert nodes[1..][i - 1] == nodes[i]; }
      }
      if i :| 0 <= i < |nodes[1..]| && x in References(nodes[1..][i]) { assert nodes[i + 1] == nodes[1..][i]; }
    }
  }

  // The references of a tree are those that stand at some place of it.
  lemma {:induction false} ReferencesStandSomewhere(node: Json, x: string)
    ensures x in References(node) <==> exists path :: RefersAt(node, path, x)
    decreases Size(node)
  {
    hide RefersAt;
    Parts(node);
    OwnIs(node, x);
    var below := Children(node);
    AmongAll(below, x);
    forall i | 0 <= i < |below| ensures x in References(below[i]) <==> exists path :: RefersAt(below[i], path, x) {
      SmallerChild(below, i);
      ReferencesStandSomewhere(below[i], x);
    }
    if i :| 0 <= i < |below| && x in References(below[i]) {
      var path :| RefersAt(below[i], path, x);
      RefersBelow(node, i, path, x);
    }
    if path :| RefersAt(node, path, x) {
      if path != [] {
        PlaceBelow(node, path, x);
        assert [path[0]] + path[1..] == path;
        RefersBelow(node, path[0], path[1..], x);
      }
    }
  }

  lemma {:induction false} PlaceBelow(node: Json, path: seq<nat>, x: string)
    requires RefersAt(node, path, x) && path != []
    ensures path[0] < |Children(node)|
  {
  }

  lemma {:induction false} SmallerChild(nodes: seq<Json>, i: nat)
    requires i < |nodes|
    ensures Size(nodes[i]) <= SizeOfAll(nodes)
  {
    if i > 0 { SmallerChild(nodes[1..], i - 1); }
  }

  // ---- Walks along references ----

  type Definitions = map<string, Json>

  ghost predicate Walk(source: Definitions, p: seq<string>) {
    |p| > 0 && forall i :: 0 <= i < |p| - 1 ==> Step(source, p[i], p[i + 1])
  }

  predicate Step(source: Definitions, a: string, b: string) { a in source && b in References(source[a]) }

  ghost predicate WalkTo(source: Definitions, p: seq<string>, a: string, b: string) {
    Walk(source, p) && p[0] == a && p[|p| - 1] == b
  }

  ghost predicate Reaches(source: Definitions, a: string, b: string) { exists p :: WalkTo(source, p, a, b) }

  ghost predicate WalksFit(source: Definitions, name: string, depth: nat) {
    forall p :: Walk(source, p) && p[0] == name ==> |p| <= depth
  }

  lemma {:induction false} ReachesItself(source: Definitions, a: string)
    ensures Reaches(source, a, a)
  {
    assert WalkTo(source, [a], a, a);
  }

  lemma {:induction false} ReachesOn(source: Definitions, a: string, b: string, c: string)
    requires Step(source, a, b) && Reaches(source, b, c)
    ensures Reaches(source, a, c)
  {
    var p :| WalkTo(source, p, b, c);
    Longer(source, a, p);
    assert WalkTo(source, [a] + p, a, c);
  }

  lemma {:induction false} Longer(source: Definitions, a: string, p: seq<string>)
    requires Walk(source, p) && Step(source, a, p[0])
    ensures Walk(source, [a] + p)
  {
    var q := [a] + p;
    forall i | 0 <= i < |q| - 1 ensures Step(source, q[i], q[i + 1]) {
      if i > 0 { assert q[i] == p[i - 1] && q[i + 1] == p[i]; }
    }
  }

  // Whatever a name reaches, it is the name itself or something a reference of it reaches.
  lemma {:induction false} FirstStep(source: Definitions, a: string, p: seq<string>)
    requires Walk(source, p) && p[0] == a && |p| > 1
    ensures Step(source, a, p[1]) && Walk(source, p[1..]) && Reaches(source, p[1], p[|p| - 1])
  {
    forall i | 0 <= i < |p[1..]| - 1 ensures Step(source, p[1..][i], p[1..][i + 1]) {
      assert Step(source, p[i + 1], p[i + 2]);
    }
    assert Step(source, p[0], p[1]);
    assert WalkTo(source, p[1..], p[1], p[|p| - 1]);
  }

  // ---- The merge ----

  datatype Merge = Merged(definitions: Definitions) | Missing(name: string) | Drifted(name: string) | TooDeep

  // `d` is the old table with definitions added that are reachable and equal to their source.
  ghost predicate Adds(definitions: Definitions, source: Definitions, name: string, d: Definitions) {
    && (forall n :: n in definitions ==> n in d && d[n] == definitions[n])
    && (forall n :: n in d && n !in definitions ==> n in source && d[n] == source[n] && Reaches(source, name, n))
  }

  // Every definition reachable from `name` is in the table, as it is in the source.
  ghost predicate Closed(source: Definitions, name: string, d: Definitions) {
    forall n :: Reaches(source, name, n) ==> n in source && n in d && d[n] == source[n]
  }

  method MergeDefinition(definitions: Definitions, source: Definitions, name: string, depth: nat) returns (r: Merge)
    ensures r.Merged? ==> Adds(definitions, source, name, r.definitions) && Closed(source, name, r.definitions)
    ensures r.Merged? ==> WalksFit(source, name, depth)
    ensures r.Missing? ==> Reaches(source, name, r.name) && r.name !in source
    ensures r.Drifted? ==> Reaches(source, name, r.name) && Differs(source, definitions, r.name)
    ensures r.TooDeep? ==> !WalksFit(source, name, depth)
    decreases depth
  {
    hide Reaches, Closed, WalksFit, Adds, StandSomewhere;
    ReachesItself(source, name);
    if depth == 0 {
      NothingFits(source, name);
      return TooDeep;
    }
    if name !in source { return Missing(name); }
    var value := source[name];
    var merged := if name in definitions then definitions else definitions[name := value];
    if merged[name] != value { return Drifted(name); }
    FirstAdded(definitions, source, name, merged);
    var references := DefinitionReferences(value);
    var todo := references;
    while todo != {}
      invariant todo <= references
      invariant Adds(definitions, source, name, merged) && name in merged && merged[name] == value
      invariant forall n :: n in references - todo ==> Closed(source, n, merged) && WalksFit(source, n, depth - 1)
      decreases |todo|
    {
      var reference :| reference in todo;
      ReachesItself(source, reference);
      ReachesOn(source, name, reference, reference);
      if reference !in source { return Missing(reference); }
      var next := MergeDefinition(merged, source, reference, depth - 1);
      match next {
        case Merged(d) =>
          StillAdds(definitions, source, name, reference, merged, d);
          forall n | n in references - (todo - {reference})
            ensures Closed(source, n, d) && WalksFit(source, n, depth - 1)
          {
            if n != reference { assert n in references - todo && Closed(source, n, merged); }
          }
          merged := d;
        case Missing(n) =>
          ReachesOn(source, name, reference, n);
          return next;
        case Drifted(n) =>
          ReachesOn(source, name, reference, n);
          DriftWasThere(definitions, source, name, merged, n);
          return next;
        case TooDeep =>
          DeeperStill(source, name, reference, depth);
          return next;
      }
      todo := todo - {reference};
    }
    AllMerged(source, name, merged, depth);
    return Merged(merged);
  }

  predicate Differs(source: Definitions, definitions: Definitions, n: string) {
    n in source && n in definitions && definitions[n] != source[n]
  }

  lemma {:induction false} NothingFits(source: Definitions, name: string)
    ensures !WalksFit(source, name, 0)
  {
    assert Walk(source, [name]);
  }

  lemma {:induction false} FirstAdded(definitions: Definitions, source: Definitions, name: string, merged: Definitions)
    requires name in source
    requires merged == if name in definitions then definitions else definitions[name := source[name]]
    ensures Adds(definitions, source, name, merged)
  {
    ReachesItself(source, name);
  }

  lemma {:induction false} DriftWasThere(definitions: Definitions, source: Definitions, name: string,
        merged: Definitions, n: string)
    requires Adds(definitions, source, name, merged) && Differs(source, merged, n)
    ensures Differs(source, definitions, n)
  {
  }

  lemma {:induction false} StillAdds(definitions: Definitions, source: Definitions, name: string, reference: string,
        merged: Definitions, d: Definitions)
    requires Adds(definitions, source, name, merged) && Adds(merged, source, reference, d)
    requires Step(source, name, reference)
    ensures Adds(definitions, source, name, d)
    ensures forall n :: Closed(source, n, merged) ==> Closed(source, n, d)
    ensures name in merged ==> name in d && d[name] == merged[name]
  {
    forall n | n in d && n !in definitions ensures n in source && d[n] == source[n] && Reaches(source, name, n) {
      if n !in merged { ReachesOn(source, name, reference, n); }
    }
  }

  lemma {:induction false} DeeperStill(source: Definitions, name: string, reference: string, depth: nat)
    requires depth > 0 && Step(source, name, reference) && !WalksFit(source, reference, depth - 1)
    ensures !WalksFit(source, name, depth)
  {
    var p :| Walk(source, p) && p[0] == reference && |p| > depth - 1;
    Longer(source, name, p);
  }

  lemma {:induction false} AllMerged(source: Definitions, name: string, merged: Definitions, depth: nat)
    requires depth > 0 && name in source && name in merged && merged[name] == source[name]
    requires forall n :: n in References(source[name]) ==> Closed(source, n, merged) && WalksFit(source, n, depth - 1)
    ensures Closed(source, name, merged) && WalksFit(source, name, depth)
  {
    forall n | Reaches(source, name, n) ensures n in source && n in merged && merged[n] == source[n] {
      var p :| WalkTo(source, p, name, n);
      if |p| > 1 { FirstStep(source, name, p); }
    }
    forall p | Walk(source, p) && p[0] == name ensures |p| <= depth {
      if |p| > 1 {
        FirstStep(source, name, p);
        assert WalksFit(source, p[1], depth - 1) && Walk(source, p[1..]);
      }
    }
  }

  // ---- When a merge succeeds ----

  // Everything reachable is in the source and agrees with the table.
  ghost predicate Agrees(definitions: Definitions, source: Definitions, name: string) {
    forall n :: Reaches(source, name, n) ==> n in source && !Differs(source, definitions, n)
  }

  ghost predicate Mergeable(definitions: Definitions, source: Definitions, name: string, depth: nat) {
    Agrees(definitions, source, name) && WalksFit(source, name, depth)
  }

  // A merge succeeds exactly when everything reachable is in the source and agrees with the table, and no walk is
  // longer than the stack; then it adds exactly the reachable definitions.
  method MergeExactly(definitions: Definitions, source: Definitions, name: string, depth: nat) returns (r: Merge)
    ensures r.Merged? <==> Mergeable(definitions, source, name, depth)
    ensures r.Merged? ==> forall n :: n in r.definitions <==> n in definitions || Reaches(source, name, n)
    ensures r.Merged? ==> forall n :: Reaches(source, name, n) ==> n in source && r.definitions[n] == source[n]
    ensures r.Merged? ==> forall n :: n in definitions ==> r.definitions[n] == definitions[n]
    ensures r.Merged? ==> forall n :: Reaches(source, name, n) ==> NothingDangles(r.definitions, n)
    ensures r.Merged? && (forall n :: n in definitions ==> NothingDangles(definitions, n)) ==>
      forall n :: n in r.definitions ==> NothingDangles(r.definitions, n)
  {
    hide Reaches, WalksFit, NothingDangles;
    r := MergeDefinition(definitions, source, name, depth);
    if r.Merged? { MergedIsClosed(definitions, source, name, r.definitions); }
  }

  // No place of the definition refers to a name that is missing from the table.
  ghost predicate NothingDangles(d: Definitions, n: string)
    requires n in d
  {
    forall path, x :: RefersAt(d[n], path, x) ==> x in d
  }

  // A merged definition, and everything it reaches, refers to nothing that is missing; and if nothing dangled in the
  // table before, nothing does now.
  lemma {:induction false} MergedIsClosed(definitions: Definitions, source: Definitions, name: string,
        d: Definitions)
    requires Adds(definitions, source, name, d) && Closed(source, name, d)
    ensures forall n :: Reaches(source, name, n) ==> n in d && NothingDangles(d, n)
    ensures (forall n :: n in definitions ==> NothingDangles(definitions, n)) ==>
      forall n :: n in d ==> NothingDangles(d, n)
  {
    hide RefersAt, Reaches;
    forall n | Reaches(source, name, n) ensures n in d && NothingDangles(d, n) {
      forall path, x | RefersAt(d[n], path, x) ensures x in d {
        ReferencesStandSomewhere(d[n], x);
        ReachesLast(source, name, n, x);
      }
    }
    if forall n :: n in definitions ==> NothingDangles(definitions, n) {
      forall n | n in d ensures NothingDangles(d, n) {
        if n in definitions {
          forall path, x | RefersAt(d[n], path, x) ensures x in d { assert x in definitions; }
        }
      }
    }
  }

  lemma {:induction false} ReachesLast(source: Definitions, a: string, b: string, c: string)
    requires Reaches(source, a, b) && Step(source, b, c)
    ensures Reaches(source, a, c)
  {
    var p :| WalkTo(source, p, a, b);
    assert Walk(source, [b, c]);
    Joins(source, p, [b, c]);
    assert WalkTo(source, p[..|p| - 1] + [b, c], a, c);
  }

  // Where the first walk ends the second goes on.
  lemma {:induction false} Joins(source: Definitions, p: seq<string>, q: seq<string>)
    requires Walk(source, p) && Walk(source, q) && p[|p| - 1] == q[0]
    ensures var r := p[..|p| - 1] + q; Walk(source, r) && r[0] == p[0] && r[|r| - 1] == q[|q| - 1]
  {
    var r := p[..|p| - 1] + q;
    forall i | 0 <= i < |r| - 1 ensures Step(source, r[i], r[i + 1]) {
      if i < |p| - 1 {
        assert Step(source, p[i], p[i + 1]);
      } else {
        assert Step(source, q[i - (|p| - 1)], q[i - (|p| - 1) + 1]);
      }
    }
  }

  // The cycle, walked often enough to be longer than any stack.
  lemma {:induction false} Around(source: Definitions, p: seq<string>, depth: nat) returns (q: seq<string>)
    requires Walk(source, p) && |p| > 1 && p[|p| - 1] == p[0]
    ensures Walk(source, q) && q[0] == p[0] && |q| > depth
    decreases depth
  {
    if depth == 0 {
      q := p;
    } else {
      var shorter := Around(source, p, depth - 1);
      Joins(source, p, shorter);
      q := p[..|p| - 1] + shorter;
    }
  }

  ghost predicate OnCycle(source: Definitions, n: string) {
    exists p :: WalkTo(source, p, n, n) && |p| > 1
  }

  // A name that reaches a cycle never merges, however deep the stack.
  lemma {:induction false} CyclesNeverMerge(source: Definitions, definitions: Definitions, name: string, c: string,
        depth: nat)
    requires Reaches(source, name, c) && OnCycle(source, c)
    ensures !Mergeable(definitions, source, name, depth)
  {
    var p :| WalkTo(source, p, name, c);
    var cycle :| WalkTo(source, cycle, c, c) && |cycle| > 1;
    var q := Around(source, cycle, depth);
    Joins(source, p, q);
    assert |p[..|p| - 1] + q| > depth;
  }

  // A walk and the part of it between two of its places.
  lemma {:induction false} Between(source: Definitions, p: seq<string>, i: nat, j: nat)
    requires Walk(source, p) && i <= j < |p|
    ensures WalkTo(source, p[i..j + 1], p[i], p[j])
  {
    var q := p[i..j + 1];
    forall k | 0 <= k < |q| - 1 ensures Step(source, q[k], q[k + 1]) { assert Step(source, p[i + k], p[i + k + 1]); }
  }

  function Visited(p: seq<string>): set<string> { set n | n in p }

  lemma {:induction false} SomeNameTwice(p: seq<string>) returns (i: nat, j: nat)
    requires |p| > |Visited(p)|
    ensures i < j < |p| && p[i] == p[j]
    decreases |p|
  {
    var n := |p| - 1;
    if p[n] in p[..n] {
      i :| 0 <= i < n && p[..n][i] == p[n];
      j := n;
    } else {
      assert p == p[..n] + [p[n]];
      assert Visited(p) == Visited(p[..n]) + {p[n]};
      i, j := SomeNameTwice(p[..n]);
    }
  }

  lemma {:induction false} NoLargerThan<T>(a: set<T>, b: set<T>)
    requires a <= b
    ensures |a| <= |b|
  {
    assert |b| == |a| + |b - a| by { assert b == a + (b - a); }
  }

  // A walk through more names than the source defines passes some name twice.
  lemma {:induction false} LongWalksCycle(source: Definitions, name: string, p: seq<string>)
    requires Walk(source, p) && p[0] == name && |p| > |source.Keys| && forall n :: n in p ==> n in source
    ensures exists c :: Reaches(source, name, c) && OnCycle(source, c)
  {
    NoLargerThan(Visited(p), source.Keys);
    var i, j := SomeNameTwice(p);
    Between(source, p, 0, i);
    Between(source, p, i, j);
    assert WalkTo(source, p[i..j + 1], p[i], p[i]) && |p[i..j + 1]| > 1;
    assert Reaches(source, name, p[i]) && OnCycle(source, p[i]);
  }

  lemma {:induction false} WalkedIsReached(source: Definitions, p: seq<string>, k: nat)
    requires Walk(source, p) && k < |p|
    ensures Reaches(source, p[0], p[k])
  {
    Between(source, p, 0, k);
  }

  // With a stack deeper than the source is large, a merge succeeds exactly when everything reachable is there and
  // agrees, and nothing reachable lies on a reference cycle.
  lemma {:induction false} MergesExactlyWithoutCycles(definitions: Definitions, source: Definitions, name: string,
        depth: nat)
    requires depth >= |source.Keys|
    ensures Mergeable(definitions, source, name, depth)
      <==> Agrees(definitions, source, name) && !(exists c :: Reaches(source, name, c) && OnCycle(source, c))
  {
    hide Reaches, OnCycle;
    if c :| Reaches(source, name, c) && OnCycle(source, c) {
      CyclesNeverMerge(source, definitions, name, c, depth);
    } else if Agrees(definitions, source, name) {
      forall p | Walk(source, p) && p[0] == name ensures |p| <= depth {
        if |p| > depth {
          forall n | n in p ensures n in source {
            var k :| 0 <= k < |p| && p[k] == n;
            WalkedIsReached(source, p, k);
          }
          LongWalksCycle(source, name, p);
        }
      }
    }
  }

  // References that always go down a ranking keep every walk within it.
  lemma {:induction false} RankedWalksFit(source: Definitions, rank: map<string, nat>, p: seq<string>)
    requires Walk(source, p) && Ranked(source, rank) && forall i :: 0 <= i < |p| ==> p[i] in source
    ensures |p| <= rank[p[0]] + 1
    decreases |p|
  {
    if |p| > 1 {
      assert Step(source, p[0], p[1]);
      Between(source, p, 1, |p| - 1);
      assert p[1..|p| - 1 + 1] == p[1..];
      RankedWalksFit(source, rank, p[1..]);
    }
  }

  ghost predicate Ranked(source: Definitions, rank: map<string, nat>) {
    && (forall n :: n in source ==> n in rank)
    && forall a, b :: Step(source, a, b) && b in source ==> rank[b] < rank[a]
  }

  // So a ranked source merges every name whose definitions are there and agree, on a stack deeper than its rank.
  lemma {:induction false} RankedMerges(definitions: Definitions, source: Definitions, name: string,
        rank: map<string, nat>, depth: nat)
    requires Ranked(source, rank) && Agrees(definitions, source, name) && name in source && depth > rank[name]
    ensures Mergeable(definitions, source, name, depth)
  {
    hide Reaches;
    forall p | Walk(source, p) && p[0] == name ensures |p| <= depth {
      forall i | 0 <= i < |p| ensures p[i] in source { WalkedIsReached(source, p, i); }
      RankedWalksFit(source, rank, p);
    }
  }
}
