/**
 The runtime-dependency closure of the build tools: from the tools, over the declared providers, to
 the exact set of dependency edges, by a breadth-first queue of paths.
 */
module RuntimeClosure {
  import opened Wrappers

  // ---- The declared graph ----

  // What the inspection of one ELF file found.
  datatype Elf = Elf(machine: nat, elfType: nat, interpreter: string, soname: string, needed: seq<string>,
                     pathOverride: bool, auditOrFilter: bool)

  datatype Provider = Provider(soname: string, expectedPath: string, path: string, elf: Elf)

  // A tool, or a shared object with the soname it must have.
  datatype Tool = Tool(path: string, elf: Elf, expectedSoname: Option<string>)

  // The loader cache's answers, and the profile's loader with the name it is needed under.
  datatype Policy = Policy(resolved: map<string, string>, loader: string, loaderName: string)

  predicate ProviderAllowed(p: Provider, policy: Policy) {
    && p.path == p.expectedPath
    && p.elf.machine == 183 && p.elf.elfType == 3 && p.elf.soname == p.soname
    && !p.elf.pathOverride && !p.elf.auditOrFilter
    && (p.elf.interpreter == "" || p.elf.interpreter == policy.loader)
    && p.soname in policy.resolved && policy.resolved[p.soname] == p.expectedPath
  }

  predicate ToolAllowed(t: Tool, policy: Policy) {
    && t.elf.machine == 183
    && (match t.expectedSoname
        case None =>
          (t.elf.elfType == 2 || t.elf.elfType == 3) && t.elf.interpreter == policy.loader && t.elf.soname == ""
        case Some(soname) => t.elf.elfType == 3 && t.elf.interpreter == "" && t.elf.soname == soname)
    && !t.elf.pathOverride && !t.elf.auditOrFilter
  }

  // What an allowed file looks like, as a whole.
  lemma {:induction false} AllowedFiles(p: Provider, t: Tool, policy: Policy)
    ensures ProviderAllowed(p, policy) <==> (
      && p.elf.interpreter in {"", policy.loader}
      && p.elf == Elf(183, 3, p.elf.interpreter, p.soname, p.elf.needed, false, false)
      && p.path == p.expectedPath && (p.soname, p.path) in policy.resolved.Items)
    ensures ToolAllowed(t, policy) <==> if t.expectedSoname.None? then
      t.elf.elfType in {2, 3} && t.elf == Elf(183, t.elf.elfType, policy.loader, "", t.elf.needed, false, false)
    else
      t.elf == Elf(183, 3, "", t.expectedSoname.value, t.elf.needed, false, false)
  {
  }

  // The inspection rejects repeated dependency names.
  predicate Distinct<T(==)>(s: seq<T>) { forall i, j :: 0 <= i < j < |s| ==> s[i] != s[j] }

  // The names a file needs, its loader last unless it is already among them.
  function Dependencies(elf: Elf, policy: Policy): (r: seq<string>)
    requires Distinct(elf.needed)
    ensures Distinct(r)
    ensures forall s :: s in r <==> s in elf.needed || (elf.interpreter != "" && s == policy.loaderName)
  {
    if elf.interpreter != "" && policy.loaderName !in elf.needed then elf.needed + [policy.loaderName]
    else elf.needed
  }

  // ---- Reachability ----

  type Requirements = map<string, Elf>

  datatype Graph = Graph(policy: Policy, providers: map<string, string>, requirements: Requirements)

  predicate WellFormed(g: Graph) {
    && (forall path :: path in g.requirements ==> Distinct(g.requirements[path].needed))
    && (forall s :: s in g.providers ==> g.providers[s] in g.requirements)
  }

  function Needs(g: Graph, path: string): (r: seq<string>)
    requires WellFormed(g) && path in g.requirements
    ensures Distinct(r)
  {
    Dependencies(g.requirements[path], g.policy)
  }

  // A declared dependency that the loader cache still resolves to its provider.
  predicate Satisfied(g: Graph, s: string) {
    s in g.providers && s in g.policy.resolved && g.policy.resolved[s] == g.providers[s]
  }

  predicate Step(g: Graph, a: string, b: string)
    requires WellFormed(g)
  {
    a in g.requirements && exists s :: s in Needs(g, a) && s in g.providers && g.providers[s] == b
  }

  predicate IsWalk(g: Graph, roots: set<string>, walk: seq<string>)
    requires WellFormed(g)
  {
    walk != [] && walk[0] in roots && forall i :: 0 <= i < |walk| - 1 ==> Step(g, walk[i], walk[i + 1])
  }

  ghost predicate Reachable(g: Graph, roots: set<string>, path: string)
    requires WellFormed(g)
  {
    exists walk :: IsWalk(g, roots, walk) && walk[|walk| - 1] == path
  }

  lemma {:induction false} ReachableStep(g: Graph, roots: set<string>, a: string, b: string)
    requires WellFormed(g) && Reachable(g, roots, a) && Step(g, a, b)
    ensures Reachable(g, roots, b)
  {
    var walk :| IsWalk(g, roots, walk) && walk[|walk| - 1] == a;
    var longer := walk + [b];
    assert IsWalk(g, roots, longer) && longer[|longer| - 1] == b;
  }

  lemma {:induction false} ReachableRoot(g: Graph, roots: set<string>, path: string)
    requires WellFormed(g) && path in roots
    ensures Reachable(g, roots, path)
  {
    assert IsWalk(g, roots, [path]) && [path][|[path]| - 1] == path;
  }

  // A set with the roots that no step leaves holds everything reachable.
  lemma {:induction false} WalkStaysInside(g: Graph, roots: set<string>, walk: seq<string>, inside: set<string>)
    requires WellFormed(g) && IsWalk(g, roots, walk) && roots <= inside
    requires forall a, b :: a in inside && Step(g, a, b) ==> b in inside
    ensures walk[|walk| - 1] in inside
    decreases |walk|
  {
    if |walk| > 1 {
      var shorter := walk[..|walk| - 1];
      assert IsWalk(g, roots, shorter);
      WalkStaysInside(g, roots, shorter, inside);
      assert Step(g, walk[|walk| - 2], walk[|walk| - 2 + 1]);
    }
  }

  // ---- Edges ----

  datatype Edge = Edge(consumer: string, soname: string, provider: string)

  // The edges leaving a set of paths.
  ghost predicate Leaves(g: Graph, paths: set<string>, e: Edge)
    requires WellFormed(g)
  {
    && e.consumer in paths && e.consumer in g.requirements && e.soname in Needs(g, e.consumer)
    && e.soname in g.providers && e.provider == g.providers[e.soname]
  }

  ghost predicate ExactEdges(g: Graph, paths: set<string>, edges: seq<Edge>)
    requires WellFormed(g)
  {
    Distinct(edges) && forall e :: e in edges <==> Leaves(g, paths, e)
  }

  ghost predicate AllSatisfied(g: Graph, path: string)
    requires WellFormed(g)
  {
    path in g.requirements && forall s :: s in Needs(g, path) ==> Satisfied(g, s)
  }

  function ProvidersOf(edges: seq<Edge>): set<string> { set i | 0 <= i < |edges| :: edges[i].provider }

  // ---- The queue ----

  // The edges of one consumer, and the queue with its unvisited providers appended.
  method Expand(g: Graph, consumer: string, visited: set<string>, queue: seq<string>)
    returns (ok: bool, edges: seq<Edge>, longer: seq<string>)
    requires WellFormed(g) && consumer in g.requirements
    ensures ok <==> AllSatisfied(g, consumer)
    ensures ok ==> ExactEdges(g, {consumer}, edges)
    ensures ok ==> queue <= longer && ProvidersOf(edges) <= visited + (set p | p in longer)
    ensures ok ==> forall p :: p in longer ==> p in queue || Step(g, consumer, p)
  {
    var names := Needs(g, consumer);
    edges, longer := [], queue;
    for k := 0 to |names|
      invariant |edges| == k && queue <= longer
      invariant forall i :: 0 <= i < k ==> Satisfied(g, names[i])
      invariant forall i :: 0 <= i < k ==> edges[i] == Edge(consumer, names[i], g.providers[names[i]])
      invariant forall i :: 0 <= i < k ==> edges[i].provider in visited || edges[i].provider in longer
      invariant forall p :: p in longer ==> p in queue || Step(g, consumer, p)
    {
      var soname := names[k];
      assert soname in Needs(g, consumer);
      if soname !in g.providers { return false, edges, longer; }
      var provider := g.providers[soname];
      if soname !in g.policy.resolved || g.policy.resolved[soname] != provider { return false, edges, longer; }
      edges := edges + [Edge(consumer, soname, provider)];
      if provider !in visited { longer := longer + [provider]; }
    }
    forall e ensures e in edges <==> Leaves(g, {consumer}, e) {
      if Leaves(g, {consumer}, e) {
        var i :| 0 <= i < |names| && names[i] == e.soname;
        assert edges[i] == e;
      }
    }
    ok := true;
  }

  lemma {:induction false} EdgesJoin(g: Graph, paths: set<string>, more: string, a: seq<Edge>, b: seq<Edge>)
    requires WellFormed(g) && more !in paths && ExactEdges(g, paths, a) && ExactEdges(g, {more}, b)
    ensures ExactEdges(g, paths + {more}, a + b)
  {
    forall i, j | 0 <= i < j < |a + b| ensures (a + b)[i] != (a + b)[j] {
      if i < |a| <= j {
        assert Leaves(g, paths, a[i]) && Leaves(g, {more}, b[j - |a|]);
      }
    }
    forall e ensures e in a + b <==> Leaves(g, paths + {more}, e) {
      assert e in a + b <==> e in a || e in b;
    }
  }

  ghost predicate Closed(g: Graph, inside: set<string>, frontier: set<string>)
    requires WellFormed(g)
  {
    forall a, b :: a in inside && Step(g, a, b) ==> b in inside + frontier
  }

  ghost predicate ClosureHolds(g: Graph, roots: set<string>)
    requires WellFormed(g)
  {
    forall path :: Reachable(g, roots, path) ==> AllSatisfied(g, path)
  }

  function Items(queue: seq<string>): set<string> { set p | p in queue }

  // Drains the queue: everything reachable is visited, and the edges found are those leaving it.
  method Drain(g: Graph, roots: seq<string>)
    returns (ok: bool, edges: seq<Edge>, visited: set<string>)
    requires WellFormed(g) && forall r :: r in roots ==> r in g.requirements
    ensures ok <==> ClosureHolds(g, Items(roots))
    ensures ok ==> ExactEdges(g, visited, edges)
    ensures ok ==> forall path :: path in visited <==> Reachable(g, Items(roots), path)
  {
    var queue := roots;
    visited, edges := {}, [];
    ghost var from := Items(roots);
    forall r | r in roots ensures Reachable(g, from, r) { ReachableRoot(g, from, r); }
    while queue != []
      invariant visited <= g.requirements.Keys
      invariant forall p :: p in queue ==> p in g.requirements && Reachable(g, from, p)
      invariant forall p :: p in visited ==> AllSatisfied(g, p) && Reachable(g, from, p)
      invariant from <= visited + Items(queue)
      invariant Closed(g, visited, Items(queue))
      invariant ExactEdges(g, visited, edges)
      decreases g.requirements.Keys - visited, |queue|
    {
      var consumer := queue[0];
      ghost var before := Items(queue);
      queue := queue[1..];
      assert before == {consumer} + Items(queue);
      if consumer in visited {
        continue;
      }
      var good, found, longer := Expand(g, consumer, visited + {consumer}, queue);
      if !good {
        return false, edges, visited;
      }
      forall p | p in longer ensures p in g.requirements && Reachable(g, from, p) {
        if p !in queue { ReachableStep(g, from, consumer, p); }
      }
      StillClosed(g, visited, consumer, queue, longer, found);
      EdgesJoin(g, visited, consumer, edges, found);
      visited := visited + {consumer};
      edges := edges + found;
      queue := longer;
    }
    forall path | Reachable(g, from, path) ensures path in visited {
      var walk :| IsWalk(g, from, walk) && walk[|walk| - 1] == path;
      WalkStaysInside(g, from, walk, visited);
    }
    ok := true;
  }

  lemma {:induction false} StillClosed(g: Graph, visited: set<string>, consumer: string, queue: seq<string>,
        longer: seq<string>, found: seq<Edge>)
    requires WellFormed(g) && Closed(g, visited, {consumer} + Items(queue)) && queue <= longer
    requires AllSatisfied(g, consumer) && ExactEdges(g, {consumer}, found)
    requires ProvidersOf(found) <= visited + {consumer} + Items(longer)
    ensures Closed(g, visited + {consumer}, Items(longer)) && Items(queue) <= Items(longer)
  {
    assert forall p :: p in queue ==> p in longer;
    forall b | Step(g, consumer, b) ensures b in visited + {consumer} + Items(longer) {
      var s :| s in Needs(g, consumer) && s in g.providers && g.providers[s] == b;
      var e := Edge(consumer, s, b);
      assert Leaves(g, {consumer}, e);
      var i :| 0 <= i < |found| && found[i] == e;
      assert found[i].provider in ProvidersOf(found);
    }
  }

  // ---- The whole verification ----

  predicate DistinctSonames(ps: seq<Provider>) {
    forall i, j :: 0 <= i < j < |ps| ==> ps[i].soname != ps[j].soname
  }

  function ProviderMap(ps: seq<Provider>): map<string, string> {
    if ps == [] then map[] else ProviderMap(ps[..|ps| - 1])[ps[|ps| - 1].soname := ps[|ps| - 1].path]
  }

  function ProviderElfs(ps: seq<Provider>): Requirements {
    if ps == [] then map[] else ProviderElfs(ps[..|ps| - 1])[ps[|ps| - 1].expectedPath := ps[|ps| - 1].elf]
  }

  // Later tools override earlier files at the same path.
  function WithTools(m: Requirements, ts: seq<Tool>): Requirements {
    if ts == [] then m else WithTools(m, ts[..|ts| - 1])[ts[|ts| - 1].path := ts[|ts| - 1].elf]
  }

  function ToolPaths(ts: seq<Tool>): (r: seq<string>)
    ensures |r| == |ts| && forall i :: 0 <= i < |r| ==> r[i] == ts[i].path
  {
    seq(|ts|, i requires 0 <= i < |ts| => ts[i].path)
  }

  function DeclaredGraph(ps: seq<Provider>, ts: seq<Tool>, policy: Policy): Graph {
    Graph(policy, ProviderMap(ps), WithTools(ProviderElfs(ps), ts))
  }

  function ExpectedPaths(ps: seq<Provider>): set<string> { set i | 0 <= i < |ps| :: ps[i].expectedPath }

  predicate Declared(ps: seq<Provider>, ts: seq<Tool>, policy: Policy) {
    && (forall i :: 0 <= i < |ps| ==> ProviderAllowed(ps[i], policy)) && DistinctSonames(ps)
    && (forall i :: 0 <= i < |ts| ==> ToolAllowed(ts[i], policy))
  }

  predicate Inspected(ps: seq<Provider>, ts: seq<Tool>) {
    && (forall i :: 0 <= i < |ps| ==> Distinct(ps[i].elf.needed))
    && (forall i :: 0 <= i < |ts| ==> Distinct(ts[i].elf.needed))
  }

  lemma {:induction false} ProvidersWellFormed(ps: seq<Provider>)
    requires forall i :: 0 <= i < |ps| ==> Distinct(ps[i].elf.needed) && ps[i].path == ps[i].expectedPath
    ensures forall path :: path in ProviderElfs(ps) ==> Distinct(ProviderElfs(ps)[path].needed)
    ensures forall s :: s in ProviderMap(ps) ==> ProviderMap(ps)[s] in ProviderElfs(ps)
    decreases |ps|
  {
    hide Distinct;
    if ps != [] { ProvidersWellFormed(ps[..|ps| - 1]); }
  }

  lemma {:induction false} ProvidersByName(ps: seq<Provider>, s: string)
    ensures s in ProviderMap(ps) <==> exists i :: 0 <= i < |ps| && ps[i].soname == s
    decreases |ps|
  {
    if ps != [] {
      var front := ps[..|ps| - 1];
      ProvidersByName(front, s);
      if s in ProviderMap(front) {
        var i :| 0 <= i < |front| && front[i].soname == s;
        assert ps[i].soname == s;
      }
      if i :| 0 <= i < |ps| && ps[i].soname == s {
        if i < |ps| - 1 { assert front[i].soname == s; }
      }
    }
  }

  lemma {:induction false} ToolsWellFormed(m: Requirements, ts: seq<Tool>)
    requires forall i :: 0 <= i < |ts| ==> Distinct(ts[i].elf.needed)
    requires forall path :: path in m ==> Distinct(m[path].needed)
    ensures forall path :: path in WithTools(m, ts) ==> Distinct(WithTools(m, ts)[path].needed)
    ensures m.Keys <= WithTools(m, ts).Keys
    ensures forall i :: 0 <= i < |ts| ==> ts[i].path in WithTools(m, ts)
    decreases |ts|
  {
    hide Distinct;
    if ts != [] {
      ToolsWellFormed(m, ts[..|ts| - 1]);
      forall i | 0 <= i < |ts| ensures ts[i].path in WithTools(m, ts) {
        if i < |ts| - 1 { assert ts[..|ts| - 1][i].path in WithTools(m, ts[..|ts| - 1]); }
      }
    }
  }

  lemma {:induction false} GraphWellFormed(ps: seq<Provider>, ts: seq<Tool>, policy: Policy)
    requires Declared(ps, ts, policy) && Inspected(ps, ts)
    ensures WellFormed(DeclaredGraph(ps, ts, policy))
    ensures forall r :: r in ToolPaths(ts) ==> r in DeclaredGraph(ps, ts, policy).requirements
  {
    ProvidersWellFormed(ps);
    ToolsWellFormed(ProviderElfs(ps), ts);
  }

  method DeclareProviders(ps: seq<Provider>, policy: Policy)
    returns (ok: bool, providers: map<string, string>, requirements: Requirements)
    requires forall i :: 0 <= i < |ps| ==> Distinct(ps[i].elf.needed)
    ensures ok <==> (forall i :: 0 <= i < |ps| ==> ProviderAllowed(ps[i], policy)) && DistinctSonames(ps)
    ensures ok ==> providers == ProviderMap(ps) && requirements == ProviderElfs(ps)
  {
    hide Distinct;
    providers, requirements := map[], map[];
    for i := 0 to |ps|
      invariant forall k :: 0 <= k < i ==> ProviderAllowed(ps[k], policy)
      invariant DistinctSonames(ps[..i])
      invariant providers == ProviderMap(ps[..i]) && requirements == ProviderElfs(ps[..i])
    {
      var p := ps[i];
      if !ProviderAllowed(p, policy) { return false, providers, requirements; }
      ProvidersByName(ps[..i], p.soname);
      if p.soname in providers {
        var k :| 0 <= k < |ps[..i]| && ps[..i][k].soname == p.soname;
        assert ps[k].soname == ps[i].soname;
        return false, providers, requirements;
      }
      forall a, b | 0 <= a < b < i + 1 ensures ps[a].soname != ps[b].soname {
        if b == i { assert ps[..i][a].soname == ps[a].soname; } else { assert ps[..i][a].soname != ps[..i][b].soname; }
      }
      assert ps[..i + 1][..i] == ps[..i];
      providers := providers[p.soname := p.path];
      requirements := requirements[p.expectedPath := p.elf];
    }
    assert ps[..|ps|] == ps;
    ok := true;
  }

  // Some reachable file depends on it.
  ghost predicate Used(g: Graph, roots: set<string>, path: string)
    requires WellFormed(g)
  {
    exists a :: Reachable(g, roots, a) && Step(g, a, path)
  }

  // Everything reachable from the tools is satisfied, and it reaches exactly the declared providers.
  ghost predicate ExactClosure(ps: seq<Provider>, ts: seq<Tool>, policy: Policy)
    requires WellFormed(DeclaredGraph(ps, ts, policy))
  {
    var g, roots := DeclaredGraph(ps, ts, policy), Items(ToolPaths(ts));
    && ClosureHolds(g, roots)
    && forall path :: path in ExpectedPaths(ps) <==> Used(g, roots, path)
  }

  ghost predicate EdgesOfReachable(g: Graph, roots: set<string>, edges: seq<Edge>)
    requires WellFormed(g)
  {
    && Distinct(edges)
    && forall e :: e in edges <==> Reachable(g, roots, e.consumer) && Leaves(g, {e.consumer}, e)
  }

  // ---- The files themselves ----

  // The last tool at a path, and the last provider expected there.
  predicate LastTool(ts: seq<Tool>, i: int, path: string) {
    0 <= i < |ts| && ts[i].path == path && forall j :: i < j < |ts| ==> ts[j].path != path
  }

  predicate LastProvider(ps: seq<Provider>, i: int, path: string) {
    0 <= i < |ps| && ps[i].expectedPath == path && forall j :: i < j < |ps| ==> ps[j].expectedPath != path
  }

  predicate NoTool(ts: seq<Tool>, path: string) { forall j :: 0 <= j < |ts| ==> ts[j].path != path }

  // What was found in the last tool at a path, or else in the last provider.
  ghost predicate FoundAt(ps: seq<Provider>, ts: seq<Tool>, path: string, elf: Elf) {
    || (exists i :: LastTool(ts, i, path) && ts[i].elf == elf)
    || (NoTool(ts, path) && exists i :: LastProvider(ps, i, path) && ps[i].elf == elf)
  }

  // The file at `path` names `soname` among its needs, or runs under the loader of that name.
  ghost predicate FileNeeds(ps: seq<Provider>, ts: seq<Tool>, policy: Policy, path: string, soname: string) {
    exists elf :: FoundAt(ps, ts, path, elf)
      && (soname in elf.needed || (elf.interpreter != "" && soname == policy.loaderName))
  }

  predicate Provides(ps: seq<Provider>, soname: string, path: string) {
    exists i :: 0 <= i < |ps| && ps[i].soname == soname && ps[i].path == path
  }

  ghost predicate FileStep(ps: seq<Provider>, ts: seq<Tool>, policy: Policy, a: string, b: string) {
    exists soname :: FileNeeds(ps, ts, policy, a, soname) && Provides(ps, soname, b)
  }

  ghost predicate IsFileWalk(ps: seq<Provider>, ts: seq<Tool>, policy: Policy, walk: seq<string>) {
    && walk != [] && (exists i :: 0 <= i < |ts| && ts[i].path == walk[0])
    && forall i :: 0 <= i < |walk| - 1 ==> FileStep(ps, ts, policy, walk[i], walk[i + 1])
  }

  // Some walk from a tool along the files' own needs ends there.
  ghost predicate FileReached(ps: seq<Provider>, ts: seq<Tool>, policy: Policy, path: string) {
    exists walk :: IsFileWalk(ps, ts, policy, walk) && walk[|walk| - 1] == path
  }

  // Every need of a reached file has a provider, which the loader cache resolves it to; and the providers so needed
  // are exactly those declared.
  ghost predicate FilesClosed(ps: seq<Provider>, ts: seq<Tool>, policy: Policy) {
    && (forall a, s :: FileReached(ps, ts, policy, a) && FileNeeds(ps, ts, policy, a, s) ==>
      s in policy.resolved && Provides(ps, s, policy.resolved[s]))
    && forall i :: 0 <= i < |ps| ==> FileUsed(ps, ts, policy, ps[i].path)
  }

  ghost predicate FileUsed(ps: seq<Provider>, ts: seq<Tool>, policy: Policy, path: string) {
    exists a :: FileReached(ps, ts, policy, a) && FileStep(ps, ts, policy, a, path)
  }

  ghost predicate EdgesOfFiles(ps: seq<Provider>, ts: seq<Tool>, policy: Policy, edges: seq<Edge>) {
    && Distinct(edges)
    && forall e :: e in edges <==> IsFileEdge(ps, ts, policy, e)
  }

  ghost predicate IsFileEdge(ps: seq<Provider>, ts: seq<Tool>, policy: Policy, e: Edge) {
    && FileReached(ps, ts, policy, e.consumer) && FileNeeds(ps, ts, policy, e.consumer, e.soname)
    && Provides(ps, e.soname, e.provider)
  }

  lemma {:induction false} ProviderFound(ps: seq<Provider>, path: string)
    ensures path in ProviderElfs(ps) ==> exists i :: LastProvider(ps, i, path) && ps[i].elf == ProviderElfs(ps)[path]
    ensures path !in ProviderElfs(ps) ==> forall i :: 0 <= i < |ps| ==> ps[i].expectedPath != path
    decreases |ps|
  {
    if ps != [] {
      var n := |ps| - 1;
      var front := ps[..n];
      ProviderFound(front, path);
      if ps[n].expectedPath == path {
        assert LastProvider(ps, n, path);
      } else if path in ProviderElfs(ps) {
        var i :| LastProvider(front, i, path) && front[i].elf == ProviderElfs(front)[path];
        forall j | i < j < |ps| ensures ps[j].expectedPath != path { if j < n { assert ps[j] == front[j]; } }
        assert LastProvider(ps, i, path);
      } else {
        forall i | 0 <= i < |ps| ensures ps[i].expectedPath != path { if i < n { assert ps[i] == front[i]; } }
      }
    }
  }

  // The declared graph holds for each path what was found there.
  lemma {:induction false} FileFound(ps: seq<Provider>, ts: seq<Tool>, path: string)
    ensures var m := WithTools(ProviderElfs(ps), ts);
      && (path in m ==> FoundAt(ps, ts, path, m[path]))
      && (forall elf :: FoundAt(ps, ts, path, elf) ==> path in m && elf == m[path])
  {
    var m := WithTools(ProviderElfs(ps), ts);
    ToolFound(ProviderElfs(ps), ts, path);
    ProviderFound(ps, path);
    if path in m { FoundOnce(ps, ts, path, m[path]); }
  }

  lemma {:induction false} ToolFound(m: Requirements, ts: seq<Tool>, path: string)
    ensures NoTool(ts, path) ==> (path in WithTools(m, ts) <==> path in m)
    ensures NoTool(ts, path) && path in m ==> WithTools(m, ts)[path] == m[path]
    ensures !NoTool(ts, path) ==>
      path in WithTools(m, ts) && exists i :: LastTool(ts, i, path) && ts[i].elf == WithTools(m, ts)[path]
    decreases |ts|
  {
    hide NoTool;
    if ts == [] {
      NoToolAmong(ts, path);
    } else {
      var n := |ts| - 1;
      ToolFound(m, ts[..n], path);
      if ts[n].path == path {
        LastOfAll(ts, path);
      } else {
        NoLater(ts, path);
        if !NoTool(ts[..n], path) {
          var i :| LastTool(ts[..n], i, path) && ts[..n][i].elf == WithTools(m, ts[..n])[path];
          StillLast(ts, i, path);
        }
      }
    }
  }

  lemma {:induction false} NoToolAmong(ts: seq<Tool>, path: string)
    requires ts == []
    ensures NoTool(ts, path)
  {
  }

  lemma {:induction false} LastOfAll(ts: seq<Tool>, path: string)
    requires ts != [] && ts[|ts| - 1].path == path
    ensures LastTool(ts, |ts| - 1, path) && !NoTool(ts, path)
  {
  }

  lemma {:induction false} NoLater(ts: seq<Tool>, path: string)
    requires ts != [] && ts[|ts| - 1].path != path
    ensures NoTool(ts, path) <==> NoTool(ts[..|ts| - 1], path)
  {
    forall i | 0 <= i < |ts| - 1 ensures ts[i] == ts[..|ts| - 1][i] {}
  }

  lemma {:induction false} StillLast(ts: seq<Tool>, i: int, path: string)
    requires ts != [] && ts[|ts| - 1].path != path && LastTool(ts[..|ts| - 1], i, path)
    ensures LastTool(ts, i, path) && ts[i] == ts[..|ts| - 1][i]
  {
    forall j | i < j < |ts| - 1 ensures ts[j].path != path { assert ts[j] == ts[..|ts| - 1][j]; }
  }

  lemma {:induction false} FoundOnce(ps: seq<Provider>, ts: seq<Tool>, path: string, elf: Elf)
    requires FoundAt(ps, ts, path, elf)
    ensures forall other :: FoundAt(ps, ts, path, other) ==> other == elf
  {
    forall other | FoundAt(ps, ts, path, other) ensures other == elf {
      if NoTool(ts, path) {
        var i :| LastProvider(ps, i, path) && ps[i].elf == elf;
        var j :| LastProvider(ps, j, path) && ps[j].elf == other;
        assert i == j;
      } else {
        var i :| LastTool(ts, i, path) && ts[i].elf == elf;
        var j :| LastTool(ts, j, path) && ts[j].elf == other;
        assert i == j;
      }
    }
  }

  lemma {:induction false} ProviderIs(ps: seq<Provider>, s: string, path: string)
    requires DistinctSonames(ps)
    ensures Provides(ps, s, path) <==> s in ProviderMap(ps) && ProviderMap(ps)[s] == path
    decreases |ps|
  {
    if ps != [] {
      var n := |ps| - 1;
      var front := ps[..n];
      assert forall i :: 0 <= i < n ==> front[i] == ps[i];
      ProviderIs(front, s, path);
      if i :| 0 <= i < |front| && front[i].soname == s && front[i].path == path { assert ps[i] == front[i]; }
      if i :| 0 <= i < |ps| && ps[i].soname == s && ps[i].path == path && i < n { assert front[i] == ps[i]; }
    }
  }

  // The graph's needs, steps and walks are the files' own.
  lemma {:induction false} NeedsAreTheFiles(ps: seq<Provider>, ts: seq<Tool>, policy: Policy, path: string, s: string)
    requires WellFormed(DeclaredGraph(ps, ts, policy))
    ensures var g := DeclaredGraph(ps, ts, policy);
      path in g.requirements && s in Needs(g, path) <==> FileNeeds(ps, ts, policy, path, s)
  {
    hide WellFormed, FoundAt, WithTools, ProviderElfs, Distinct;
    FileFound(ps, ts, path);
  }

  lemma {:induction false} StepsAreTheFiles(ps: seq<Provider>, ts: seq<Tool>, policy: Policy, a: string, b: string)
    requires WellFormed(DeclaredGraph(ps, ts, policy)) && DistinctSonames(ps)
    ensures Step(DeclaredGraph(ps, ts, policy), a, b) <==> FileStep(ps, ts, policy, a, b)
  {
    hide WellFormed, FileNeeds, Provides, ProviderMap, DistinctSonames, WithTools, ProviderElfs, Needs;
    var g := DeclaredGraph(ps, ts, policy);
    if Step(g, a, b) {
      var s :| s in Needs(g, a) && s in g.providers && g.providers[s] == b;
      NeedsAreTheFiles(ps, ts, policy, a, s);
      ProviderIs(ps, s, b);
    }
    if s :| FileNeeds(ps, ts, policy, a, s) && Provides(ps, s, b) {
      NeedsAreTheFiles(ps, ts, policy, a, s);
      ProviderIs(ps, s, b);
    }
  }

  lemma {:induction false} ReachedAreTheFiles(ps: seq<Provider>, ts: seq<Tool>, policy: Policy, path: string)
    requires WellFormed(DeclaredGraph(ps, ts, policy)) && DistinctSonames(ps)
    ensures Reachable(DeclaredGraph(ps, ts, policy), Items(ToolPaths(ts)), path) <==> FileReached(ps, ts, policy, path)
  {
    hide Step, FileStep, WellFormed, DistinctSonames, DeclaredGraph;
    var g, roots := DeclaredGraph(ps, ts, policy), Items(ToolPaths(ts));
    forall a, b ensures Step(g, a, b) <==> FileStep(ps, ts, policy, a, b) { StepsAreTheFiles(ps, ts, policy, a, b); }
    forall r ensures r in roots <==> exists i :: 0 <= i < |ts| && ts[i].path == r {
      if i :| 0 <= i < |ts| && ts[i].path == r { assert ToolPaths(ts)[i] == r; }
    }
    forall walk: seq<string> ensures IsWalk(g, roots, walk) <==> IsFileWalk(ps, ts, policy, walk) {}
  }

  lemma {:induction false} EdgesAreTheFiles(ps: seq<Provider>, ts: seq<Tool>, policy: Policy, edges: seq<Edge>)
    requires WellFormed(DeclaredGraph(ps, ts, policy)) && DistinctSonames(ps)
    requires EdgesOfReachable(DeclaredGraph(ps, ts, policy), Items(ToolPaths(ts)), edges)
    ensures EdgesOfFiles(ps, ts, policy, edges)
  {
    hide Reachable, FileReached, FileNeeds, Provides, WellFormed, DistinctSonames, Needs, WithTools, ProviderElfs;
    hide Distinct, ProviderMap;
    var g, roots := DeclaredGraph(ps, ts, policy), Items(ToolPaths(ts));
    forall e: Edge
      ensures Reachable(g, roots, e.consumer) && Leaves(g, {e.consumer}, e) <==> IsFileEdge(ps, ts, policy, e)
    {
      ReachedAreTheFiles(ps, ts, policy, e.consumer);
      NeedsAreTheFiles(ps, ts, policy, e.consumer, e.soname);
      ProviderIs(ps, e.soname, e.provider);
    }
  }

  lemma {:induction false} ClosureIsTheFiles(ps: seq<Provider>, ts: seq<Tool>, policy: Policy)
    requires Declared(ps, ts, policy) && WellFormed(DeclaredGraph(ps, ts, policy))
    ensures ExactClosure(ps, ts, policy) <==> FilesClosed(ps, ts, policy)
  {
    hide Reachable, FileReached, FileNeeds, Provides, WellFormed, WithTools, ProviderElfs, FileStep, Step, ProviderMap;
    hide ToolAllowed;
    var g, roots := DeclaredGraph(ps, ts, policy), Items(ToolPaths(ts));
    forall a ensures Reachable(g, roots, a) <==> FileReached(ps, ts, policy, a) {
      ReachedAreTheFiles(ps, ts, policy, a);
    }
    forall a, b ensures Step(g, a, b) <==> FileStep(ps, ts, policy, a, b) { StepsAreTheFiles(ps, ts, policy, a, b); }
    hide ClosureHolds, ProviderAllowed, DistinctSonames;
    SatisfiedIsTheFiles(ps, ts, policy);
    UsedAreDeclared(ps, ts, policy);
    forall path ensures Used(g, roots, path) <==> FileUsed(ps, ts, policy, path) {
      if a :| Reachable(g, roots, a) && Step(g, a, path) {
        assert FileReached(ps, ts, policy, a) && FileStep(ps, ts, policy, a, path);
      }
      if a :| FileReached(ps, ts, policy, a) && FileStep(ps, ts, policy, a, path) {
        assert Reachable(g, roots, a) && Step(g, a, path);
      }
    }
  }

  lemma {:induction false} SatisfiedIsTheFiles(ps: seq<Provider>, ts: seq<Tool>, policy: Policy)
    requires DistinctSonames(ps) && WellFormed(DeclaredGraph(ps, ts, policy))
    requires forall a ::
      Reachable(DeclaredGraph(ps, ts, policy), Items(ToolPaths(ts)), a) <==> FileReached(ps, ts, policy, a)
    ensures ClosureHolds(DeclaredGraph(ps, ts, policy), Items(ToolPaths(ts))) <==>
      forall a, s :: FileReached(ps, ts, policy, a) && FileNeeds(ps, ts, policy, a, s) ==>
        s in policy.resolved && Provides(ps, s, policy.resolved[s])
  {
    hide Reachable, FileReached, FileNeeds, Provides, WellFormed, WithTools, ProviderElfs, ProviderMap, Needs;
    hide DistinctSonames;
    var g, roots := DeclaredGraph(ps, ts, policy), Items(ToolPaths(ts));
    forall a, s ensures a in g.requirements && s in Needs(g, a) <==> FileNeeds(ps, ts, policy, a, s) {
      NeedsAreTheFiles(ps, ts, policy, a, s);
    }
    forall s ensures Satisfied(g, s) <==> s in policy.resolved && Provides(ps, s, policy.resolved[s]) {
      if s in policy.resolved { ProviderIs(ps, s, policy.resolved[s]); }
    }
    forall a | Reachable(g, roots, a) ensures a in g.requirements { ReachedIsKnown(ps, ts, policy, a); }
  }

  lemma {:induction false} ReachedIsKnown(ps: seq<Provider>, ts: seq<Tool>, policy: Policy, path: string)
    requires WellFormed(DeclaredGraph(ps, ts, policy))
    requires Reachable(DeclaredGraph(ps, ts, policy), Items(ToolPaths(ts)), path)
    ensures path in DeclaredGraph(ps, ts, policy).requirements
  {
    hide WithTools, ProviderElfs, ProviderMap;
    var g, roots := DeclaredGraph(ps, ts, policy), Items(ToolPaths(ts));
    var walk :| IsWalk(g, roots, walk) && walk[|walk| - 1] == path;
    if |walk| == 1 {
      var i :| 0 <= i < |ToolPaths(ts)| && ToolPaths(ts)[i] == path;
      ToolsAreKnown(ProviderElfs(ps), ts, i);
    } else {
      assert Step(g, walk[|walk| - 2], walk[|walk| - 2 + 1]);
    }
  }

  lemma {:induction false} ToolsAreKnown(m: Requirements, ts: seq<Tool>, i: nat)
    requires i < |ts|
    ensures ts[i].path in WithTools(m, ts)
    decreases |ts|
  {
    if i < |ts| - 1 { ToolsAreKnown(m, ts[..|ts| - 1], i); }
  }

  // Steps go to declared providers only, so the census asks just that each is used.
  lemma {:induction false} UsedAreDeclared(ps: seq<Provider>, ts: seq<Tool>, policy: Policy)
    requires Declared(ps, ts, policy) && WellFormed(DeclaredGraph(ps, ts, policy))
    ensures var g, roots := DeclaredGraph(ps, ts, policy), Items(ToolPaths(ts));
      (forall path :: path in ExpectedPaths(ps) <==> Used(g, roots, path)) <==>
      forall i :: 0 <= i < |ps| ==> Used(g, roots, ps[i].path)
  {
    hide Reachable, WellFormed, WithTools, ProviderElfs, ToolAllowed, DistinctSonames;
    var g, roots := DeclaredGraph(ps, ts, policy), Items(ToolPaths(ts));
    forall a, path | Step(g, a, path) ensures path in ExpectedPaths(ps) {
      var s :| s in g.providers && g.providers[s] == path;
      ProviderIs(ps, s, path);
      var i :| 0 <= i < |ps| && ps[i].soname == s && ps[i].path == path;
      assert ps[i].expectedPath in ExpectedPaths(ps);
    }
    forall i | 0 <= i < |ps| ensures ps[i].path in ExpectedPaths(ps) { assert ps[i].path == ps[i].expectedPath; }
    forall path | path in ExpectedPaths(ps) ensures exists i :: 0 <= i < |ps| && ps[i].path == path {
      var i :| 0 <= i < |ps| && ps[i].expectedPath == path;
      assert ps[i].path == path;
    }
  }

  method VerifyRuntimeClosure(ps: seq<Provider>, ts: seq<Tool>, policy: Policy)
    returns (r: Option<seq<Edge>>)
    requires Inspected(ps, ts)
    ensures Declared(ps, ts, policy) ==> WellFormed(DeclaredGraph(ps, ts, policy))
    ensures r.Some? <==> Declared(ps, ts, policy) && ExactClosure(ps, ts, policy)
    ensures r.Some? ==> EdgesOfReachable(DeclaredGraph(ps, ts, policy), Items(ToolPaths(ts)), r.value)
    ensures r.Some? <==> Declared(ps, ts, policy) && FilesClosed(ps, ts, policy)
    ensures r.Some? ==> EdgesOfFiles(ps, ts, policy, r.value)
  {
    hide Distinct, Reachable, Leaves, FilesClosed, EdgesOfFiles;
    if Declared(ps, ts, policy) {
      GraphWellFormed(ps, ts, policy);
      ClosureIsTheFiles(ps, ts, policy);
    }
    var ok, providers, requirements := DeclareProviders(ps, policy);
    if !ok { return None; }
    for i := 0 to |ts|
      invariant forall k :: 0 <= k < i ==> ToolAllowed(ts[k], policy)
      invariant requirements == WithTools(ProviderElfs(ps), ts[..i])
    {
      if !ToolAllowed(ts[i], policy) { return None; }
      assert ts[..i + 1][..i] == ts[..i];
      requirements := requirements[ts[i].path := ts[i].elf];
    }
    assert ts[..|ts|] == ts;
    GraphWellFormed(ps, ts, policy);
    var g := Graph(policy, providers, requirements);
    var edges, visited;
    ok, edges, visited := Drain(g, ToolPaths(ts));
    if !ok { return None; }
    UsedAreReached(g, Items(ToolPaths(ts)), visited, edges);
    if ProvidersOf(edges) != ExpectedPaths(ps) { return None; }
    EdgesAreTheFiles(ps, ts, policy, edges);
    r := Some(edges);
  }

  lemma {:induction false} UsedAreReached(g: Graph, roots: set<string>, visited: set<string>, edges: seq<Edge>)
    requires WellFormed(g) && ExactEdges(g, visited, edges)
    requires forall path :: path in visited <==> Reachable(g, roots, path)
    ensures forall path :: path in ProvidersOf(edges) <==> Used(g, roots, path)
    ensures EdgesOfReachable(g, roots, edges)
  {
    forall path | path in ProvidersOf(edges) ensures Used(g, roots, path) {
      var i :| 0 <= i < |edges| && edges[i].provider == path;
      assert edges[i] in edges;
      assert Leaves(g, visited, edges[i]);
      assert Reachable(g, roots, edges[i].consumer) && Step(g, edges[i].consumer, path);
    }
    forall a, path | Reachable(g, roots, a) && Step(g, a, path) ensures path in ProvidersOf(edges) {
      var s :| s in Needs(g, a) && s in g.providers && g.providers[s] == path;
      assert Leaves(g, visited, Edge(a, s, path));
      var i :| 0 <= i < |edges| && edges[i] == Edge(a, s, path);
      assert edges[i].provider in ProvidersOf(edges);
    }
    forall e ensures e in edges <==> Reachable(g, roots, e.consumer) && Leaves(g, {e.consumer}, e) {
      assert e in edges <==> Leaves(g, visited, e);
    }
  }
}
