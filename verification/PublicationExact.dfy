/**
 All or nothing: what a run of the publisher leaves in a directory nobody else touches, with the exact condition on
 failing calls under which a failure restores it.
 */
module PublicationExact {
  import opened Wrappers
  import opened Bytes
  import opened PublicationRun

  // Other processes leave the directory alone.
  ghost predicate Quiet(w: World) { forall k, d, ids :: w.others(k, d, ids) == d }

  ghost predicate UnlinksSucceed(w: World) { forall k :: !w.fails(k, Unlink) }

  // ---- When the first look at a stage fails ----

  // The name an artifact is staged under and the call that opens it, among the names in use.
  function FirstOpening(w: World, names: set<string>, a: Artifact, clock: nat, tries: nat): Option<(string, nat)>
    decreases tries
  {
    if tries == 0 || w.fails(clock, Open) then None
    else
      var name := StageName(w, a, clock);
      if name in names then FirstOpening(w, names, a, clock + 1, tries - 1) else Some((name, clock))
  }

  // The staging that starts at call `clock` reaches a first look that fails.
  predicate LookFails(w: World, names: set<string>, artifacts: seq<Artifact>, clock: nat)
    decreases |artifacts|
  {
    artifacts != []
    && var opening := FirstOpening(w, names, artifacts[0], clock, TRIES);
      opening.Some?
      && var (name, at) := opening.value;
        w.fails(at + 1, FirstStat)
        || (!w.fails(at + 2, Copy) && LookFails(w, names + {name}, artifacts[1..], at + 3))
  }

  // No target is in use, and looking for each succeeds.
  predicate TargetsAreClear(w: World, names: set<string>, artifacts: seq<Artifact>, clock: nat) {
    forall i :: 0 <= i < |artifacts| ==> TargetIsClear(w, names, artifacts[i], clock + i)
  }

  predicate TargetIsClear(w: World, names: set<string>, a: Artifact, clock: nat) {
    !w.fails(clock, Check) && a.name !in names
  }

  // The targets are clear and the first look at some stage fails.
  predicate Leaks(w: World, names: set<string>, artifacts: seq<Artifact>, clock: nat) {
    TargetsAreClear(w, names, artifacts, clock) && LookFails(w, names, artifacts, clock + |artifacts|)
  }

  lemma {:induction false} SomeLookFails(w: World, names: set<string>, artifacts: seq<Artifact>, clock: nat)
    requires LookFails(w, names, artifacts, clock)
    ensures exists k :: w.fails(k, FirstStat)
    decreases |artifacts|
  {
    var (name, at) := FirstOpening(w, names, artifacts[0], clock, TRIES).value;
    if !w.fails(at + 1, FirstStat) { SomeLookFails(w, names + {name}, artifacts[1..], at + 3); }
  }

  // ---- The directory in a quiet world ----

  ghost predicate LeftBehind(before: Dir, after: Dir) {
    exists n, inode :: n !in before && after == before[n := File(inode, true, [])]
  }

  function Names(held: seq<Held>): set<string> { set h | h in held :: h.name }

  // The directory with the names held added, each with its artifact's bytes.
  ghost predicate Staged(base: Dir, artifacts: seq<Artifact>, held: seq<Held>, d: Dir)
    requires |held| <= |artifacts|
  {
    && d.Keys == base.Keys + Names(held)
    && (forall n :: n in base ==> d[n] == base[n])
    && (forall i :: 0 <= i < |held| ==>
      held[i].name !in base && held[i].name in d && d[held[i].name] == File(held[i].inode, true, artifacts[i].bytes))
  }

  // The targets, and nothing else, were added, each with its artifact's bytes.
  ghost predicate AllPublished(before: Dir, artifacts: seq<Artifact>, after: Dir) {
    && after.Keys == before.Keys + (set a | a in artifacts :: a.name)
    && (forall n :: n in before ==> after[n] == before[n])
    && (forall a :: a in artifacts ==>
      a.name !in before && a.name in after && after[a.name].ours && after[a.name].bytes == a.bytes)
  }

  // Every name held that is there carries its recorded number.
  ghost predicate Holds(held: seq<Held>, d: Dir) { forall h :: h in held && h.name in d ==> Carries(d, h) }

  lemma {:induction false} NothingStaged(base: Dir, artifacts: seq<Artifact>)
    ensures Staged(base, artifacts, [], base)
  {
  }

  lemma {:induction false} StagedBefore(base: Dir, artifacts: seq<Artifact>, h: Held, rest: seq<Held>, d: Dir)
    requires |rest| < |artifacts| && h.name !in base
    requires Staged(base[h.name := File(h.inode, true, artifacts[0].bytes)], artifacts[1..], rest, d)
    ensures Staged(base, artifacts, [h] + rest, d)
  {
    var held := [h] + rest;
    forall i | 0 <= i < |held|
      ensures held[i].name !in base && held[i].name in d
      ensures d[held[i].name] == File(held[i].inode, true, artifacts[i].bytes)
    {
      if i > 0 { assert held[i] == rest[i - 1] && artifacts[i] == artifacts[1..][i - 1]; }
    }
    assert Names(held) == {h.name} + Names(rest);
  }

  lemma {:induction false} TakenAway(base: Dir, artifacts: seq<Artifact>, held: seq<Held>, d: Dir)
    requires |held| <= |artifacts| && Staged(base, artifacts, held, d)
    ensures Holds(held, d) && d - Names(held) == base
  {
    forall h | h in held && h.name in d ensures Carries(d, h) && h.name !in base {
      var i :| 0 <= i < |held| && held[i] == h;
    }
  }

  lemma {:induction false} NamesOf(held: seq<Held>)
    requires held != []
    ensures Names(held) == {held[0].name} + Names(held[1..])
  {
    assert held == [held[0]] + held[1..];
  }

  lemma {:induction false} ReversedHolds(held: seq<Held>, d: Dir)
    ensures Names(Reversed(held)) == Names(held) && (Holds(held, d) ==> Holds(Reversed(held), d))
    ensures forall h :: h in Reversed(held) <==> h in held
  {
    if held != [] {
      ReversedHolds(held[1..], d);
      assert held == [held[0]] + held[1..];
    }
  }

  // ---- Each phase in a quiet world ----

  lemma {:induction false} QuietUnlinks(w: World, s: State, held: seq<Held>)
    requires Quiet(w) && UnlinksSucceed(w) && Holds(held, s.dir)
    ensures UnlinkAll(w, s, held).dir == s.dir - Names(held)
    decreases |held|
  {
    if held != [] {
      NamesOf(held);
      assert held[0] in held;
      var next := UnlinkOwned(w, s, held[0]);
      assert next.dir == s.dir - {held[0].name};
      QuietUnlinks(w, next, held[1..]);
    }
  }

  lemma {:induction false} NewFile(d: Dir, name: string, inode: nat)
    requires name !in d && forall n :: n in d ==> d[n].inode != inode
    ensures forall b :: Rewritten(d[name := File(inode, true, [])], inode, b) == d[name := File(inode, true, b)]
    ensures forall b :: d[name := File(inode, true, b)] - {name} == d
  {
  }

  // Staging one artifact ends as its first opening, its first look and its copy do.
  lemma {:induction false} QuietStage(w: World, s: State, a: Artifact, tries: nat)
    requires Quiet(w) && UnlinksSucceed(w)
    ensures var r, o := Stage(w, s, a, tries), FirstOpening(w, s.dir.Keys, a, s.clock, tries);
      if o.None? then r.result in {Failed(Open), NoStageName} && r.state.dir == s.dir
      else
        var (name, at) := o.value;
        name !in s.dir
        && if w.fails(at + 1, FirstStat) then r.result == Failed(FirstStat) && LeftBehind(s.dir, r.state.dir)
          else if w.fails(at + 2, Copy) then r.result == Failed(Copy) && r.state.dir == s.dir
          else
            && r.result == Published && r.held.name == name && r.state.clock == at + 3
            && r.state.dir == s.dir[name := File(r.held.inode, true, a.bytes)]
    decreases tries
  {
    if tries > 0 && !w.fails(s.clock, Open) {
      var name := StageName(w, a, s.clock);
      var opening := OpenStage(w, s, name);
      if name in s.dir {
        QuietStage(w, opening.1, a, tries - 1);
      } else {
        QuietFill(w, opening.1, Held(name, opening.0.inode), a.bytes, s.dir);
      }
    }
  }

  lemma {:induction false} QuietFill(w: World, s: State, h: Held, bytes: Bytes, base: Dir)
    requires Quiet(w) && UnlinksSucceed(w) && h.name !in base && forall n :: n in base ==> base[n].inode != h.inode
    requires s.dir == base[h.name := File(h.inode, true, [])]
    ensures var r := FillStage(w, s, h, bytes);
      if w.fails(s.clock, FirstStat) then r.result == Failed(FirstStat) && LeftBehind(base, r.state.dir)
      else if w.fails(s.clock + 1, Copy) then r.result == Failed(Copy) && r.state.dir == base
      else
        && r.result == Published && r.held == h && r.state.clock == s.clock + 2
        && r.state.dir == base[h.name := File(h.inode, true, bytes)]
  {
    NewFile(base, h.name, h.inode);
  }

  lemma {:induction false} QuietStageAll(w: World, s: State, artifacts: seq<Artifact>)
    requires Quiet(w) && UnlinksSucceed(w)
    ensures var p := StageAll(w, s, artifacts);
      && (p.result == Failed(FirstStat) <==> LookFails(w, s.dir.Keys, artifacts, s.clock))
      && (p.result != Failed(FirstStat) ==> Staged(s.dir, artifacts, p.held, p.state.dir))
      && (p.result == Failed(FirstStat) ==>
        exists d :: Staged(s.dir, artifacts, p.held, d) && LeftBehind(d, p.state.dir))
    decreases |artifacts|
  {
    hide LeftBehind, Staged, Stage, FirstOpening;
    NothingStaged(s.dir, artifacts);
    if artifacts != [] {
      QuietStage(w, s, artifacts[0], TRIES);
      var first := Stage(w, s, artifacts[0], TRIES);
      if first.result == Published {
        assert first.state.dir.Keys == s.dir.Keys + {first.held.name};
        QuietStageAll(w, first.state, artifacts[1..]);
        var rest := StageAll(w, first.state, artifacts[1..]);
        if rest.result == Failed(FirstStat) {
          var d :| Staged(first.state.dir, artifacts[1..], rest.held, d) && LeftBehind(d, rest.state.dir);
          StagedBefore(s.dir, artifacts, first.held, rest.held, d);
        } else {
          StagedBefore(s.dir, artifacts, first.held, rest.held, rest.state.dir);
        }
      }
    }
  }

  lemma {:induction false} QuietTargets(w: World, s: State, artifacts: seq<Artifact>)
    requires Quiet(w)
    ensures var r := TargetsAreFree(w, s, artifacts);
      && r.1.dir == s.dir && r.0 in {Published, Refused, Failed(Check)}
      && (r.0 == Published <==> TargetsAreClear(w, s.dir.Keys, artifacts, s.clock))
      && (r.0 == Published ==> r.1.clock == s.clock + |artifacts|)
    decreases |artifacts|
  {
    if artifacts != [] {
      var next := Await(w, s);
      QuietTargets(w, next, artifacts[1..]);
      ClearTail(w, s.dir.Keys, artifacts, s.clock);
    }
  }

  lemma {:induction false} ClearTail(w: World, names: set<string>, artifacts: seq<Artifact>, clock: nat)
    requires artifacts != []
    ensures TargetsAreClear(w, names, artifacts, clock)
      <==> TargetIsClear(w, names, artifacts[0], clock) && TargetsAreClear(w, names, artifacts[1..], clock + 1)
  {
    hide TargetIsClear;
    if TargetsAreClear(w, names, artifacts, clock) {
      assert TargetIsClear(w, names, artifacts[0], clock + 0);
      forall i | 0 <= i < |artifacts[1..]| ensures TargetIsClear(w, names, artifacts[1..][i], clock + 1 + i) {
        assert TargetIsClear(w, names, artifacts[i + 1], clock + (i + 1));
      }
    } else {
      var i :| 0 <= i < |artifacts| && !TargetIsClear(w, names, artifacts[i], clock + i);
      if i > 0 { assert !TargetIsClear(w, names, artifacts[1..][i - 1], clock + 1 + (i - 1)); }
    }
  }

  ghost predicate StagesIn(artifacts: seq<Artifact>, stages: seq<Held>, d: Dir)
    requires |stages| == |artifacts|
  {
    forall i :: 0 <= i < |stages| ==>
      stages[i].name in d && d[stages[i].name] == File(stages[i].inode, true, artifacts[i].bytes)
  }

  lemma {:induction false} QuietLinks(w: World, s: State, artifacts: seq<Artifact>, stages: seq<Held>)
    requires Quiet(w) && |stages| == |artifacts| && StagesIn(artifacts, stages, s.dir)
    ensures var p := LinkAll(w, s, artifacts, stages);
      && p.result in {Published, Refused, Failed(Link), Failed(Check)}
      && (forall i :: 0 <= i < |p.held| ==> p.held[i] == Held(artifacts[i].name, stages[i].inode))
      && Staged(s.dir, artifacts, p.held, p.state.dir)
    decreases |artifacts|
  {
    hide Staged;
    NothingStaged(s.dir, artifacts);
    if artifacts != [] {
      var linked := LinkTo(w, s, stages[0].name, artifacts[0].name);
      if linked.0 == Published {
        var target := Held(artifacts[0].name, stages[0].inode);
        assert linked.1.dir == s.dir[target.name := File(target.inode, true, artifacts[0].bytes)];
        var confirmed := Confirm(w, linked.1, target);
        if confirmed.0 {
          assert StagesIn(artifacts[1..], stages[1..], confirmed.1.dir);
          QuietLinks(w, confirmed.1, artifacts[1..], stages[1..]);
          StagedBefore(s.dir, artifacts, target, LinkAll(w, confirmed.1, artifacts[1..], stages[1..]).held,
            LinkAll(w, confirmed.1, artifacts[1..], stages[1..]).state.dir);
        } else {
          NothingStaged(linked.1.dir, artifacts[1..]);
          StagedBefore(s.dir, artifacts, target, [], linked.1.dir);
          assert [target] + [] == [target];
        }
      }
    }
  }

  lemma {:induction false} TargetsAreNamed(artifacts: seq<Artifact>, published: seq<Held>)
    requires |artifacts| == |published| && forall i :: 0 <= i < |published| ==> published[i].name == artifacts[i].name
    ensures Names(published) == set a | a in artifacts :: a.name
  {
    forall a | a in artifacts ensures a.name in Names(published) {
      var i :| 0 <= i < |artifacts| && artifacts[i] == a;
      assert published[i] in published;
    }
    forall h | h in published ensures h.name in (set a | a in artifacts :: a.name) {
      var i :| 0 <= i < |published| && published[i] == h;
      assert artifacts[i] in artifacts;
    }
  }

  lemma {:induction false} TargetsAreThere(staged: Dir, artifacts: seq<Artifact>, published: seq<Held>, d: Dir)
    requires |artifacts| == |published| && forall i :: 0 <= i < |published| ==> published[i].name == artifacts[i].name
    requires Staged(staged, artifacts, published, d)
    ensures forall a :: a in artifacts ==>
      a.name !in staged && a.name in d && d[a.name].ours && d[a.name].bytes == a.bytes
  {
    forall a | a in artifacts
      ensures a.name !in staged && a.name in d && d[a.name].ours && d[a.name].bytes == a.bytes
    {
      var i :| 0 <= i < |artifacts| && artifacts[i] == a;
      assert published[i].name !in staged;
    }
  }

  // Taking the stages away after the links leaves the targets.
  lemma {:induction false} TargetsStay(base: Dir, artifacts: seq<Artifact>, stages: seq<Held>, staged: Dir,
        published: seq<Held>, d: Dir)
    requires |stages| == |artifacts| == |published|
    requires Staged(base, artifacts, stages, staged) && Staged(staged, artifacts, published, d)
    requires forall i :: 0 <= i < |published| ==> published[i].name == artifacts[i].name
    ensures Holds(stages, d) && AllPublished(base, artifacts, d - Names(stages))
  {
    hide Names, Holds;
    TakenAway(base, artifacts, stages, staged);
    TargetsAreThere(staged, artifacts, published, d);
    TargetsAreNamed(artifacts, published);
    StillThere(base, artifacts, stages, staged, published, d);
    Remaining(base, d, Names(stages), Names(published));
  }

  lemma {:induction false} Remaining(base: Dir, d: Dir, stages: set<string>, targets: set<string>)
    requires d.Keys == base.Keys + stages + targets && stages !! base.Keys && targets !! base.Keys + stages
    ensures (d - stages).Keys == base.Keys + targets
    ensures forall n :: n in base || n in targets ==> (d - stages)[n] == d[n]
  {
  }

  lemma {:induction false} StillThere(base: Dir, artifacts: seq<Artifact>, stages: seq<Held>, staged: Dir,
        published: seq<Held>, d: Dir)
    requires |stages| <= |artifacts| && |published| <= |artifacts|
    requires Staged(base, artifacts, stages, staged) && Staged(staged, artifacts, published, d)
    ensures Names(stages) !! base.Keys && Names(stages) <= staged.Keys && staged.Keys == base.Keys + Names(stages)
    ensures forall n :: n in base ==> d[n] == base[n]
    ensures Holds(stages, staged) ==> Holds(stages, d)
    ensures Names(published) !! staged.Keys
  {
    forall n | n in Names(stages) ensures n !in base {
      var h :| h in stages && h.name == n;
      var i :| 0 <= i < |stages| && stages[i] == h;
    }
    forall n | n in Names(published) ensures n !in staged {
      var h :| h in published && h.name == n;
      var i :| 0 <= i < |published| && published[i] == h;
    }
    forall h | h in stages ensures h.name in staged { assert h.name in Names(stages); }
  }

  lemma {:induction false} StagedAreIn(base: Dir, artifacts: seq<Artifact>, stages: seq<Held>, d: Dir)
    requires |stages| == |artifacts| && Staged(base, artifacts, stages, d)
    ensures StagesIn(artifacts, stages, d)
  {
  }

  lemma {:induction false} QuietFinish(w: World, s: State, artifacts: seq<Artifact>, stages: seq<Held>, base: Dir)
    requires Quiet(w) && UnlinksSucceed(w) && |stages| == |artifacts| && Staged(base, artifacts, stages, s.dir)
    ensures var r := Finish(w, s, artifacts, stages);
      && r.0 in {Published, Refused, Failed(Link), Failed(Check)}
      && if r.0 == Published then AllPublished(base, artifacts, r.1.dir) else r.1.dir == base
  {
    hide Staged, AllPublished, Holds, Names, UnlinkAll, LinkAll, Reversed;
    StagedAreIn(base, artifacts, stages, s.dir);
    QuietLinks(w, s, artifacts, stages);
    var linked := LinkAll(w, s, artifacts, stages);
    if linked.result == Published {
      TargetsStay(base, artifacts, stages, s.dir, linked.held, linked.state.dir);
      QuietUnlinks(w, linked.state, stages);
    } else {
      TakenAway(s.dir, artifacts, linked.held, linked.state.dir);
      ReversedHolds(linked.held, linked.state.dir);
      QuietUnlinks(w, linked.state, Reversed(linked.held));
      TakenAway(base, artifacts, stages, s.dir);
      QuietUnlinks(w, UnlinkAll(w, linked.state, Reversed(linked.held)), stages);
    }
  }

  lemma {:induction false} LeakStays(base: Dir, artifacts: seq<Artifact>, stages: seq<Held>, after: Dir)
    requires |stages| <= |artifacts|
    requires exists d :: Staged(base, artifacts, stages, d) && LeftBehind(d, after)
    ensures Holds(stages, after) && LeftBehind(base, after - Names(stages)) && after - Names(stages) != base
  {
    var d :| Staged(base, artifacts, stages, d) && LeftBehind(d, after);
    var n, inode :| n !in d && after == d[n := File(inode, true, [])];
    TakenAway(base, artifacts, stages, d);
    assert n !in Names(stages);
    assert after - Names(stages) == base[n := File(inode, true, [])];
    assert n in after - Names(stages);
  }

  // Success adds exactly the targets; a failure restores the directory exactly when no first look that the staging
  // reaches fails, and otherwise leaves that one stage behind.
  lemma {:induction false} AllOrNothing(w: World, s: State, artifacts: seq<Artifact>)
    requires Quiet(w) && UnlinksSucceed(w)
    ensures var r := Publish(w, s, artifacts);
      && (r.0 == Published ==> AllPublished(s.dir, artifacts, r.1.dir))
      && (r.0 != Published ==> (r.1.dir == s.dir <==> !Leaks(w, s.dir.Keys, artifacts, s.clock)))
      && (Leaks(w, s.dir.Keys, artifacts, s.clock) ==> r.0 == Failed(FirstStat) && LeftBehind(s.dir, r.1.dir))
  {
    hide Staged, AllPublished, LeftBehind, Holds, Names, Finish, StageAll, TargetsAreFree, UnlinkAll, LookFails,
      TargetsAreClear;
    QuietTargets(w, s, artifacts);
    var free := TargetsAreFree(w, s, artifacts);
    if free.0 == Published {
      QuietStageAll(w, free.1, artifacts);
      var staged := StageAll(w, free.1, artifacts);
      if staged.result == Published {
        QuietFinish(w, staged.state, artifacts, staged.held, s.dir);
      } else if staged.result == Failed(FirstStat) {
        LeakStays(s.dir, artifacts, staged.held, staged.state.dir);
        QuietUnlinks(w, staged.state, staged.held);
      } else {
        TakenAway(s.dir, artifacts, staged.held, staged.state.dir);
        QuietUnlinks(w, staged.state, staged.held);
      }
    }
  }

  // While first looks succeed, every failure restores the directory.
  lemma {:induction false} FailureRestores(w: World, s: State, artifacts: seq<Artifact>)
    requires Quiet(w) && UnlinksSucceed(w) && forall k :: !w.fails(k, FirstStat)
    ensures var r := Publish(w, s, artifacts);
      if r.0 == Published then AllPublished(s.dir, artifacts, r.1.dir) else r.1.dir == s.dir
  {
    hide AllPublished, LeftBehind, Publish, LookFails;
    AllOrNothing(w, s, artifacts);
    if Leaks(w, s.dir.Keys, artifacts, s.clock) {
      SomeLookFails(w, s.dir.Keys, artifacts, s.clock + |artifacts|);
    }
  }

  // Nothing goes wrong but the first look.
  function Unlooked(token: string): World {
    World((_, d, _) => d, (_, c) => c == FirstStat, _ => token, k => k, _ => [])
  }

  // Publishing one artifact whose two names are free, when only first looks fail, leaves an empty stage.
  lemma {:induction false} UnguardedLookLeaks(d: Dir, a: Artifact, token: string)
    requires a.name !in d && StageName(Unlooked(token), a, 1) !in d
    ensures var r := Publish(Unlooked(token), Begin(d), [a]);
      r.0 == Failed(FirstStat) && LeftBehind(d, r.1.dir) && r.1.dir != d
  {
    var w := Unlooked(token);
    assert FirstOpening(w, d.Keys, a, 1, TRIES) == Some((StageName(w, a, 1), 1));
    assert LookFails(w, d.Keys, [a], 1);
    assert TargetsAreClear(w, d.Keys, [a], 0);
    AllOrNothing(w, Begin(d), [a]);
  }

  // Whatever else the world does, the run ends with a failed first look only after a call at which one failed.
  lemma {:induction false} LookIsBlamed(w: World, s: State, artifacts: seq<Artifact>)
    ensures var r := Publish(w, s, artifacts);
      r.0 == Failed(FirstStat) ==> exists k :: s.clock <= k < r.1.clock && w.fails(k, FirstStat)
  {
    hide Stage, LinkAll;
    TargetsTakeTime(w, s, artifacts);
    var free := TargetsAreFree(w, s, artifacts);
    if free.0 == Published {
      StagesBlame(w, free.1, artifacts);
      var staged := StageAll(w, free.1, artifacts);
      UnlinksTakeTime(w, staged.state, staged.held);
      if staged.result == Published {
        LinksDoNotLook(w, staged.state, artifacts, staged.held);
      } else if staged.result == Failed(FirstStat) {
        assert w.fails(staged.state.clock - 1, FirstStat);
      }
    }
  }

  lemma {:induction false} StageBlames(w: World, s: State, a: Artifact, tries: nat)
    ensures var r := Stage(w, s, a, tries);
      && s.clock <= r.state.clock
      && (r.result == Failed(FirstStat) ==> s.clock < r.state.clock && w.fails(r.state.clock - 1, FirstStat))
    decreases tries
  {
    if tries > 0 {
      var opening := OpenStage(w, s, StageName(w, a, s.clock));
      if opening.0.Taken? { StageBlames(w, opening.1, a, tries - 1); }
    }
  }

  lemma {:induction false} StagesBlame(w: World, s: State, artifacts: seq<Artifact>)
    ensures var p := StageAll(w, s, artifacts);
      && s.clock <= p.state.clock
      && (p.result == Failed(FirstStat) ==> s.clock < p.state.clock && w.fails(p.state.clock - 1, FirstStat))
    decreases |artifacts|
  {
    hide Stage;
    if artifacts != [] {
      StageBlames(w, s, artifacts[0], TRIES);
      StagesBlame(w, Stage(w, s, artifacts[0], TRIES).state, artifacts[1..]);
    }
  }

  lemma {:induction false} LinksDoNotLook(w: World, s: State, artifacts: seq<Artifact>, stages: seq<Held>)
    requires |stages| == |artifacts|
    ensures LinkAll(w, s, artifacts, stages).result in {Published, Refused, Failed(Link), Failed(Check)}
    decreases |artifacts|
  {
    if artifacts != [] {
      var linked := LinkTo(w, s, stages[0].name, artifacts[0].name);
      LinksDoNotLook(w, Await(w, linked.1), artifacts[1..], stages[1..]);
    }
  }

  lemma {:induction false} TargetsTakeTime(w: World, s: State, artifacts: seq<Artifact>)
    ensures var r := TargetsAreFree(w, s, artifacts);
      s.clock <= r.1.clock && r.0 in {Published, Refused, Failed(Check)}
    decreases |artifacts|
  {
    if artifacts != [] { TargetsTakeTime(w, Await(w, s), artifacts[1..]); }
  }

  lemma {:induction false} UnlinksTakeTime(w: World, s: State, held: seq<Held>)
    ensures s.clock <= UnlinkAll(w, s, held).clock
    decreases |held|
  {
    if held != [] { UnlinksTakeTime(w, UnlinkOwned(w, s, held[0]), held[1..]); }
  }
}
