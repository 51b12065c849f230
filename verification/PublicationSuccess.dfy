/**
 When publishing succeeds: in a directory nobody else touches the outcome is decided by the names in use, the random
 tokens and the failing calls the run reaches.
 */
module PublicationSuccess {
  import opened Wrappers
  import opened Bytes
  import opened PublicationRun
  import opened PublicationExact

  // The names in use and the next call after staging every artifact, when every opening, first look and copy works.
  function AllStaged(w: World, names: set<string>, artifacts: seq<Artifact>, clock: nat): Option<(set<string>, nat)>
    decreases |artifacts|
  {
    if artifacts == [] then Some((names, clock))
    else
      var opening := FirstOpening(w, names, artifacts[0], clock, TRIES);
      if opening.None? then None
      else
        var (name, at) := opening.value;
        if w.fails(at + 1, FirstStat) || w.fails(at + 2, Copy) then None
        else AllStaged(w, names + {name}, artifacts[1..], at + 3)
  }

  // Every target is still free when its turn comes, its link works, and so does the look at it.
  predicate AllLinked(w: World, names: set<string>, artifacts: seq<Artifact>, clock: nat)
    decreases |artifacts|
  {
    artifacts == [] ||
      (artifacts[0].name !in names && !w.fails(clock, Link) && !w.fails(clock + 1, Check)
      && AllLinked(w, names + {artifacts[0].name}, artifacts[1..], clock + 2))
  }

  // No call that the run reaches stands in the way.
  predicate GoesThrough(w: World, names: set<string>, artifacts: seq<Artifact>, clock: nat) {
    && TargetsAreClear(w, names, artifacts, clock)
    && var staged := AllStaged(w, names, artifacts, clock + |artifacts|);
      staged.Some? && AllLinked(w, staged.value.0, artifacts, staged.value.1)
  }

  // The call at which the first free name is opened, no opening up to it failing.
  predicate OpensAt(w: World, names: set<string>, a: Artifact, clock: nat, at: nat) {
    && clock <= at && StageName(w, a, at) !in names
    && (forall k :: clock <= k < at ==> StageName(w, a, k) in names)
    && (forall k :: clock <= k <= at ==> !w.fails(k, Open))
  }

  // Staging tries a hundred names and opens the first free one, unless an opening up to it fails.
  lemma {:induction false} OpensWithinAHundred(w: World, names: set<string>, a: Artifact, clock: nat)
    ensures var o := FirstOpening(w, names, a, clock, TRIES);
      && (o.Some? <==> exists at: nat :: at < clock + 100 && OpensAt(w, names, a, clock, at))
      && (o.Some? ==> o.value.0 == StageName(w, a, o.value.1) && OpensAt(w, names, a, clock, o.value.1))
  {
    OpensWithin(w, names, a, clock, TRIES);
  }

  lemma {:induction false} OpensWithin(w: World, names: set<string>, a: Artifact, clock: nat, tries: nat)
    ensures var o := FirstOpening(w, names, a, clock, tries);
      && (o.Some? <==> exists at: nat :: at < clock + tries && OpensAt(w, names, a, clock, at))
      && (o.Some? ==> o.value.0 == StageName(w, a, o.value.1) && o.value.1 < clock + tries)
      && (o.Some? ==> OpensAt(w, names, a, clock, o.value.1))
    decreases tries
  {
    hide StageName;
    if tries > 0 && !w.fails(clock, Open) {
      if StageName(w, a, clock) in names {
        OpensWithin(w, names, a, clock + 1, tries - 1);
        var rest := FirstOpening(w, names, a, clock + 1, tries - 1);
        if rest.Some? { assert OpensAt(w, names, a, clock, rest.value.1); }
        if at: nat :| at < clock + tries && OpensAt(w, names, a, clock, at) {
          assert OpensAt(w, names, a, clock + 1, at);
        }
      } else {
        assert OpensAt(w, names, a, clock, clock);
      }
    }
  }

  lemma {:induction false} StageGoes(w: World, s: State, a: Artifact, tries: nat)
    requires Quiet(w)
    ensures var r, o := Stage(w, s, a, tries), FirstOpening(w, s.dir.Keys, a, s.clock, tries);
      && (r.result == Published <==>
        o.Some? && !w.fails(o.value.1 + 1, FirstStat) && !w.fails(o.value.1 + 2, Copy))
      && (r.result == Published ==>
        && o.value.0 == r.held.name && r.held.name !in s.dir && r.state.clock == o.value.1 + 3
        && r.state.dir == s.dir[r.held.name := File(r.held.inode, true, a.bytes)])
    decreases tries
  {
    if tries > 0 && !w.fails(s.clock, Open) {
      var name := StageName(w, a, s.clock);
      var opening := OpenStage(w, s, name);
      if name in s.dir {
        StageGoes(w, opening.1, a, tries - 1);
      } else {
        NewFile(s.dir, name, opening.0.inode);
        assert opening.1.dir == s.dir[name := File(opening.0.inode, true, [])];
      }
    }
  }

  lemma {:induction false} StagesGo(w: World, s: State, artifacts: seq<Artifact>)
    requires Quiet(w)
    ensures var p, o := StageAll(w, s, artifacts), AllStaged(w, s.dir.Keys, artifacts, s.clock);
      && (p.result == Published <==> o.Some?)
      && (p.result == Published ==>
        p.state.dir.Keys == o.value.0 && p.state.clock == o.value.1 && Staged(s.dir, artifacts, p.held, p.state.dir))
    decreases |artifacts|
  {
    hide Staged, Stage, FirstOpening;
    NothingStaged(s.dir, artifacts);
    if artifacts != [] {
      StageGoes(w, s, artifacts[0], TRIES);
      var first := Stage(w, s, artifacts[0], TRIES);
      if first.result == Published {
        assert first.state.dir.Keys == s.dir.Keys + {first.held.name};
        StagesGo(w, first.state, artifacts[1..]);
        var rest := StageAll(w, first.state, artifacts[1..]);
        if rest.result == Published { StagedBefore(s.dir, artifacts, first.held, rest.held, rest.state.dir); }
      }
    }
  }

  lemma {:induction false} LinksGo(w: World, s: State, artifacts: seq<Artifact>, stages: seq<Held>)
    requires Quiet(w) && |stages| == |artifacts| && StagesIn(artifacts, stages, s.dir)
    ensures LinkAll(w, s, artifacts, stages).result == Published <==> AllLinked(w, s.dir.Keys, artifacts, s.clock)
    decreases |artifacts|
  {
    if artifacts != [] {
      var linked := LinkTo(w, s, stages[0].name, artifacts[0].name);
      if linked.0 == Published {
        assert linked.1.dir.Keys == s.dir.Keys + {artifacts[0].name};
        LinksGo(w, Await(w, linked.1), artifacts[1..], stages[1..]);
      }
    }
  }

  // In a quiet directory the artifacts are published exactly when no call reached stands in the way.
  lemma {:induction false} PublishedExactly(w: World, s: State, artifacts: seq<Artifact>)
    requires Quiet(w)
    ensures Publish(w, s, artifacts).0 == Published <==> GoesThrough(w, s.dir.Keys, artifacts, s.clock)
  {
    hide Staged, AllStaged, AllLinked, TargetsAreClear, TargetsAreFree, StageAll, LinkAll, UnlinkAll;
    QuietTargets(w, s, artifacts);
    var free := TargetsAreFree(w, s, artifacts);
    if free.0 == Published {
      StagesGo(w, free.1, artifacts);
      var staged := StageAll(w, free.1, artifacts);
      if staged.result == Published {
        StagedAreIn(s.dir, artifacts, staged.held, staged.state.dir);
        LinksGo(w, staged.state, artifacts, staged.held);
      }
    }
  }

  // ---- A healthy world ----

  ghost predicate NothingFails(w: World) { forall k, c :: !w.fails(k, c) }

  // The targets are different and free, and so are the stage names, which are no targets.
  ghost predicate NamesAreFree(w: World, names: set<string>, artifacts: seq<Artifact>) {
    && (forall i :: 0 <= i < |artifacts| ==> artifacts[i].name !in names)
    && (forall i, j :: 0 <= i < j < |artifacts| ==> artifacts[i].name != artifacts[j].name)
    && (forall i, k :: 0 <= i < |artifacts| ==> StageName(w, artifacts[i], k) !in names)
    && (forall i, j, k :: 0 <= i < |artifacts| && 0 <= j < |artifacts| ==>
      StageName(w, artifacts[i], k) != artifacts[j].name)
    && (forall i, j, k, l :: 0 <= i < j < |artifacts| ==>
      StageName(w, artifacts[i], k) != StageName(w, artifacts[j], l))
  }

  lemma {:induction false} HealthyStages(w: World, names: set<string>, artifacts: seq<Artifact>, clock: nat)
    requires NothingFails(w)
    requires forall i, k :: 0 <= i < |artifacts| ==> StageName(w, artifacts[i], k) !in names
    requires forall i, j, k, l :: 0 <= i < j < |artifacts| ==>
      StageName(w, artifacts[i], k) != StageName(w, artifacts[j], l)
    ensures var o := AllStaged(w, names, artifacts, clock);
      o.Some? && forall n :: n in o.value.0 && n !in names ==>
        exists i, k :: 0 <= i < |artifacts| && StageName(w, artifacts[i], k) == n
    decreases |artifacts|
  {
    hide StageName;
    if artifacts != [] {
      var name := StageName(w, artifacts[0], clock);
      assert FirstOpening(w, names, artifacts[0], clock, TRIES) == Some((name, clock));
      forall i, k | 0 <= i < |artifacts[1..]| ensures StageName(w, artifacts[1..][i], k) !in names + {name} {
        assert artifacts[1..][i] == artifacts[i + 1];
      }
      forall i, j, k, l | 0 <= i < j < |artifacts[1..]|
        ensures StageName(w, artifacts[1..][i], k) != StageName(w, artifacts[1..][j], l)
      {
        assert artifacts[1..][i] == artifacts[i + 1] && artifacts[1..][j] == artifacts[j + 1];
      }
      HealthyStages(w, names + {name}, artifacts[1..], clock + 3);
      var o := AllStaged(w, names, artifacts, clock);
      forall n | n in o.value.0 && n !in names
        ensures exists i, k :: 0 <= i < |artifacts| && StageName(w, artifacts[i], k) == n
      {
        if n != name {
          var i, k :| 0 <= i < |artifacts[1..]| && StageName(w, artifacts[1..][i], k) == n;
          assert artifacts[1..][i] == artifacts[i + 1];
        }
      }
    }
  }

  lemma {:induction false} HealthyLinks(w: World, names: set<string>, artifacts: seq<Artifact>, clock: nat)
    requires NothingFails(w) && forall i :: 0 <= i < |artifacts| ==> artifacts[i].name !in names
    requires forall i, j :: 0 <= i < j < |artifacts| ==> artifacts[i].name != artifacts[j].name
    ensures AllLinked(w, names, artifacts, clock)
    decreases |artifacts|
  {
    if artifacts != [] {
      forall i | 0 <= i < |artifacts[1..]| ensures artifacts[1..][i].name !in names + {artifacts[0].name} {
        assert artifacts[1..][i] == artifacts[i + 1];
      }
      HealthyLinks(w, names + {artifacts[0].name}, artifacts[1..], clock + 2);
    }
  }

  // When nothing fails and the names are free, everything is published.
  lemma {:induction false} HealthyPublishes(w: World, s: State, artifacts: seq<Artifact>)
    requires Quiet(w) && NothingFails(w) && NamesAreFree(w, s.dir.Keys, artifacts)
    ensures var r := Publish(w, s, artifacts); r.0 == Published && AllPublished(s.dir, artifacts, r.1.dir)
  {
    hide Publish, AllPublished, AllStaged, AllLinked, StageName;
    var names, clock := s.dir.Keys, s.clock + |artifacts|;
    HealthyStages(w, names, artifacts, clock);
    var staged := AllStaged(w, names, artifacts, clock).value;
    forall i | 0 <= i < |artifacts| ensures artifacts[i].name !in staged.0 {}
    HealthyLinks(w, staged.0, artifacts, staged.1);
    PublishedExactly(w, s, artifacts);
    AllOrNothing(w, s, artifacts);
  }
}
