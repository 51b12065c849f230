/**
 Publishing verified artifacts into a directory that other processes share: stage each under a private name, link
 all of them to their targets, and take everything back on any failure.
 */
module Publication {
  import opened PublicationRun
  import opened PublicationExact
  import opened PublicationSafety
  import opened PublicationSuccess
  import opened Bytes
  import Run = PublicationRun

  class Publisher {
    const world: World
    var dir: Dir
    var clock: nat
    var created: set<nat>
    ghost var steps: seq<Step>
    ghost var unlinks: seq<Unlinking>

    constructor (world: World, dir: Dir)
      ensures this.world == world && Now() == Begin(dir)
    {
      this.world, this.dir, clock, created, steps, unlinks := world, dir, 0, {}, [], [];
    }

    // The run so far.
    ghost function Now(): State
      reads this
    {
      State(dir, clock, created, steps, unlinks)
    }

    // Time passes: the other processes run.
    method Wait(call: Call) returns (failed: bool)
      modifies this
      ensures Now() == Await(world, old(Now())) && failed == world.fails(old(clock), call)
    {
      dir := world.others(clock, dir, created);
      failed := world.fails(clock, call);
      clock := clock + 1;
    }

    // One change of the publisher's own.
    method Change(after: Dir)
      modifies this
      ensures Now() == Changed(old(Now()), after)
    {
      steps := steps + [Step(dir, after)];
      dir := after;
    }

    // Exclusive creation: never an existing name.
    method OpenStage(name: string) returns (opening: Opening)
      modifies this
      ensures (opening, Now()) == Run.OpenStage(world, old(Now()), name)
    {
      var failed := Wait(Open);
      if failed { return OpenFailed; }
      if name in dir { return Taken; }
      var inode := FreeInode(dir, world.inode(clock - 1));
      created := created + {inode};
      Change(dir[name := File(inode, true, [])]);
      return Opened(inode);
    }

    // Copies the artifact into the open stage; a failure may leave anything there.
    method CopyInto(inode: nat, bytes: Bytes) returns (failed: bool)
      modifies this
      ensures (failed, Now()) == Run.CopyInto(world, old(Now()), inode, bytes)
    {
      failed := Wait(Copy);
      Change(Rewritten(dir, inode, if failed then world.partial(clock - 1) else bytes));
    }

    // The owned-file check and its unlink, taken as one step: of what is there when it looks, the name goes exactly
    // when it carries the recorded number and the unlink does not fail.
    method UnlinkOwned(held: Held)
      modifies this
      ensures Now() == Run.UnlinkOwned(world, old(Now()), held)
      ensures var seen := Seen(world, old(Now()));
        dir == if !world.fails(old(clock), Unlink) && Carries(seen, held) then seen - {held.name} else seen
      ensures SafeSteps(steps) <==>
        (old(SafeSteps(steps)) && !Robs(Unlinking(Seen(world, old(Now())), held, world.fails(old(clock), Unlink))))
    {
      UnlinkAccounted(world, Now(), held);
      var failed := Wait(Unlink);
      unlinks := unlinks + [Unlinking(dir, held, failed)];
      if !failed && held.name in dir && dir[held.name].inode == held.inode { Change(dir - {held.name}); }
    }

    method UnlinkAll(held: seq<Held>)
      modifies this
      ensures Now() == Run.UnlinkAll(world, old(Now()), held)
    {
      assert held[0..] == held;
      for i := 0 to |held|
        invariant Run.UnlinkAll(world, Now(), held[i..]) == Run.UnlinkAll(world, old(Now()), held)
      {
        assert held[i..][0] == held[i] && held[i..][1..] == held[i + 1..];
        UnlinkOwned(held[i]);
      }
      assert held[|held|..] == [];
    }

    // Stages one artifact.  A failing first look at the new file leaves it behind.
    method Stage(artifact: Artifact) returns (r: Outcome, held: Held)
      modifies this
      ensures Staging(r, held, Now()) == Run.Stage(world, old(Now()), artifact, TRIES)
    {
      hide Run.OpenStage, Run.FillStage;
      var i := 0;
      while i < TRIES
        invariant i <= TRIES
        invariant Run.Stage(world, Now(), artifact, TRIES - i) == Run.Stage(world, old(Now()), artifact, TRIES)
      {
        var name := StageName(world, artifact, clock);
        var opening := OpenStage(name);
        match opening {
          case OpenFailed => return Failed(Open), NOTHING;
          case Taken => i := i + 1;
          case Opened(inode) =>
            held := Held(name, inode);
            r := FillStage(held, artifact.bytes);
            return;
        }
      }
      return NoStageName, NOTHING;
    }

    method FillStage(held: Held, bytes: Bytes) returns (r: Outcome)
      modifies this
      ensures Staging(r, held, Now()) == Run.FillStage(world, old(Now()), held, bytes)
    {
      hide Run.UnlinkOwned, Run.CopyInto;
      var failed := Wait(FirstStat);
      if failed { return Failed(FirstStat); }
      failed := CopyInto(held.inode, bytes);
      if failed {
        UnlinkOwned(held);
        return Failed(Copy);
      }
      return Published;
    }

    // A hard link, which fails on an existing name.
    method LinkTo(stage: string, target: string) returns (r: Outcome)
      modifies this
      ensures (r, Now()) == Run.LinkTo(world, old(Now()), stage, target)
    {
      var failed := Wait(Link);
      if target in dir { return Refused; }
      if failed || stage !in dir { return Failed(Link); }
      Change(dir[target := dir[stage]]);
      return Published;
    }

    // The look at a freshly linked target.
    method Confirm(target: Held) returns (ok: bool)
      modifies this
      ensures (ok, Now()) == Run.Confirm(world, old(Now()), target)
    {
      var failed := Wait(Check);
      ok := !failed && target.name in dir && dir[target.name].inode == target.inode;
    }

    // No target is there yet.
    method TargetsAreFree(artifacts: seq<Artifact>) returns (r: Outcome)
      modifies this
      ensures (r, Now()) == Run.TargetsAreFree(world, old(Now()), artifacts)
    {
      assert artifacts[0..] == artifacts;
      for i := 0 to |artifacts|
        invariant Run.TargetsAreFree(world, Now(), artifacts[i..])
          == Run.TargetsAreFree(world, old(Now()), artifacts)
      {
        assert artifacts[i..][0] == artifacts[i] && artifacts[i..][1..] == artifacts[i + 1..];
        var failed := Wait(Check);
        if failed { return Failed(Check); }
        if artifacts[i].name in dir { return Refused; }
      }
      assert artifacts[|artifacts|..] == [];
      return Published;
    }

    // Stages the artifacts in turn, up to the first failure.
    method StageAll(artifacts: seq<Artifact>) returns (r: Outcome, stages: seq<Held>)
      modifies this
      ensures Phase(r, stages, Now()) == Run.StageAll(world, old(Now()), artifacts)
    {
      hide Run.Stage;
      r, stages := Published, [];
      ghost var whole := Run.StageAll(world, Now(), artifacts);
      assert artifacts[0..] == artifacts;
      NothingWith(whole);
      for i := 0 to |artifacts|
        invariant r == Published && With(stages, Run.StageAll(world, Now(), artifacts[i..])) == whole
      {
        assert artifacts[i..][0] == artifacts[i] && artifacts[i..][1..] == artifacts[i + 1..];
        ghost var before := Now();
        var held: Held;
        r, held := Stage(artifacts[i]);
        if r != Published {
          EndsWith(stages, r, Now());
          return;
        }
        OneMoreWith(stages, held, Run.StageAll(world, Now(), artifacts[i + 1..]));
        stages := stages + [held];
      }
      assert artifacts[|artifacts|..] == [];
      EndsWith(stages, r, Now());
    }

    // Links the stages to their targets, up to the first failure.
    method LinkAll(artifacts: seq<Artifact>, stages: seq<Held>) returns (r: Outcome, published: seq<Held>)
      requires |stages| == |artifacts|
      modifies this
      ensures Phase(r, published, Now()) == Run.LinkAll(world, old(Now()), artifacts, stages)
    {
      hide Run.LinkTo, Run.Confirm;
      r, published := Published, [];
      ghost var whole := Run.LinkAll(world, Now(), artifacts, stages);
      assert artifacts[0..] == artifacts && stages[0..] == stages;
      NothingWith(whole);
      for i := 0 to |artifacts|
        invariant r == Published && With(published, Run.LinkAll(world, Now(), artifacts[i..], stages[i..])) == whole
      {
        assert artifacts[i..][0] == artifacts[i] && artifacts[i..][1..] == artifacts[i + 1..];
        assert stages[i..][0] == stages[i] && stages[i..][1..] == stages[i + 1..];
        r := LinkTo(stages[i].name, artifacts[i].name);
        if r != Published {
          EndsWith(published, r, Now());
          return;
        }
        var target := Held(artifacts[i].name, stages[i].inode);
        var ok := Confirm(target);
        if !ok { return Failed(Check), published + [target]; }
        OneMoreWith(published, target, Run.LinkAll(world, Now(), artifacts[i + 1..], stages[i + 1..]));
        published := published + [target];
      }
      assert artifacts[|artifacts|..] == [] && stages[|artifacts|..] == [];
      EndsWith(published, r, Now());
    }

    // All the artifacts are published, or none; and nobody else's entry is touched.
    method Publish(artifacts: seq<Artifact>) returns (r: Outcome)
      modifies this
      ensures (r, Now()) == Run.Publish(world, old(Now()), artifacts)
      ensures Quiet(world) ==> (r == Published <==> GoesThrough(world, old(dir).Keys, artifacts, old(clock)))
      ensures Quiet(world) && UnlinksSucceed(world) ==>
        if r == Published then AllPublished(old(dir), artifacts, dir)
        else (dir == old(dir) <==> !Leaks(world, old(dir).Keys, artifacts, old(clock)))
      ensures old(Accounted(Now())) ==> (SafeSteps(steps) <==> !Robbed(unlinks))
      ensures NeverReuses(world) && old(Safe(Now())) ==> Safe(Now())
    {
      hide Run.TargetsAreFree, Run.StageAll, Run.LinkAll, Run.UnlinkAll, AllPublished, Leaks, Accounted, SafeSteps,
        GoesThrough, Robbed, Safe, NeverReuses;
      if Quiet(world) { PublishedExactly(world, Now(), artifacts); }
      if Quiet(world) && UnlinksSucceed(world) { AllOrNothing(world, Now(), artifacts); }
      if Accounted(Now()) { UnsafeExactly(world, Now(), artifacts); }
      if NeverReuses(world) && Safe(Now()) { SafeWithoutReuse(world, Now(), artifacts); }
      r := TargetsAreFree(artifacts);
      if r != Published { return; }
      var stages: seq<Held>;
      r, stages := StageAll(artifacts);
      if r == Published {
        var published: seq<Held>;
        r, published := LinkAll(artifacts, stages);
        if r != Published { UnlinkAll(Reversed(published)); }
      }
      UnlinkAll(stages);
    }
  }

  lemma {:induction false} NothingWith(p: Phase)
    ensures With([], p) == p
  {
    assert [] + p.held == p.held;
  }

  lemma {:induction false} EndsWith(held: seq<Held>, r: Outcome, s: State)
    ensures With(held, Phase(r, [], s)) == Phase(r, held, s)
  {
    assert held + [] == held;
  }

  lemma {:induction false} OneMoreWith(held: seq<Held>, h: Held, p: Phase)
    ensures With(held, With([h], p)) == With(held + [h], p)
  {
    assert held + ([h] + p.held) == held + [h] + p.held;
  }
}
