/**
 Nobody else's entry touched: in a directory other processes share, a run of the publisher removes or alters an entry
 that is not its own exactly when an owned-file unlink meets an inode number that was given out again.
 */
module PublicationSafety {
  import opened Wrappers
  import opened Bytes
  import opened PublicationRun
  import opened PublicationExact

  // A change that removes or alters no entry but the publisher's own.
  ghost predicate SafeStep(s: Step) {
    forall n :: n in s.before && !s.before[n].ours ==> n in s.after && s.after[n] == s.before[n]
  }

  ghost predicate SafeSteps(steps: seq<Step>) { forall i :: 0 <= i < |steps| ==> SafeStep(steps[i]) }

  // The unlink finds the recorded number on a file somebody else made.
  predicate Robs(u: Unlinking) { !u.failed && Carries(u.seen, u.held) && !u.seen[u.held.name].ours }

  ghost predicate Robbed(us: seq<Unlinking>) { exists i :: 0 <= i < |us| && Robs(us[i]) }

  // The steps so far are safe exactly when no unlink so far met a reused number.
  ghost predicate Accounted(s: State) { SafeSteps(s.steps) <==> !Robbed(s.unlinks) }

  lemma {:induction false} StepsGrow(steps: seq<Step>, step: Step)
    ensures SafeSteps(steps + [step]) <==> SafeSteps(steps) && SafeStep(step)
  {
    if SafeSteps(steps + [step]) {
      assert (steps + [step])[|steps|] == step;
      forall i | 0 <= i < |steps| ensures SafeStep(steps[i]) { assert (steps + [step])[i] == steps[i]; }
    }
  }

  lemma {:induction false} UnlinksGrow(us: seq<Unlinking>, u: Unlinking)
    ensures Robbed(us + [u]) <==> Robbed(us) || Robs(u)
  {
    if Robs(u) { assert (us + [u])[|us|] == u; }
    if Robbed(us) {
      var i :| 0 <= i < |us| && Robs(us[i]);
      assert (us + [u])[i] == us[i];
    }
  }

  lemma {:induction false} SafeChange(s: State, after: Dir)
    requires Accounted(s) && SafeStep(Step(s.dir, after))
    ensures Accounted(Changed(s, after))
  {
    StepsGrow(s.steps, Step(s.dir, after));
  }

  // An unlink takes an unsafe step exactly when it robs.
  lemma {:induction false} UnlinkAccounted(w: World, s: State, h: Held)
    ensures var t := UnlinkOwned(w, s, h);
      && (SafeSteps(t.steps) <==> SafeSteps(s.steps) && !Robs(Unlinking(Seen(w, s), h, w.fails(s.clock, Unlink))))
      && (Accounted(s) ==> Accounted(t))
  {
    var seen := Seen(w, s);
    UnlinksGrow(s.unlinks, Unlinking(seen, h, w.fails(s.clock, Unlink)));
    StepsGrow(s.steps, Step(seen, seen - {h.name}));
    if Carries(seen, h) { assert h.name !in seen - {h.name}; }
  }

  lemma {:induction false} UnlinksAccounted(w: World, s: State, held: seq<Held>)
    requires Accounted(s)
    ensures Accounted(UnlinkAll(w, s, held))
    decreases |held|
  {
    hide Accounted, UnlinkOwned;
    if held != [] {
      UnlinkAccounted(w, s, held[0]);
      UnlinksAccounted(w, UnlinkOwned(w, s, held[0]), held[1..]);
    }
  }

  lemma {:induction false} StageAccounted(w: World, s: State, a: Artifact, tries: nat)
    requires Accounted(s)
    ensures Accounted(Stage(w, s, a, tries).state)
    decreases tries
  {
    if tries > 0 {
      var name := StageName(w, a, s.clock);
      var opening := OpenStage(w, s, name);
      if opening.0.Taken? {
        StageAccounted(w, opening.1, a, tries - 1);
      } else if opening.0.Opened? {
        var seen, inode := Seen(w, s), opening.0.inode;
        SafeChange(Await(w, s).(created := s.created + {inode}), seen[name := File(inode, true, [])]);
        FillAccounted(w, opening.1, Held(name, inode), a.bytes);
      }
    }
  }

  lemma {:induction false} FillAccounted(w: World, s: State, h: Held, bytes: Bytes)
    requires Accounted(s)
    ensures Accounted(FillStage(w, s, h, bytes).state)
  {
    hide SafeSteps, Robbed;
    var looked := Await(w, s);
    var copied := CopyInto(w, looked, h.inode, bytes);
    SafeChange(Await(w, looked), copied.1.dir);
    UnlinkAccounted(w, copied.1, h);
  }

  lemma {:induction false} StagesAccounted(w: World, s: State, artifacts: seq<Artifact>)
    requires Accounted(s)
    ensures Accounted(StageAll(w, s, artifacts).state)
    decreases |artifacts|
  {
    hide Accounted, Stage;
    if artifacts != [] {
      StageAccounted(w, s, artifacts[0], TRIES);
      StagesAccounted(w, Stage(w, s, artifacts[0], TRIES).state, artifacts[1..]);
    }
  }

  lemma {:induction false} LinksAccounted(w: World, s: State, artifacts: seq<Artifact>, stages: seq<Held>)
    requires Accounted(s) && |stages| == |artifacts|
    ensures Accounted(LinkAll(w, s, artifacts, stages).state)
    decreases |artifacts|
  {
    hide SafeSteps, Robbed;
    if artifacts != [] {
      var linked := LinkTo(w, s, stages[0].name, artifacts[0].name);
      if linked.0 == Published {
        SafeChange(Await(w, s), linked.1.dir);
        var confirmed := Confirm(w, linked.1, Held(artifacts[0].name, stages[0].inode));
        LinksAccounted(w, confirmed.1, artifacts[1..], stages[1..]);
      }
    }
  }

  lemma {:induction false} TargetsAccounted(w: World, s: State, artifacts: seq<Artifact>)
    requires Accounted(s)
    ensures Accounted(TargetsAreFree(w, s, artifacts).1)
    decreases |artifacts|
  {
    hide SafeSteps, Robbed;
    if artifacts != [] { TargetsAccounted(w, Await(w, s), artifacts[1..]); }
  }

  // Whatever the world does, the run takes an unsafe step exactly when one of its unlinks that does not fail finds
  // the recorded number on a file that is not the publisher's.
  lemma {:induction false} UnsafeExactly(w: World, s: State, artifacts: seq<Artifact>)
    requires Accounted(s)
    ensures var t := Publish(w, s, artifacts).1; SafeSteps(t.steps) <==> !Robbed(t.unlinks)
  {
    PublishAccounted(w, s, artifacts);
  }

  lemma {:induction false} PublishAccounted(w: World, s: State, artifacts: seq<Artifact>)
    requires Accounted(s)
    ensures Accounted(Publish(w, s, artifacts).1)
  {
    hide Accounted, TargetsAreFree, StageAll, LinkAll, UnlinkAll, Reversed;
    TargetsAccounted(w, s, artifacts);
    var free := TargetsAreFree(w, s, artifacts);
    if free.0 == Published {
      StagesAccounted(w, free.1, artifacts);
      var staged := StageAll(w, free.1, artifacts);
      if staged.result == Published {
        LinksAccounted(w, staged.state, artifacts, staged.held);
        var linked := LinkAll(w, staged.state, artifacts, staged.held);
        UnlinksAccounted(w, linked.state, Reversed(linked.held));
        UnlinksAccounted(w, linked.state, staged.held);
        UnlinksAccounted(w, UnlinkAll(w, linked.state, Reversed(linked.held)), staged.held);
      } else {
        UnlinksAccounted(w, staged.state, staged.held);
      }
    }
  }

  // ---- A number given out again ----

  // A number the publisher created never names somebody else's file.
  ghost predicate OursAlone(d: Dir, ids: set<nat>) { forall n :: n in d && d[n].inode in ids ==> d[n].ours }

  ghost predicate NeverReuses(w: World) {
    forall k, d, ids :: OursAlone(d, ids) ==> OursAlone(w.others(k, d, ids), ids)
  }

  // Nothing unsafe was done, and nothing unsafe is about to be.
  ghost predicate Safe(s: State) { SafeSteps(s.steps) && OursAlone(s.dir, s.created) }

  ghost predicate Created(held: seq<Held>, s: State) { forall h :: h in held ==> h.inode in s.created }

  lemma {:induction false} SafeOpening(w: World, s: State, name: string)
    requires NeverReuses(w) && Safe(s)
    ensures var r := OpenStage(w, s, name);
      Safe(r.1) && s.created <= r.1.created && (r.0.Opened? ==> r.0.inode in r.1.created)
  {
    var seen := Seen(w, s);
    assert OursAlone(seen, s.created);
    if !w.fails(s.clock, Open) && name !in seen {
      var inode := FreeInode(seen, w.inode(s.clock));
      StepsGrow(s.steps, Step(seen, seen[name := File(inode, true, [])]));
    }
  }

  lemma {:induction false} SafeCopy(w: World, s: State, inode: nat, bytes: Bytes)
    requires NeverReuses(w) && Safe(s)
    ensures var r := CopyInto(w, s, inode, bytes); Safe(r.1) && r.1.created == s.created
  {
    assert OursAlone(Seen(w, s), s.created);
    StepsGrow(s.steps, Step(Seen(w, s), CopyInto(w, s, inode, bytes).1.dir));
  }

  lemma {:induction false} SafeUnlink(w: World, s: State, h: Held)
    requires NeverReuses(w) && Safe(s) && h.inode in s.created
    ensures var t := UnlinkOwned(w, s, h); Safe(t) && t.created == s.created
  {
    assert OursAlone(Seen(w, s), s.created);
    StepsGrow(s.steps, Step(Seen(w, s), Seen(w, s) - {h.name}));
  }

  lemma {:induction false} SafeUnlinks(w: World, s: State, held: seq<Held>)
    requires NeverReuses(w) && Safe(s) && Created(held, s)
    ensures var t := UnlinkAll(w, s, held); Safe(t) && t.created == s.created
    decreases |held|
  {
    hide Safe, NeverReuses, UnlinkOwned;
    if held != [] {
      SafeUnlink(w, s, held[0]);
      SafeUnlinks(w, UnlinkOwned(w, s, held[0]), held[1..]);
    }
  }

  lemma {:induction false} SafeFill(w: World, s: State, h: Held, bytes: Bytes)
    requires NeverReuses(w) && Safe(s) && h.inode in s.created
    ensures var r := FillStage(w, s, h, bytes);
      Safe(r.state) && s.created <= r.state.created && (r.result == Published ==> r.held.inode in r.state.created)
  {
    hide UnlinkOwned, CopyInto, SafeSteps;
    var looked := Await(w, s);
    assert OursAlone(looked.dir, looked.created);
    SafeCopy(w, looked, h.inode, bytes);
    SafeUnlink(w, CopyInto(w, looked, h.inode, bytes).1, h);
  }

  lemma {:induction false} SafeStage(w: World, s: State, a: Artifact, tries: nat)
    requires NeverReuses(w) && Safe(s)
    ensures var r := Stage(w, s, a, tries);
      Safe(r.state) && s.created <= r.state.created && (r.result == Published ==> r.held.inode in r.state.created)
    decreases tries
  {
    hide Safe, NeverReuses, OpenStage, FillStage;
    if tries > 0 {
      var name := StageName(w, a, s.clock);
      SafeOpening(w, s, name);
      var opening := OpenStage(w, s, name);
      match opening.0 {
        case OpenFailed =>
        case Taken => SafeStage(w, opening.1, a, tries - 1);
        case Opened(inode) => SafeFill(w, opening.1, Held(name, inode), a.bytes);
      }
    }
  }

  lemma {:induction false} SafeStages(w: World, s: State, artifacts: seq<Artifact>)
    requires NeverReuses(w) && Safe(s)
    ensures var p := StageAll(w, s, artifacts);
      Safe(p.state) && s.created <= p.state.created && Created(p.held, p.state)
    decreases |artifacts|
  {
    hide Safe, NeverReuses, Stage;
    if artifacts != [] {
      SafeStage(w, s, artifacts[0], TRIES);
      SafeStages(w, Stage(w, s, artifacts[0], TRIES).state, artifacts[1..]);
    }
  }

  lemma {:induction false} SafeLink(w: World, s: State, stage: string, target: string)
    requires NeverReuses(w) && Safe(s)
    ensures var r := LinkTo(w, s, stage, target); Safe(r.1) && r.1.created == s.created
  {
    var seen := Seen(w, s);
    assert OursAlone(seen, s.created);
    if stage in seen { StepsGrow(s.steps, Step(seen, seen[target := seen[stage]])); }
  }

  lemma {:induction false} SafeWait(w: World, s: State)
    requires NeverReuses(w) && Safe(s)
    ensures Safe(Await(w, s))
  {
    assert OursAlone(Seen(w, s), s.created);
  }

  lemma {:induction false} SafeLinks(w: World, s: State, artifacts: seq<Artifact>, stages: seq<Held>)
    requires NeverReuses(w) && Safe(s) && |stages| == |artifacts| && Created(stages, s)
    ensures var p := LinkAll(w, s, artifacts, stages);
      Safe(p.state) && p.state.created == s.created && Created(p.held, p.state)
    decreases |artifacts|
  {
    hide Safe, NeverReuses, LinkTo;
    if artifacts != [] {
      SafeLink(w, s, stages[0].name, artifacts[0].name);
      var linked := LinkTo(w, s, stages[0].name, artifacts[0].name);
      if linked.0 == Published {
        SafeWait(w, linked.1);
        assert stages[0] in stages;
        SafeLinks(w, Await(w, linked.1), artifacts[1..], stages[1..]);
      }
    }
  }

  lemma {:induction false} SafeTargets(w: World, s: State, artifacts: seq<Artifact>)
    requires NeverReuses(w) && Safe(s)
    ensures var r := TargetsAreFree(w, s, artifacts); Safe(r.1) && r.1.created == s.created
    decreases |artifacts|
  {
    hide Safe, NeverReuses;
    if artifacts != [] {
      SafeWait(w, s);
      SafeTargets(w, Await(w, s), artifacts[1..]);
    }
  }

  // As long as no number the publisher created is given out again, it touches nobody else's entry.
  lemma {:induction false} SafeWithoutReuse(w: World, s: State, artifacts: seq<Artifact>)
    requires NeverReuses(w) && Safe(s)
    ensures Safe(Publish(w, s, artifacts).1)
  {
    hide Safe, NeverReuses, TargetsAreFree, StageAll, LinkAll, UnlinkAll, Reversed;
    SafeTargets(w, s, artifacts);
    var free := TargetsAreFree(w, s, artifacts);
    if free.0 == Published {
      SafeStages(w, free.1, artifacts);
      var staged := StageAll(w, free.1, artifacts);
      if staged.result == Published {
        SafeLinks(w, staged.state, artifacts, staged.held);
        var linked := LinkAll(w, staged.state, artifacts, staged.held);
        ReversedHolds(linked.held, linked.state.dir);
        if linked.result != Published { SafeUnlinks(w, linked.state, Reversed(linked.held)); }
        SafeUnlinks(w, if linked.result == Published then linked.state
          else UnlinkAll(w, linked.state, Reversed(linked.held)), staged.held);
      } else {
        SafeUnlinks(w, staged.state, staged.held);
      }
    }
  }

  // Links fail; and just before the sixth call another process removes `stage` and makes a file of that name,
  // which the file system gives the number that has become free.
  function Reusing(stage: string): World {
    World((k, d: Dir, _) => if k == 5 && stage in d then d[stage := File(d[stage].inode, false, [])] else d,
      (_, c) => c == Link, _ => "", k => k, _ => [])
  }

  function PlainStage(a: Artifact): string { "." + a.name + ".stage-" }

  // In that world publishing any artifact, into any directory that has neither of its names, finds that file in
  // place of its stage and removes it.
  lemma {:induction false} ReuseRobs(d: Dir, a: Artifact)
    requires a.name !in d && PlainStage(a) !in d
    ensures var t := Publish(Reusing(PlainStage(a)), Begin(d), [a]).1;
      && !SafeSteps(t.steps) && t.dir == d
      && exists i :: t.unlinks == [Unlinking(d[PlainStage(a) := File(i, false, [])], Held(PlainStage(a), i), false)]
  {
    var stage := PlainStage(a);
    var w, s := Reusing(stage), Await(Reusing(stage), Begin(d));
    assert |stage| > |a.name| && StageName(w, a, 1) == stage;
    FreeForOne(w, Begin(d), a);
    QuietUntilLinks(w, s, a, stage);
    var staged := Stage(w, s, a, TRIES);
    StageAllOfOne(w, s, a);
    UnlinksOfOne(w, Await(w, staged.state), staged.held);
    var seen := d[stage := File(staged.held.inode, false, [])];
    assert Seen(w, Await(w, staged.state)) == seen;
    assert seen - {stage} == d;
    UnsafeExactly(w, Begin(d), [a]);
    var t := Publish(w, Begin(d), [a]).1;
    assert t.unlinks == [Unlinking(seen, Held(stage, staged.held.inode), false)];
    assert Robs(t.unlinks[0]);
  }

  lemma {:induction false} FreeForOne(w: World, s: State, a: Artifact)
    requires !w.fails(s.clock, Check) && a.name !in Seen(w, s)
    ensures TargetsAreFree(w, s, [a]) == (Published, Await(w, s))
  {
    assert TargetsAreFree(w, Await(w, s), [a][1..]) == (Published, Await(w, s));
  }

  lemma {:induction false} StageAllOfOne(w: World, s: State, a: Artifact)
    requires Stage(w, s, a, TRIES).result == Published
    ensures var r := Stage(w, s, a, TRIES); StageAll(w, s, [a]) == Phase(Published, [r.held], r.state)
  {
    var r := Stage(w, s, a, TRIES);
    assert StageAll(w, r.state, [a][1..]) == Phase(Published, [], r.state);
    assert [r.held] + [] == [r.held];
  }

  lemma {:induction false} UnlinksOfOne(w: World, s: State, h: Held)
    ensures UnlinkAll(w, s, [h]) == UnlinkOwned(w, s, h)
  {
    assert UnlinkAll(w, UnlinkOwned(w, s, h), [h][1..]) == UnlinkOwned(w, s, h);
  }

  lemma {:induction false} QuietUntilLinks(w: World, s: State, a: Artifact, stage: string)
    requires w == Reusing(stage) && s.clock == 1 && stage !in s.dir && StageName(w, a, 1) == stage
    ensures var r := Stage(w, s, a, TRIES);
      && r.result == Published && r.held.name == stage && r.state.clock == 4 && r.state.unlinks == s.unlinks
      && r.state.dir == s.dir[stage := File(r.held.inode, true, a.bytes)]
  {
    var opening := OpenStage(w, s, stage);
    NewFile(s.dir, stage, opening.0.inode);
    assert FillStage(w, opening.1, Held(stage, opening.0.inode), a.bytes).result == Published;
  }
}
