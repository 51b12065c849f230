/**
 A run of the publisher as a function of the directory it starts from and of what the world does: other processes
 between its calls, failing calls, random names, the inode numbers the file system gives out.
 */
module PublicationRun {
  import opened Bytes

  // A file object: the inode number a program can see, and whether the publisher created the object.
  datatype File = File(inode: nat, ours: bool, bytes: Bytes)
  type Dir = map<string, File>

  // The calls that can fail.  FirstStat is the look at a new stage before its cleanup is armed.
  datatype Call = Open | FirstStat | Copy | Link | Check | Unlink

  // The n-th call of the run finds what `others` makes of the directory, knowing the numbers the publisher has
  // created, and fails as `fails` says.  `token` names stages, `inode` is the number tried first for a new file,
  // `partial` is what a failing copy leaves behind.
  datatype World = World(others: (nat, Dir, set<nat>) -> Dir, fails: (nat, Call) -> bool, token: nat -> string,
    inode: nat -> nat, partial: nat -> Bytes)

  datatype Artifact = Artifact(name: string, bytes: Bytes)

  // A name and the identity recorded for it.
  datatype Held = Held(name: string, inode: nat)

  datatype Outcome = Published | Failed(call: Call) | Refused | NoStageName

  // One change of the publisher's own, and one owned-file unlink with the directory it looked at.
  datatype Step = Step(before: Dir, after: Dir)
  datatype Unlinking = Unlinking(seen: Dir, held: Held, failed: bool)

  datatype State = State(dir: Dir, clock: nat, created: set<nat>, steps: seq<Step>, unlinks: seq<Unlinking>)

  function Begin(d: Dir): State { State(d, 0, {}, [], []) }

  // ---- One call ----

  // The other processes run.
  function Seen(w: World, s: State): Dir { w.others(s.clock, s.dir, s.created) }

  function Await(w: World, s: State): State { s.(dir := Seen(w, s), clock := s.clock + 1) }

  function Changed(s: State, after: Dir): State { s.(dir := after, steps := s.steps + [Step(s.dir, after)]) }

  // The first number from `i` on that no entry carries.
  function FreeInode(d: Dir, i: nat): (r: nat)
    ensures forall n :: n in d ==> d[n].inode != r
    ensures (forall n :: n in d ==> d[n].inode != i) ==> r == i
    decreases set n | n in d && d[n].inode >= i
  {
    if exists n :: n in d && d[n].inode == i then
      var above := set n | n in d && d[n].inode >= i + 1;
      assert exists n :: n in d && d[n].inode == i && n !in above;
      FreeInode(d, i + 1)
    else i
  }

  // Writing to the publisher's own file object, under whatever names it has.
  function Rewritten(d: Dir, inode: nat, bytes: Bytes): Dir {
    map n | n in d :: if d[n].ours && d[n].inode == inode then File(inode, true, bytes) else d[n]
  }

  datatype Opening = OpenFailed | Taken | Opened(inode: nat)

  // Exclusive creation: never an existing name.
  function OpenStage(w: World, s: State, name: string): (Opening, State) {
    var t := Await(w, s);
    if w.fails(s.clock, Open) then (OpenFailed, t)
    else if name in t.dir then (Taken, t)
    else
      var inode := FreeInode(t.dir, w.inode(s.clock));
      (Opened(inode), Changed(t.(created := t.created + {inode}), t.dir[name := File(inode, true, [])]))
  }

  // Copies the artifact into the open stage; a failure may leave anything there.
  function CopyInto(w: World, s: State, inode: nat, bytes: Bytes): (bool, State) {
    var t, failed := Await(w, s), w.fails(s.clock, Copy);
    (failed, Changed(t, Rewritten(t.dir, inode, if failed then w.partial(s.clock) else bytes)))
  }

  // The name is there and carries the recorded number.
  predicate Carries(d: Dir, h: Held) { h.name in d && d[h.name].inode == h.inode }

  // The owned-file check and its unlink, taken as one step.
  function UnlinkOwned(w: World, s: State, h: Held): State {
    var failed := w.fails(s.clock, Unlink);
    var t := Await(w, s).(unlinks := s.unlinks + [Unlinking(Seen(w, s), h, failed)]);
    if !failed && Carries(t.dir, h) then Changed(t, t.dir - {h.name}) else t
  }

  function UnlinkAll(w: World, s: State, held: seq<Held>): State
    decreases |held|
  {
    if held == [] then s else UnlinkAll(w, UnlinkOwned(w, s, held[0]), held[1..])
  }

  function Reversed(held: seq<Held>): seq<Held> { if held == [] then [] else Reversed(held[1..]) + [held[0]] }

  // A hard link, which fails on an existing name.
  function LinkTo(w: World, s: State, stage: string, target: string): (Outcome, State) {
    var t := Await(w, s);
    if target in t.dir then (Refused, t)
    else if w.fails(s.clock, Link) || stage !in t.dir then (Failed(Link), t)
    else (Published, Changed(t, t.dir[target := t.dir[stage]]))
  }

  // The look at a freshly linked target.
  function Confirm(w: World, s: State, h: Held): (bool, State) {
    var t := Await(w, s);
    (!w.fails(s.clock, Check) && Carries(t.dir, h), t)
  }

  // ---- Stages ----

  function StageName(w: World, a: Artifact, clock: nat): string { "." + a.name + ".stage-" + w.token(clock) }

  const TRIES := 100

  const NOTHING := Held("", 0)

  datatype Staging = Staging(result: Outcome, held: Held, state: State)

  // A failing first look leaves the new file behind; a failing copy takes it away again.
  function FillStage(w: World, s: State, h: Held, bytes: Bytes): Staging {
    var looked := Await(w, s);
    if w.fails(s.clock, FirstStat) then Staging(Failed(FirstStat), h, looked)
    else
      var copied := CopyInto(w, looked, h.inode, bytes);
      if copied.0 then Staging(Failed(Copy), h, UnlinkOwned(w, copied.1, h)) else Staging(Published, h, copied.1)
  }

  function Stage(w: World, s: State, a: Artifact, tries: nat): Staging
    decreases tries
  {
    if tries == 0 then Staging(NoStageName, NOTHING, s)
    else
      var name := StageName(w, a, s.clock);
      var opening := OpenStage(w, s, name);
      match opening.0
      case OpenFailed => Staging(Failed(Open), NOTHING, opening.1)
      case Taken => Stage(w, opening.1, a, tries - 1)
      case Opened(inode) => FillStage(w, opening.1, Held(name, inode), a.bytes)
  }

  // The names a phase has put in place, up to its first failure.
  datatype Phase = Phase(result: Outcome, held: seq<Held>, state: State)

  function With(held: seq<Held>, p: Phase): Phase { p.(held := held + p.held) }

  function StageAll(w: World, s: State, artifacts: seq<Artifact>): (p: Phase)
    ensures |p.held| <= |artifacts| && (p.result == Published ==> |p.held| == |artifacts|)
    decreases |artifacts|
  {
    if artifacts == [] then Phase(Published, [], s)
    else
      var first := Stage(w, s, artifacts[0], TRIES);
      if first.result != Published then Phase(first.result, [], first.state)
      else With([first.held], StageAll(w, first.state, artifacts[1..]))
  }

  // ---- Targets ----

  function TargetsAreFree(w: World, s: State, artifacts: seq<Artifact>): (Outcome, State)
    decreases |artifacts|
  {
    if artifacts == [] then (Published, s)
    else
      var t := Await(w, s);
      if w.fails(s.clock, Check) then (Failed(Check), t)
      else if artifacts[0].name in t.dir then (Refused, t)
      else TargetsAreFree(w, t, artifacts[1..])
  }

  function LinkAll(w: World, s: State, artifacts: seq<Artifact>, stages: seq<Held>): (p: Phase)
    requires |stages| == |artifacts|
    ensures |p.held| <= |artifacts| && (p.result == Published ==> |p.held| == |artifacts|)
    decreases |artifacts|
  {
    if artifacts == [] then Phase(Published, [], s)
    else
      var linked := LinkTo(w, s, stages[0].name, artifacts[0].name);
      if linked.0 != Published then Phase(linked.0, [], linked.1)
      else
        var target := Held(artifacts[0].name, stages[0].inode);
        var confirmed := Confirm(w, linked.1, target);
        if !confirmed.0 then Phase(Failed(Check), [target], confirmed.1)
        else With([target], LinkAll(w, confirmed.1, artifacts[1..], stages[1..]))
  }

  // Links, takes the targets back on a failure, and takes the stages away either way.
  function Finish(w: World, s: State, artifacts: seq<Artifact>, stages: seq<Held>): (Outcome, State)
    requires |stages| == |artifacts|
  {
    var linked := LinkAll(w, s, artifacts, stages);
    var left := if linked.result == Published then linked.state
      else UnlinkAll(w, linked.state, Reversed(linked.held));
    (linked.result, UnlinkAll(w, left, stages))
  }

  function Publish(w: World, s: State, artifacts: seq<Artifact>): (Outcome, State) {
    var free := TargetsAreFree(w, s, artifacts);
    if free.0 != Published then free
    else
      var staged := StageAll(w, free.1, artifacts);
      if staged.result == Published then Finish(w, staged.state, artifacts, staged.held)
      else (staged.result, UnlinkAll(w, staged.state, staged.held))
  }
}
