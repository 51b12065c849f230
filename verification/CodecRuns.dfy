/**
 What every run of one program keeps, whatever its peer does.
 */
module CodecRuns {
  import opened Wrappers
  import opened Bytes
  import opened CodecWire
  import opened CodecProtocol

  // ---- One program against an arbitrary peer ----

  predicate Past(p: Process, phase: Phase) { Rank(p.role, p.phase) > Rank(p.role, phase) }

  predicate Failed(p: Process) { p.phase == Done && p.error != OK }

  // The request and response this process stands for.
  function Request(sha: Sha, p: Process): Bytes { NegotiateRecord(sha, p.nonce, p.deadline) }

  function Response(sha: Sha, p: Process): Bytes {
    UnavailableRecord(sha, p.nonce, p.deadline, PacketHash(sha, Request(sha, p)))
  }

  ghost predicate Local(sha: Sha, p: Process, inbound: Channel, outbound: Channel) {
    if Failed(p) then |outbound.sent| <= 1 && inbound.taken <= |inbound.sent|
    else
      && p.error == OK
      && outbound.sent == (if Past(p, Send) then [Message(p.record, false)] else [])
      && (outbound.closed <==> Past(p, Shutdown))
      && inbound.taken == (if Past(p, Receive) then 1 else 0)
      && (Past(p, Receive) ==> 1 <= |inbound.sent| && inbound.sent[0] == Message(p.received, false))
      && (Past(p, Eof) ==> |inbound.sent| == 1 && inbound.closed)
      && Contents(sha, p)
  }

  ghost predicate Contents(sha: Sha, p: Process) {
    match p.role
    case Initiator =>
      && (Past(p, Start) ==> !IsZero(p.nonce) && p.limit == p.deadline)
      && (Past(p, Encode) ==> p.record == Request(sha, p) && p.requestHash == PacketHash(sha, p.record))
      && (Past(p, Decode) ==> p.received == Response(sha, p))
    case Responder =>
      && (Past(p, Decode) ==> !IsZero(p.nonce) && p.received == Request(sha, p))
      && (Past(p, Encode) ==> p.record == Response(sha, p))
  }

  lemma {:induction false} DecodeKeepsLocal(sha: Sha, p: Process, env: Env, inbound: Channel, outbound: Channel)
    requires p.phase == Decode && Local(sha, p, inbound, outbound)
    ensures var o := Decoded(sha, p, env, inbound, outbound);
      Local(sha, o.process, o.inbound, o.outbound) && o.process.role == p.role
  {
    hide DecodeNegotiate, DecodeUnavailable, NegotiateRecord, UnavailableRecord, PacketHash, InWindow, IsZero;
    if p.role == Initiator {
      UnavailableIsExact(sha, p.received, p.nonce, p.deadline, p.requestHash, env.now);
    } else {
      NegotiateIsExact(sha, p.received, env.now);
    }
  }

  lemma {:induction false} ReceiveKeepsLocal(sha: Sha, p: Process, env: Env, inbound: Channel, outbound: Channel)
    requires p.phase == Receive && Local(sha, p, inbound, outbound)
    ensures var o := ReceiveStep(p, env, inbound, outbound);
      o.Some? ==> Local(sha, o.value.process, o.value.inbound, o.value.outbound) && o.value.process.role == p.role
  {
    hide NegotiateRecord, UnavailableRecord, PacketHash, InWindow, IsZero;
  }

  lemma {:induction false} EofKeepsLocal(sha: Sha, p: Process, env: Env, inbound: Channel, outbound: Channel)
    requires p.phase == Eof && Local(sha, p, inbound, outbound)
    ensures var o := EofStep(p, env, inbound, outbound);
      o.Some? ==> Local(sha, o.value.process, o.value.inbound, o.value.outbound) && o.value.process.role == p.role
  {
    hide NegotiateRecord, UnavailableRecord, PacketHash, InWindow, IsZero;
  }

  lemma {:induction false} BeginKeepsLocal(sha: Sha, p: Process, env: Env, inbound: Channel, outbound: Channel)
    requires p.phase == Start && Local(sha, p, inbound, outbound)
    ensures var o := Begin(p, env, inbound, outbound);
      Local(sha, o.process, o.inbound, o.outbound) && o.process.role == p.role
  {
    hide NegotiateRecord, UnavailableRecord, PacketHash, IsZero;
  }

  lemma {:induction false} EncodeKeepsLocal(sha: Sha, p: Process, inbound: Channel, outbound: Channel)
    requires p.phase == Encode && Local(sha, p, inbound, outbound)
    requires p.role == Initiator ==> !IsZero(p.nonce)
    ensures var o := Go(Encoded(sha, p), inbound, outbound);
      Local(sha, o.process, o.inbound, o.outbound) && o.process.role == p.role
  {
    hide NegotiateRecord, UnavailableRecord, PacketHash, IsZero;
  }

  lemma {:induction false} WriteKeepsLocal(sha: Sha, p: Process, inbound: Channel, outbound: Channel)
    requires p.phase in {Send, Shutdown} && Local(sha, p, inbound, outbound)
    ensures var after := if p.phase == Send then outbound.(sent := outbound.sent + [Message(p.record, false)])
        else outbound.(closed := true);
      var o := Go(p, inbound, after);
      Local(sha, o.process, o.inbound, o.outbound) && o.process.role == p.role
  {
    hide NegotiateRecord, UnavailableRecord, PacketHash, IsZero;
  }

  lemma {:induction false} ExitKeepsLocal(sha: Sha, p: Process, error: Error, inbound: Channel, outbound: Channel)
    requires error != OK && Local(sha, p, inbound, outbound)
    ensures var o := Exit(p, error, inbound, outbound);
      Local(sha, o.process, o.inbound, o.outbound) && o.process.role == p.role
  {
    hide Contents;
  }

  lemma {:induction false} StepKeepsLocal(sha: Sha, p: Process, env: Env, inbound: Channel, outbound: Channel,
        peerGone: bool)
    requires Local(sha, p, inbound, outbound)
    requires Step(sha, p, env, inbound, outbound, peerGone).Some?
    ensures var o := Step(sha, p, env, inbound, outbound, peerGone).value;
      Local(sha, o.process, o.inbound, o.outbound) && o.process.role == p.role
  {
    hide Local, Go, Exit, Begin, Encoded, Decoded, ReceiveStep, EofStep, InWindow, IsZero;
    match p.phase
    case Start => BeginKeepsLocal(sha, p, env, inbound, outbound);
    case Encode =>
      ExitKeepsLocal(sha, p, NONCE, inbound, outbound);
      ExitKeepsLocal(sha, p, DEADLINE, inbound, outbound);
      if !(p.role == Initiator && IsZero(p.nonce)) { EncodeKeepsLocal(sha, p, inbound, outbound); }
    case Send =>
      ExitKeepsLocal(sha, p, DEADLINE, inbound, outbound);
      ExitKeepsLocal(sha, p, IO, inbound, outbound);
      WriteKeepsLocal(sha, p, inbound, outbound);
    case Shutdown =>
      ExitKeepsLocal(sha, p, IO, inbound, outbound);
      WriteKeepsLocal(sha, p, inbound, outbound);
    case Receive => ReceiveKeepsLocal(sha, p, env, inbound, outbound);
    case Decode => DecodeKeepsLocal(sha, p, env, inbound, outbound);
    case Eof => EofKeepsLocal(sha, p, env, inbound, outbound);
    case Done => assert false;
  }

  datatype World = World(process: Process, inbound: Channel, outbound: Channel)

  // The peer sends anything, or closes for good, and receives what it likes.
  ghost predicate PeerMoves(w: World, w': World) {
    && w'.process == w.process
    && w'.inbound.taken == w.inbound.taken && w.inbound.sent <= w'.inbound.sent
    && (w.inbound.closed ==> w'.inbound == w.inbound)
    && w'.outbound == w.outbound.(taken := w'.outbound.taken)
  }

  ghost predicate OwnStep(sha: Sha, w: World, w': World) {
    exists env: Env, peerGone: bool ::
      Step(sha, w.process, env, w.inbound, w.outbound, peerGone)
      == Some(Outcome(w'.process, w'.inbound, w'.outbound))
  }

  ghost predicate IsRun(sha: Sha, role: Role, run: seq<World>) {
    && |run| > 0 && run[0] == World(Boot(role), Channel([], 0, false), Channel([], 0, false))
    && forall k :: 0 < k < |run| ==> OwnStep(sha, run[k - 1], run[k]) || PeerMoves(run[k - 1], run[k])
  }

  // A run goes on with any step of the program or any move of its peer.
  lemma {:induction false} RunsGoOn(sha: Sha, role: Role, run: seq<World>, next: World)
    requires IsRun(sha, role, run) && (OwnStep(sha, run[|run| - 1], next) || PeerMoves(run[|run| - 1], next))
    ensures IsRun(sha, role, run + [next])
  {
    hide OwnStep, PeerMoves;
    var more := run + [next];
    forall k | 0 < k < |more| ensures OwnStep(sha, more[k - 1], more[k]) || PeerMoves(more[k - 1], more[k]) {
      if k < |run| { assert OwnStep(sha, run[k - 1], run[k]) || PeerMoves(run[k - 1], run[k]); }
    }
  }

  lemma {:induction false} PeerKeepsLocal(sha: Sha, w: World, w': World)
    requires Local(sha, w.process, w.inbound, w.outbound) && PeerMoves(w, w')
    ensures Local(sha, w'.process, w'.inbound, w'.outbound)
  {
    hide NegotiateRecord, UnavailableRecord, PacketHash, IsZero;
  }

  lemma {:induction false} RunsKeepLocal(sha: Sha, role: Role, run: seq<World>)
    requires IsRun(sha, role, run)
    ensures var w := run[|run| - 1]; Local(sha, w.process, w.inbound, w.outbound) && w.process.role == role
  {
    if |run| > 1 {
      var before := run[..|run| - 1];
      RunsKeepLocal(sha, role, before);
      var w, w' := before[|before| - 1], run[|run| - 1];
      assert OwnStep(sha, w, w') || PeerMoves(w, w');
      if OwnStep(sha, w, w') {
        var env, peerGone :| Step(sha, w.process, env, w.inbound, w.outbound, peerGone)
          == Some(Outcome(w'.process, w'.inbound, w'.outbound));
        StepKeepsLocal(sha, w.process, env, w.inbound, w.outbound, peerGone);
      } else {
        PeerKeepsLocal(sha, w, w');
      }
    }
  }

  // Whatever the peer does, a program sends at most one record.  The initiator succeeds only after a single
  // response carrying its nonce, its deadline and its request's hash, followed by end of file.
  lemma {:induction false} InitiatorIsSafe(sha: Sha, run: seq<World>)
    requires IsRun(sha, Initiator, run)
    ensures var w := run[|run| - 1]; var p := w.process;
      && |w.outbound.sent| <= 1
      && (p.phase == Done && p.error == OK ==>
        && w.outbound.sent == [Message(NegotiateRecord(sha, p.nonce, p.deadline), false)] && w.outbound.closed
        && w.inbound.closed && !IsZero(p.nonce)
        && w.inbound.sent == [Message(UnavailableRecord(sha, p.nonce, p.deadline,
          PacketHash(sha, NegotiateRecord(sha, p.nonce, p.deadline))), false)])
  {
    hide NegotiateRecord, UnavailableRecord, PacketHash, IsZero;
    RunsKeepLocal(sha, Initiator, run);
    var w := run[|run| - 1];
    if !Failed(w.process) && w.process.phase == Done { assert w.inbound.sent == [w.inbound.sent[0]]; }
  }

  // The responder answers only a request that was followed by end of file, and answers exactly that one.
  lemma {:induction false} ResponderIsSafe(sha: Sha, run: seq<World>)
    requires IsRun(sha, Responder, run)
    ensures var w := run[|run| - 1]; var p := w.process;
      && |w.outbound.sent| <= 1
      && (p.phase == Done && p.error == OK ==>
        && w.inbound.sent == [Message(NegotiateRecord(sha, p.nonce, p.deadline), false)] && w.inbound.closed
        && !IsZero(p.nonce) && w.outbound.closed
        && w.outbound.sent == [Message(UnavailableRecord(sha, p.nonce, p.deadline,
          PacketHash(sha, w.inbound.sent[0].bytes)), false)])
  {
    hide NegotiateRecord, UnavailableRecord, PacketHash, IsZero;
    RunsKeepLocal(sha, Responder, run);
    var w := run[|run| - 1];
    if !Failed(w.process) && w.process.phase == Done { assert w.inbound.sent == [w.inbound.sent[0]]; }
  }
}
