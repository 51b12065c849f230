/**
 The two programs against each other on one clock: what every interleaving keeps, and that a timely run never
 sticks and ends with both succeeding.
 */
module CodecHonest {
  import opened Wrappers
  import opened Bytes
  import CodecLayout
  import opened CodecWire
  import opened CodecProtocol
  import opened CodecRuns

  datatype System = System(i: Process, r: Process, there: Channel, back: Channel, clock: Word64)

  function First(): System {
    System(Boot(Initiator), Boot(Responder), Channel([], 0, false), Channel([], 0, false), 0)
  }

  function StepInitiator(sha: Sha, s: System, env: Env): Option<Outcome> {
    Step(sha, s.i, env, s.back, s.there, s.r.phase == Done)
  }

  function StepResponder(sha: Sha, s: System, env: Env): Option<Outcome> {
    Step(sha, s.r, env, s.there, s.back, s.i.phase == Done)
  }

  ghost predicate InitiatorMoves(sha: Sha, s: System, env: Env, s': System) {
    && env.now >= s.clock
    && s'.clock == env.now && s'.r == s.r
    && StepInitiator(sha, s, env) == Some(Outcome(s'.i, s'.back, s'.there))
  }

  ghost predicate ResponderMoves(sha: Sha, s: System, env: Env, s': System) {
    && env.now >= s.clock
    && s'.clock == env.now && s'.i == s.i
    && StepResponder(sha, s, env) == Some(Outcome(s'.r, s'.there, s'.back))
  }

  ghost predicate Moves(sha: Sha, s: System, env: Env, s': System) {
    InitiatorMoves(sha, s, env, s') || ResponderMoves(sha, s, env, s')
  }

  // A run and what the world did at each of its moves.
  ghost predicate IsSystemRun(sha: Sha, run: seq<System>, moves: seq<Env>) {
    && |run| == |moves| + 1 && run[0] == First()
    && forall k :: 0 <= k < |moves| ==> Moves(sha, run[k], moves[k], run[k + 1])
  }

  ghost predicate BothLocal(sha: Sha, s: System) {
    && Local(sha, s.i, s.back, s.there) && s.i.role == Initiator
    && Local(sha, s.r, s.there, s.back) && s.r.role == Responder
  }

  // A step of one program is a peer move to the other.
  lemma {:induction false} StepIsAPeerMove(sha: Sha, p: Process, env: Env, inbound: Channel, outbound: Channel,
        peerGone: bool, q: Process)
    requires Local(sha, p, inbound, outbound)
    requires Step(sha, p, env, inbound, outbound, peerGone).Some?
    ensures var o := Step(sha, p, env, inbound, outbound, peerGone).value;
      PeerMoves(World(q, outbound, inbound), World(q, o.outbound, o.inbound))
  {
    hide InWindow, IsZero, Begin, Encoded, Decoded, Contents, Rank, ReceiveError, PacketHash;
    if p.phase == Start { BeginKeepsChannels(p, env, inbound, outbound); }
    if p.phase == Decode { DecodeKeepsChannels(sha, p, env, inbound, outbound); }
    if p.phase in {Send, Shutdown} { assert !outbound.closed by { NotYetClosed(sha, p, inbound, outbound); } }
  }

  predicate AtMostCloses(o: Outcome, inbound: Channel, outbound: Channel) {
    o.inbound == inbound && o.outbound in {outbound, outbound.(closed := true)}
  }

  lemma {:induction false} BeginKeepsChannels(p: Process, env: Env, inbound: Channel, outbound: Channel)
    requires p.phase == Start
    ensures AtMostCloses(Begin(p, env, inbound, outbound), inbound, outbound)
  {
  }

  lemma {:induction false} DecodeKeepsChannels(sha: Sha, p: Process, env: Env, inbound: Channel, outbound: Channel)
    requires p.phase == Decode
    ensures AtMostCloses(Decoded(sha, p, env, inbound, outbound), inbound, outbound)
  {
    hide DecodeNegotiate, DecodeUnavailable;
  }

  lemma {:induction false} NotYetClosed(sha: Sha, p: Process, inbound: Channel, outbound: Channel)
    requires Local(sha, p, inbound, outbound) && p.phase in {Send, Shutdown}
    ensures !outbound.closed
  {
    hide Contents;
  }

  lemma {:induction false} MoveKeepsBothLocal(sha: Sha, s: System, env: Env, s': System)
    requires BothLocal(sha, s) && Moves(sha, s, env, s')
    ensures BothLocal(sha, s')
  {
    hide Local, Step;
    if InitiatorMoves(sha, s, env, s') {
      StepKeepsLocal(sha, s.i, env, s.back, s.there, s.r.phase == Done);
      StepIsAPeerMove(sha, s.i, env, s.back, s.there, s.r.phase == Done, s.r);
      PeerKeepsLocal(sha, World(s.r, s.there, s.back), World(s.r, s'.there, s'.back));
    } else {
      StepKeepsLocal(sha, s.r, env, s.there, s.back, s.i.phase == Done);
      StepIsAPeerMove(sha, s.r, env, s.there, s.back, s.i.phase == Done, s.i);
      PeerKeepsLocal(sha, World(s.i, s.back, s.there), World(s.i, s'.back, s'.there));
    }
  }

  lemma {:induction false} RunsKeepBothLocal(sha: Sha, run: seq<System>, moves: seq<Env>)
    requires IsSystemRun(sha, run, moves)
    ensures BothLocal(sha, run[|moves|])
  {
    if moves == [] {
    } else {
      hide Local, Moves;
      var n := |moves| - 1;
      RunsKeepBothLocal(sha, run[..n + 1], moves[..n]);
      MoveKeepsBothLocal(sha, run[n], moves[n], run[n + 1]);
    }
  }

  // In every interleaving, timely or not, failing or not, at most two records are ever sent; and if both
  // programs succeed they agree on the nonce and the deadline.
  lemma {:induction false} AtMostTwoRecords(sha: Sha, run: seq<System>, moves: seq<Env>)
    requires IsSystemRun(sha, run, moves)
    ensures var s := run[|moves|];
      && |s.there.sent| + |s.back.sent| <= 2
      && (s.i.phase == s.r.phase == Done && s.i.error == s.r.error == OK
        ==> s.i.nonce == s.r.nonce && s.i.deadline == s.r.deadline)
  {
    hide NegotiateRecord, UnavailableRecord, PacketHash, IsZero;
    RunsKeepBothLocal(sha, run, moves);
    var s := run[|moves|];
    if s.i.phase == s.r.phase == Done && s.i.error == s.r.error == OK {
      assert s.there.sent[0].bytes == NegotiateRecord(sha, s.i.nonce, s.i.deadline)
        == NegotiateRecord(sha, s.r.nonce, s.r.deadline);
      RequestsAreDistinct(sha, s.i.nonce, s.i.deadline, s.r.nonce, s.r.deadline);
    }
  }

  lemma {:induction false} RequestsAreDistinct(sha: Sha, n: Nonce, d: Word64, n': Nonce, d': Word64)
    requires NegotiateRecord(sha, n, d) == NegotiateRecord(sha, n', d')
    ensures n == n' && d == d'
  {
    hide NegotiateRecord;
    HeaderRead(sha, n, d);
    HeaderRead(sha, n', d');
  }

  lemma {:induction false} HeaderRead(sha: Sha, n: Nonce, d: Word64)
    ensures var r := NegotiateRecord(sha, n, d); r[32..48] == n && CodecLayout.GetBe(r, 48, 8) == d
  {
    hide NegotiateBody, Header, CodecLayout.GetBe;
    var r := NegotiateRecord(sha, n, d);
    var body := NegotiateBody();
    var h := Header(NEGOTIATE, 0, NEGOTIATE_BODY, n, d, Zeros(32), sha(body));
    assert r[HEADER_SIZE..] == body;
    HeadAndBody(r, h, body);
    HeaderIsItsFields(r, NEGOTIATE, 0, NEGOTIATE_BODY, n, d, Zeros(32), sha(body));
  }

  // ---- Timely runs ----

  // No system call fails, the clock is far from wrapping, and no program is left waiting past its deadline.
  ghost predicate Timely(s: System, env: Env) {
    && env.fault == OK && !IsZero(env.random) && env.now + MAX_DEADLINE_WINDOW < U64
    && env.now >= s.clock
    && (s.i.phase != Start ==> env.now < s.i.deadline)
    && (s.r.phase == Receive ==> env.now < s.r.limit)
  }

  ghost predicate OnTime(sha: Sha, s: System) {
    && BothLocal(sha, s) && !Failed(s.i) && !Failed(s.r)
    && (s.i.phase != Start ==> s.i.deadline <= s.clock + NEGOTIATION_WINDOW)
    && (s.r.phase == Receive ==> s.r.limit <= s.clock + MAX_DEADLINE_WINDOW)
    && (Past(s.r, Decode) ==> s.r.nonce == s.i.nonce && s.r.deadline == s.i.deadline)
  }

  function Progress(s: System): nat { Rank(Initiator, s.i.phase) + Rank(Responder, s.r.phase) }

  predicate InitiatorAdvances(s: System, now: Word64, p: Process) {
    && !Failed(p) && Rank(Initiator, p.phase) == Rank(Initiator, s.i.phase) + 1
    && (if s.i.phase == Start then p.deadline == now + NEGOTIATION_WINDOW
        else p.deadline == s.i.deadline && p.nonce == s.i.nonce)
  }

  lemma {:induction false} InitiatorWrites(sha: Sha, s: System, env: Env)
    requires OnTime(sha, s) && Timely(s, env) && s.i.phase in {Start, Encode, Send, Shutdown}
    ensures var o := StepInitiator(sha, s, env); o.Some? && InitiatorAdvances(s, env.now, o.value.process)
  {
    hide NegotiateRecord, PacketHash, IsZero, Contents, ReceiveStep, EofStep, Decoded;
    if s.i.phase != Start { assert !IsZero(s.i.nonce) by { Started(sha, s); } }
  }

  lemma {:induction false} InitiatorReads(sha: Sha, s: System, env: Env)
    requires OnTime(sha, s) && Timely(s, env) && s.i.phase in {Receive, Decode, Eof}
    ensures var o := StepInitiator(sha, s, env); o.Some? ==> InitiatorAdvances(s, env.now, o.value.process)
  {
    hide NegotiateRecord, DecodeUnavailable, PacketHash, IsZero, Contents, ReceiveError, Begin, Encoded;
    if s.i.phase == Decode {
      ResponseIsReadable(sha, s, env.now);
    } else if s.i.phase == Receive && s.back.taken < |s.back.sent| {
      ResponseIsReceivable(sha, s);
    } else {
      assert s.i.limit == s.i.deadline by { Started(sha, s); }
    }
  }

  lemma {:induction false} InitiatorStaysOnTime(sha: Sha, s: System, env: Env)
    requires OnTime(sha, s) && Timely(s, env) && StepInitiator(sha, s, env).Some?
    ensures InitiatorAdvances(s, env.now, StepInitiator(sha, s, env).value.process)
  {
    hide OnTime, InitiatorAdvances;
    if s.i.phase in {Start, Encode, Send, Shutdown} {
      InitiatorWrites(sha, s, env);
    } else {
      InitiatorReads(sha, s, env);
    }
  }

  lemma {:induction false} Started(sha: Sha, s: System)
    requires OnTime(sha, s) && s.i.phase != Start
    ensures !IsZero(s.i.nonce) && s.i.limit == s.i.deadline
  {
    hide IsZero;
  }

  lemma {:induction false} ResponseIsReceivable(sha: Sha, s: System)
    requires OnTime(sha, s) && s.i.phase == Receive && s.back.taken < |s.back.sent|
    ensures ReceiveError(s.back.sent[s.back.taken]) == OK && s.i.limit == s.i.deadline
  {
    hide UnavailableRecord, PacketHash, IsZero;
    assert |s.r.record| == |UnavailableRecord(sha, s.r.nonce, s.r.deadline, PacketHash(sha, Request(sha, s.r)))|;
  }

  // What the initiator received is the response to its own request.
  lemma {:induction false} ResponseIsReadable(sha: Sha, s: System, now: Word64)
    requires OnTime(sha, s) && s.i.phase == Decode && InWindow(s.i.deadline, now)
    ensures DecodeUnavailable(sha, s.i.received, s.i.nonce, s.i.deadline, s.i.requestHash, now) == OK
  {
    hide NegotiateRecord, UnavailableRecord, PacketHash, IsZero, DecodeUnavailable;
    assert s.back.sent[0].bytes == s.r.record == Response(sha, s.r);
    UnavailableIsExact(sha, s.i.received, s.i.nonce, s.i.deadline, s.i.requestHash, now);
  }

  predicate ResponderAdvances(s: System, now: Word64, p: Process) {
    && !Failed(p) && Rank(Responder, p.phase) == Rank(Responder, s.r.phase) + 1
    && (p.phase == Receive ==> p.limit == now + MAX_DEADLINE_WINDOW)
    && (Past(p, Decode) ==> p.nonce == s.i.nonce && p.deadline == s.i.deadline)
  }

  lemma {:induction false} ResponderBegins(sha: Sha, s: System, env: Env)
    requires OnTime(sha, s) && Timely(s, env) && s.r.phase == Start
    ensures var o := StepResponder(sha, s, env); o.Some? && ResponderAdvances(s, env.now, o.value.process)
  {
    hide IsZero, Contents, Encoded, ReceiveStep, EofStep, Decoded;
  }

  lemma {:induction false} ResponderWrites(sha: Sha, s: System, env: Env)
    requires OnTime(sha, s) && Timely(s, env) && s.r.phase in {Encode, Send, Shutdown}
    ensures var o := StepResponder(sha, s, env); o.Some? && ResponderAdvances(s, env.now, o.value.process)
  {
    hide UnavailableRecord, PacketHash, IsZero, Contents, Begin, ReceiveStep, EofStep, Decoded;
  }

  lemma {:induction false} ResponderReads(sha: Sha, s: System, env: Env)
    requires OnTime(sha, s) && Timely(s, env) && s.r.phase in {Receive, Decode, Eof}
    ensures var o := StepResponder(sha, s, env); o.Some? ==> ResponderAdvances(s, env.now, o.value.process)
  {
    hide DecodeNegotiate, PacketHash, IsZero, Contents, ReceiveError, Begin, Encoded;
    if s.r.phase == Decode {
      RequestIsReadable(sha, s, env.now);
    } else if s.r.phase == Receive && s.there.taken < |s.there.sent| {
      RequestIsReceivable(sha, s);
    }
  }

  lemma {:induction false} ResponderStaysOnTime(sha: Sha, s: System, env: Env)
    requires OnTime(sha, s) && Timely(s, env) && StepResponder(sha, s, env).Some?
    ensures ResponderAdvances(s, env.now, StepResponder(sha, s, env).value.process)
  {
    hide OnTime, ResponderAdvances;
    if s.r.phase == Start {
      ResponderBegins(sha, s, env);
    } else if s.r.phase in {Encode, Send, Shutdown} {
      ResponderWrites(sha, s, env);
    } else {
      ResponderReads(sha, s, env);
    }
  }

  lemma {:induction false} RequestIsReceivable(sha: Sha, s: System)
    requires OnTime(sha, s) && s.r.phase == Receive && s.there.taken < |s.there.sent|
    ensures ReceiveError(s.there.sent[s.there.taken]) == OK
  {
    hide NegotiateRecord, UnavailableRecord, PacketHash, IsZero;
    assert |s.i.record| == |NegotiateRecord(sha, s.i.nonce, s.i.deadline)|;
  }

  lemma {:induction false} RequestIsReadable(sha: Sha, s: System, now: Word64)
    requires OnTime(sha, s) && s.r.phase == Decode && InWindow(s.i.deadline, now)
    ensures DecodeNegotiate(sha, s.r.received, now) == (OK, s.i.nonce, s.i.deadline)
  {
    hide NegotiateRecord, UnavailableRecord, PacketHash, IsZero, DecodeNegotiate;
    assert s.there.sent[0].bytes == s.i.record == Request(sha, s.i);
    NegotiateReadsBack(sha, s.i.nonce, s.i.deadline, now);
  }

  lemma {:induction false} StaysOnTime(sha: Sha, s: System, env: Env, s': System)
    requires OnTime(sha, s) && Timely(s, env) && Moves(sha, s, env, s')
    ensures OnTime(sha, s') && Progress(s') == Progress(s) + 1
  {
    hide BothLocal, StepInitiator, StepResponder, IsZero;
    MoveKeepsBothLocal(sha, s, env, s');
    if InitiatorMoves(sha, s, env, s') {
      InitiatorStaysOnTime(sha, s, env);
      if s.i.phase == Start { NothingDecodedYet(sha, s); }
    } else {
      ResponderStaysOnTime(sha, s, env);
    }
  }

  lemma {:induction false} NothingDecodedYet(sha: Sha, s: System)
    requires OnTime(sha, s) && s.i.phase == Start
    ensures !Past(s.r, Decode)
  {
    hide Contents;
  }

  // The initiator half-closes before it waits, so whenever one program is blocked the other is not.
  lemma {:induction false} NeverStuck(sha: Sha, s: System, env: Env)
    requires OnTime(sha, s) && !(s.i.phase == s.r.phase == Done)
    ensures StepInitiator(sha, s, env).Some? || StepResponder(sha, s, env).Some?
  {
    hide Contents, InWindow, Begin, Encoded, Decoded, IsZero;
  }

  lemma {:induction false} RunsStayOnTime(sha: Sha, run: seq<System>, moves: seq<Env>)
    requires IsSystemRun(sha, run, moves) && forall k :: 0 <= k < |moves| ==> Timely(run[k], moves[k])
    ensures OnTime(sha, run[|moves|]) && Progress(run[|moves|]) == |moves|
  {
    if moves == [] {
    } else {
      hide Moves, OnTime, Timely, Progress;
      var n := |moves| - 1;
      RunsStayOnTime(sha, run[..n + 1], moves[..n]);
      StaysOnTime(sha, run[n], moves[n], run[n + 1]);
    }
  }

  lemma {:induction false} CanMove(sha: Sha, s: System, env: Env)
    requires OnTime(sha, s) && Timely(s, env) && !(s.i.phase == s.r.phase == Done)
    ensures exists s': System :: Moves(sha, s, env, s')
  {
    hide OnTime, Step, IsZero;
    NeverStuck(sha, s, env);
    if StepInitiator(sha, s, env).Some? {
      var o := StepInitiator(sha, s, env).value;
      assert Moves(sha, s, env, System(o.process, s.r, o.outbound, o.inbound, env.now));
    } else {
      var o := StepResponder(sha, s, env).value;
      assert Moves(sha, s, env, System(s.i, o.process, o.inbound, o.outbound, env.now));
    }
  }

  lemma {:induction false} DoneAtFourteen(sha: Sha, s: System)
    requires OnTime(sha, s)
    ensures Progress(s) <= 14 && (Progress(s) == 14 <==> s.i.phase == s.r.phase == Done)
    ensures s.i.error == s.r.error == OK
  {
    hide Contents;
  }

  // A timely run takes fourteen calls, can always go on until then, and ends with both programs succeeding.
  lemma {:induction false} TimelyRunsSucceed(sha: Sha, run: seq<System>, moves: seq<Env>)
    requires IsSystemRun(sha, run, moves) && forall k :: 0 <= k < |moves| ==> Timely(run[k], moves[k])
    ensures var s := run[|moves|];
      && |moves| <= 14
      && s.i.error == s.r.error == OK
      && (|moves| == 14 <==> s.i.phase == s.r.phase == Done)
      && (|moves| < 14 ==> forall env: Env :: Timely(s, env) ==> exists s': System :: Moves(sha, s, env, s'))
  {
    hide OnTime, Moves, Timely, Progress;
    RunsStayOnTime(sha, run, moves);
    var s := run[|moves|];
    DoneAtFourteen(sha, s);
    if |moves| < 14 {
      forall env: Env | Timely(s, env) ensures exists s': System :: Moves(sha, s, env, s') { CanMove(sha, s, env); }
    }
  }

  // Without the half-close the exchange would stop there: the responder waits for an end of file that is not
  // coming, and the initiator for a response.
  lemma {:induction false} HalfCloseIsNeeded(sha: Sha, s: System, env: Env)
    requires OnTime(sha, s) && Timely(s, env) && s.i.phase == Receive && s.r.phase == Eof
    ensures StepResponder(sha, s, env).Some?
    ensures var open := s.(there := s.there.(closed := false));
      StepInitiator(sha, open, env).None? && StepResponder(sha, open, env).None?
  {
    hide Local, IsZero;
    BothWait(sha, s);
  }

  lemma {:induction false} BothWait(sha: Sha, s: System)
    requires OnTime(sha, s) && s.i.phase == Receive && s.r.phase == Eof
    ensures s.there.taken == |s.there.sent| && s.there.closed && s.back.taken == |s.back.sent| && !s.back.closed
    ensures s.i.limit == s.i.deadline == s.r.deadline
  {
    hide IsZero, NegotiateRecord, UnavailableRecord, PacketHash;
  }
}
