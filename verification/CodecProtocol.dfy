/**
 The two ends of the codec over a connected SEQPACKET pair.  Each library call of the two programs is one
 step, taken at some clock reading; a step that would block is not enabled.
 */
module CodecProtocol {
  import opened Wrappers
  import opened Bytes
  import opened CodecWire

  // One direction of the socket pair: everything ever sent, how much of it was received, and whether the
  // sending end was shut down.  `rights` is ancillary data other than the credentials the kernel attaches.
  datatype Message = Message(bytes: Bytes, rights: bool)
  datatype Channel = Channel(sent: seq<Message>, taken: nat, closed: bool)

  datatype Role = Initiator | Responder
  datatype Phase = Start | Encode | Send | Shutdown | Receive | Decode | Eof | Done

  datatype Process = Process(role: Role, phase: Phase, error: Error, nonce: Nonce, deadline: Word64, limit: Word64,
    requestHash: Digest, record: Bytes, received: Bytes)

  // What the world contributes to a step: the boot-time clock, a failing system call, random bytes.
  datatype Env = Env(now: Word64, fault: Error, random: Nonce)

  datatype Outcome = Outcome(process: Process, inbound: Channel, outbound: Channel)

  // The order of the calls in the two programs.
  function Rank(role: Role, phase: Phase): nat {
    match (role, phase)
    case (_, Start) => 0
    case (Initiator, Encode) => 1
    case (Initiator, Send) => 2
    case (Initiator, Shutdown) => 3
    case (Initiator, Receive) => 4
    case (Initiator, Decode) => 5
    case (Initiator, Eof) => 6
    case (Responder, Receive) => 1
    case (Responder, Decode) => 2
    case (Responder, Eof) => 3
    case (Responder, Encode) => 4
    case (Responder, Send) => 5
    case (Responder, Shutdown) => 6
    case (_, Done) => 7
  }

  function After(role: Role, phase: Phase): Phase
    requires phase != Done
  {
    match phase
    case Start => if role == Initiator then Encode else Receive
    case Encode => Send
    case Send => Shutdown
    case Shutdown => if role == Initiator then Receive else Done
    case Receive => Decode
    case Decode => Eof
    case Eof => if role == Initiator then Done else Encode
  }

  function Boot(role: Role): Process {
    Process(role, Start, OK, Zeros(16), 0, 0, Zeros(32), [], [])
  }

  // Returning from main closes the descriptor.
  function Exit(p: Process, error: Error, inbound: Channel, outbound: Channel): Outcome {
    Outcome(p.(phase := Done, error := error), inbound, outbound.(closed := true))
  }

  function Go(p: Process, inbound: Channel, outbound: Channel): Outcome
    requires p.phase != Done
  {
    var next := After(p.role, p.phase);
    Outcome(p.(phase := next), inbound, if next == Done then outbound.(closed := true) else outbound)
  }

  function Try(p: Process, error: Error, inbound: Channel, outbound: Channel): Outcome
    requires p.phase != Done
  {
    if error == OK then Go(p, inbound, outbound) else Exit(p, error, inbound, outbound)
  }

  // One library call.  None when it would block.
  function Step(sha: Sha, p: Process, env: Env, inbound: Channel, outbound: Channel, peerGone: bool): Option<Outcome> {
    match p.phase
    case Start => Some(Begin(p, env, inbound, outbound))
    case Encode =>
      if p.role == Initiator && IsZero(p.nonce) then Some(Exit(p, NONCE, inbound, outbound))
      else if !InWindow(p.deadline, env.now) then Some(Exit(p, DEADLINE, inbound, outbound))
      else Some(Go(Encoded(sha, p), inbound, outbound))
    case Send =>
      if !InWindow(p.deadline, env.now) then Some(Exit(p, DEADLINE, inbound, outbound))
      else if env.fault != OK || peerGone then Some(Exit(p, IO, inbound, outbound))
      else Some(Go(p, inbound, outbound.(sent := outbound.sent + [Message(p.record, false)])))
    case Shutdown =>
      if env.fault != OK then Some(Exit(p, IO, inbound, outbound))
      else Some(Go(p, inbound, outbound.(closed := true)))
    case Receive => ReceiveStep(p, env, inbound, outbound)
    case Decode => Some(Decoded(sha, p, env, inbound, outbound))
    case Eof => EofStep(p, env, inbound, outbound)
    case Done => None
  }

  // The initiator draws its nonce and fixes the one deadline of the exchange; the responder fixes only how
  // long it will wait for a request.
  function Begin(p: Process, env: Env, inbound: Channel, outbound: Channel): Outcome
    requires p.phase == Start
  {
    if env.fault != OK then Exit(p, env.fault, inbound, outbound)
    else if p.role == Initiator && IsZero(env.random) then Exit(p, NONCE, inbound, outbound)
    else
      var limit := DeadlineFrom(env.now, if p.role == Initiator then NEGOTIATION_WINDOW else MAX_DEADLINE_WINDOW);
      if limit.None? then Exit(p, DEADLINE, inbound, outbound)
      else if p.role == Initiator
      then Go(p.(nonce := env.random, deadline := limit.value, limit := limit.value), inbound, outbound)
      else Go(p.(limit := limit.value), inbound, outbound)
  }

  function Encoded(sha: Sha, p: Process): Process {
    match p.role
    case Initiator =>
      var record := NegotiateRecord(sha, p.nonce, p.deadline);
      p.(record := record, requestHash := PacketHash(sha, record))
    case Responder =>
      var hash := PacketHash(sha, p.received);
      p.(requestHash := hash, record := UnavailableRecord(sha, p.nonce, p.deadline, hash))
  }

  function ReceiveStep(p: Process, env: Env, inbound: Channel, outbound: Channel): Option<Outcome>
    requires p.phase == Receive
  {
    if !InWindow(p.limit, env.now) then Some(Exit(p, DEADLINE, inbound, outbound))
    else if env.fault != OK then Some(Exit(p, IO, inbound, outbound))
    else if inbound.taken < |inbound.sent| then
      var m := inbound.sent[inbound.taken];
      Some(Try(p.(received := m.bytes), ReceiveError(m), inbound.(taken := inbound.taken + 1), outbound))
    else if inbound.closed then Some(Exit(p, ANCILLARY, inbound, outbound))
    else None
  }

  // Only an empty and closed channel is an end of file.
  function EofStep(p: Process, env: Env, inbound: Channel, outbound: Channel): Option<Outcome>
    requires p.phase == Eof
  {
    if !InWindow(p.deadline, env.now) then Some(Exit(p, DEADLINE, inbound, outbound))
    else if env.fault != OK then Some(Exit(p, IO, inbound, outbound))
    else if inbound.taken < |inbound.sent| then
      var m := inbound.sent[inbound.taken];
      var error := if |m.bytes| > 1 then TRUNCATED else if m.rights then ANCILLARY else STATE;
      Some(Exit(p, error, inbound.(taken := inbound.taken + 1), outbound))
    else if inbound.closed then Some(Go(p, inbound, outbound))
    else None
  }

  function ReceiveError(m: Message): Error {
    if |m.bytes| > MAX_RECORD then TRUNCATED
    else if m.rights then ANCILLARY
    else if |m.bytes| == 0 then IO
    else if |m.bytes| < HEADER_SIZE then HEADER
    else OK
  }

  function Decoded(sha: Sha, p: Process, env: Env, inbound: Channel, outbound: Channel): Outcome
    requires p.phase == Decode
  {
    match p.role
    case Initiator =>
      Try(p, DecodeUnavailable(sha, p.received, p.nonce, p.deadline, p.requestHash, env.now), inbound, outbound)
    case Responder =>
      var d := DecodeNegotiate(sha, p.received, env.now);
      Try(if d.0 == OK then p.(nonce := d.1, deadline := d.2) else p, d.0, inbound, outbound)
  }
}
