/**
 Control envelopes driving one session (protocol/session_wire.py): contract check,
 replay table, optimistic revision, then the message itself.
 */
module SessionWire {
  import opened Basics
  import opened NodeSessions

  /** The message families. `body` stands for the payload fields no check looks at;
      they still take part in the fingerprint. */
  datatype Payload =
    | NodeHello(major: int, minor: int, agentVersion: string, platform: string,
                authMethods: seq<string>, capabilities: seq<string>, helloNodeId: Option<string>)
    | NodeAuthenticate(authMethod: string, credential: string)
    | CapabilityNegotiation(accepted: seq<string>)
    | NodeProfileUpdate(nodeId: string, profileRevision: int, body: string)
    | ModelCatalogueUpdate(nodeId: string, profileRevision: int, body: string)
    | BenchmarkReport(profileRevision: int, body: string)
    | DrainRequest(reason: string)
    | OtherMessage(messageType: string, body: string)

  datatype Envelope = Envelope(
    major: int, minor: int, requestId: string, correlationId: string, actorId: string, targetId: string,
    issuedAt: int, expiresAt: int, expectedRevision: int, payload: Payload)

  /** The fields that are hashed; the request id, correlation id and times are not among them. */
  datatype Fingerprint = Fingerprint(
    major: int, minor: int, actorId: string, targetId: string, expectedRevision: int, payload: Payload)

  function FingerprintOf(e: Envelope): Fingerprint {
    Fingerprint(e.major, e.minor, e.actorId, e.targetId, e.expectedRevision, e.payload)
  }

  datatype ContractVerdict = Conforms | UnknownType | Violates

  datatype BenchmarkReply = Rejected | AcceptedPending | AcceptedReady | PolicyRaised

  /** What verifier and policy would answer if consulted while this message is handled. */
  datatype Replies = Replies(auth: AuthReply, benchmark: BenchmarkReply)

  datatype Config = Config(
    controlPlane: set<string>, required: set<string>, contracts: Payload -> ContractVerdict)

  datatype ReplayRecord = ReplayRecord(fingerprint: Fingerprint, snapshot: Snapshot)

  datatype Handler = Handler(session: Session, replays: map<string, ReplayRecord>)

  datatype Answer = Accepted(snapshot: Snapshot) | Refused(error: SessionError)

  function ToSet(s: seq<string>): set<string> {
    set x | x in s
  }

  function HelloOf(p: Payload): HelloInfo
    requires p.NodeHello?
  {
    HelloInfo(p.agentVersion, p.platform, p.authMethods, ToSet(p.capabilities), p.helloNodeId, p.major, p.minor)
  }

  function ProtocolProblem(s: Session, e: Envelope): Option<SessionError> {
    if s.major.None? || s.minor.None? then Some(ProtocolMismatch)
    else if e.major != s.major.value || e.minor != s.minor.value then Some(ProtocolMismatch)
    else None
  }

  function ActorProblem(s: Session, e: Envelope): Option<SessionError> {
    if s.nodeId != Some(e.actorId) then Some(ActorMismatch) else None
  }

  /** Negotiated version first, then the authenticated actor. */
  function BindingProblem(s: Session, e: Envelope): Option<SessionError> {
    if ProtocolProblem(s, e).Some? then ProtocolProblem(s, e) else ActorProblem(s, e)
  }

  /** A first-time message with the right revision. */
  function Dispatch(cfg: Config, s: Session, e: Envelope, now: int, replies: Replies): Outcome {
    match e.payload
    case NodeHello(major, minor, _, _, _, _, _) =>
      if major != e.major || minor != e.minor then Err(ProtocolMismatch)
      else if !HelloOf(e.payload).WellFormed() then Err(InvalidValue)
      else AfterHello(s, HelloOf(e.payload))
    case NodeAuthenticate(method_, credential) =>
      if ProtocolProblem(s, e).Some? then Err(ProtocolProblem(s, e).value)
      else if !Bounded(method_, 64) || !Bounded(credential, 16384) then Err(InvalidValue)
      else AfterAuthentication(s, method_, Some(e.actorId), now, replies.auth)
    case CapabilityNegotiation(accepted) =>
      if BindingProblem(s, e).Some? then Err(BindingProblem(s, e).value)
      else if s.hello.None? then Err(AssertionFailed)
      else if !(ToSet(accepted) <= s.hello.value.capabilities * cfg.controlPlane) then Err(CapabilityMismatch)
      else AfterNegotiation(s, ToSet(accepted), cfg.required, now)
    case NodeProfileUpdate(node, profile, _) =>
      if BindingProblem(s, e).Some? then Err(BindingProblem(s, e).value)
      else if Some(node) != s.nodeId then Err(BindingError)
      else AfterProfile(s, profile, now)
    case ModelCatalogueUpdate(node, profile, _) =>
      if BindingProblem(s, e).Some? then Err(BindingProblem(s, e).value)
      else if s.state != ProfileSynced && s.state != Ready then Err(TransitionError)
      else if AuthProblem(s, now).Some? then Err(AuthProblem(s, now).value)
      else if Some(node) != s.nodeId then Err(BindingError)
      else if Some(profile) != s.profileRevision then Err(ProfileMismatch)
      else Ok(s)
    case BenchmarkReport(profile, _) =>
      if BindingProblem(s, e).Some? then Err(BindingProblem(s, e).value)
      else if s.state != ProfileSynced then Err(TransitionError)
      else if AuthProblem(s, now).Some? then Err(AuthProblem(s, now).value)
      else if Some(profile) != s.profileRevision then Err(ProfileMismatch)
      else (match replies.benchmark
            case PolicyRaised => Err(CollaboratorRaised)
            case Rejected => Err(SessionError.BenchmarkRejected)
            case AcceptedPending => Ok(s)
            case AcceptedReady => AfterBenchmark(s, profile, true, now))
    case DrainRequest(reason) =>
      if BindingProblem(s, e).Some? then Err(BindingProblem(s, e).value)
      else AfterDrain(s, reason, now)
    case OtherMessage(_, _) => Err(UnsupportedMessage)
  }

  /** Contract verdict, replay table and revision around the outcome of the message itself. */
  function Conclude(h: Handler, e: Envelope, verdict: ContractVerdict, outcome: Outcome): (Handler, Answer) {
    if verdict == UnknownType then (h, Refused(UnsupportedMessage))
    else if verdict == Violates then (h, Refused(ContractViolated))
    else if e.requestId in h.replays then
      var prior := h.replays[e.requestId];
      if prior.fingerprint != FingerprintOf(e) then (h, Refused(IdempotencyConflict))
      else (h, Accepted(prior.snapshot))
    else if e.expectedRevision != h.session.revision then (h, Refused(RevisionMismatch))
    else match outcome
      case Err(error) => (h, Refused(error))
      case Ok(s) =>
        var record := ReplayRecord(FingerprintOf(e), SnapshotOf(s));
        (Handler(s, h.replays[e.requestId := record]), Accepted(SnapshotOf(s)))
  }

  function HandleMessage(cfg: Config, h: Handler, e: Envelope, now: int, replies: Replies): (Handler, Answer) {
    Conclude(h, e, cfg.contracts(e.payload), Dispatch(cfg, h.session, e, now, replies))
  }

  class NodeSessionWireHandler {
    const config: Config
    const session: NodeSession
    var replays: map<string, ReplayRecord>

    function View(): Handler reads this, session {
      Handler(session.View(), replays)
    }

    /** A handler for well-formed capability sets; other sets are refused. */
    static method Create(session: NodeSession, config: Config) returns (r: Result<NodeSessionWireHandler, SessionError>)
      ensures r.Ok? <==> CapabilitySet(config.controlPlane) && CapabilitySet(config.required)
      ensures r.Err? ==> r.error == InvalidValue
      ensures r.Ok? ==>
        && fresh(r.value) && r.value.session == session && r.value.config == config
        && r.value.View() == Handler(session.View(), map[])
    {
      if !CapabilitySet(config.controlPlane) || !CapabilitySet(config.required) { return Err(InvalidValue); }
      var handler := new NodeSessionWireHandler(session, config);
      return Ok(handler);
    }

    constructor (session: NodeSession, config: Config)
      requires CapabilitySet(config.controlPlane) && CapabilitySet(config.required)
      ensures this.session == session && this.config == config
      ensures View() == Handler(session.View(), map[])
    {
      this.session, this.config, replays := session, config, map[];
    }

    method Handle(e: Envelope, now: int, replies: Replies) returns (answer: Answer)
      modifies this, session
      ensures (View(), answer) == HandleMessage(config, old(View()), e, now, replies)
    {
      var verdict := config.contracts(e.payload);
      if verdict == UnknownType { return Refused(UnsupportedMessage); }
      if verdict == Violates { return Refused(ContractViolated); }
      var fingerprint := FingerprintOf(e);
      if e.requestId in replays {
        if replays[e.requestId].fingerprint != fingerprint { return Refused(IdempotencyConflict); }
        return Accepted(replays[e.requestId].snapshot);
      }
      if e.expectedRevision != session.revision { return Refused(RevisionMismatch); }
      var error := Route(e, now, replies);
      if error.Some? { return Refused(error.value); }
      var snapshot := SnapshotOf(session.View());
      replays := replays[e.requestId := ReplayRecord(fingerprint, snapshot)];
      return Accepted(snapshot);
    }

    method CheckBinding(e: Envelope) returns (error: Option<SessionError>)
      ensures error == BindingProblem(session.View(), e)
    {
      if session.major.None? || session.minor.None? { return Some(ProtocolMismatch); }
      if e.major != session.major.value || e.minor != session.minor.value { return Some(ProtocolMismatch); }
      if session.nodeId != Some(e.actorId) { return Some(ActorMismatch); }
      return None;
    }

    /** The chain of message types inside `handle`. */
    method Route(e: Envelope, now: int, replies: Replies) returns (error: Option<SessionError>)
      modifies session
      ensures Applied(old(session.View()), Dispatch(config, old(session.View()), e, now, replies),
                      session.View(), error)
    {
      match e.payload {
        case NodeHello(major, minor, _, _, _, _, _) =>
          if major != e.major || minor != e.minor { return Some(ProtocolMismatch); }
          if !HelloOf(e.payload).WellFormed() { return Some(InvalidValue); }
          error := session.ReceiveHello(HelloOf(e.payload));
        case NodeAuthenticate(method_, credential) =>
          if ProtocolProblem(session.View(), e).Some? { return ProtocolProblem(session.View(), e); }
          if !Bounded(method_, 64) || !Bounded(credential, 16384) { return Some(InvalidValue); }
          error := session.Authenticate(method_, Some(e.actorId), now, replies.auth);
        case OtherMessage(_, _) =>
          return Some(UnsupportedMessage);
        case _ =>
          error := CheckBinding(e);
          if error.Some? { return; }
          error := RouteBound(e, now, replies);
      }
    }

    /** Messages of the authenticated node, once version and actor have matched. */
    method RouteBound(e: Envelope, now: int, replies: Replies) returns (error: Option<SessionError>)
      requires !e.payload.NodeHello? && !e.payload.NodeAuthenticate? && !e.payload.OtherMessage?
      requires BindingProblem(session.View(), e).None?
      modifies session
      ensures Applied(old(session.View()), Dispatch(config, old(session.View()), e, now, replies),
                      session.View(), error)
    {
      match e.payload {
        case CapabilityNegotiation(accepted) =>
          if session.hello.None? { return Some(AssertionFailed); }
          var allowed := session.hello.value.capabilities * config.controlPlane;
          if !(ToSet(accepted) <= allowed) { return Some(CapabilityMismatch); }
          error := session.NegotiateCapabilities(ToSet(accepted), config.required, now);
        case NodeProfileUpdate(node, profile, _) =>
          if Some(node) != session.nodeId { return Some(BindingError); }
          error := session.SyncProfile(profile, now);
        case ModelCatalogueUpdate(node, profile, _) =>
          if session.state != ProfileSynced && session.state != Ready { return Some(TransitionError); }
          error := session.EnsureAuthValid(now);
          if error.Some? { return; }
          if Some(node) != session.nodeId { return Some(BindingError); }
          if Some(profile) != session.profileRevision { return Some(ProfileMismatch); }
        case BenchmarkReport(profile, _) =>
          if session.state != ProfileSynced { return Some(TransitionError); }
          error := session.EnsureAuthValid(now);
          if error.Some? { return; }
          if Some(profile) != session.profileRevision { return Some(ProfileMismatch); }
          match replies.benchmark {
            case PolicyRaised => return Some(CollaboratorRaised);
            case Rejected => return Some(SessionError.BenchmarkRejected);
            case AcceptedPending => return None;
            case AcceptedReady => error := session.AcceptBenchmarkStatus(profile, true, now);
          }
        case DrainRequest(reason) =>
          error := session.Drain(reason, now);
      }
    }
  }
}
