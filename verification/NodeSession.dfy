/**
 The readiness ladder of one control session (protocol/node_session.py).

 `Session` is the value of all fields; the functions on it say what each transition
 makes of that value, and class `NodeSession` updates the fields in place.
 Times are integers in one fixed unit, and the injected verifier's reply is an input.
 */
module NodeSessions {
  import opened Basics

  const SUPPORTED_PROTOCOL_MAJOR := 0
  const CURRENT_PROTOCOL_MINOR := 2

  datatype State =
    | Connected | HelloReceived | Authenticated | CapabilitiesNegotiated
    | ProfileSynced | Ready | Draining | Closed

  /** Position on the ladder; CLOSED is above everything. */
  function Rank(s: State): nat {
    match s
    case Connected => 0
    case HelloReceived => 1
    case Authenticated => 2
    case CapabilitiesNegotiated => 3
    case ProfileSynced => 4
    case Ready => 5
    case Draining => 6
    case Closed => 7
  }

  datatype SessionError =
    | TransitionError | AuthenticationFailed | AuthenticationExpired | CapabilityMismatch
    | ProfileMismatch | ProtocolVersionMismatch | InvalidValue | AssertionFailed | CollaboratorRaised
    | ContractViolated | UnsupportedMessage | IdempotencyConflict | RevisionMismatch
    | ProtocolMismatch | ActorMismatch | BindingError | BenchmarkRejected

  /** A length within 1..limit. */
  predicate Bounded(s: string, limit: nat) {
    1 <= |s| <= limit
  }

  predicate CapabilitySet(caps: set<string>) {
    |caps| <= 256 && forall c :: c in caps ==> Bounded(c, 128)
  }

  datatype HelloInfo = HelloInfo(
    agentVersion: string, platform: string, authMethods: seq<string>,
    capabilities: set<string>, nodeId: Option<string>, major: int, minor: int)
  {
    predicate WellFormed() {
      && major >= 0 && minor >= 0
      && Bounded(agentVersion, 128) && Bounded(platform, 128)
      && 1 <= |authMethods| <= 16
      && (forall m :: m in authMethods ==> Bounded(m, 64))
      && CapabilitySet(capabilities)
      && (nodeId.Some? ==> Bounded(nodeId.value, 128))
    }
  }

  /** What the injected verifier answers when it is asked, including raising. */
  datatype AuthReply =
    | Denied
    | Granted(nodeId: string, principalId: string, expiresAt: int, keyId: Option<string>)
    | VerifierRaised

  datatype Session = Session(
    sessionId: string, challenge: string, state: State, revision: int,
    hello: Option<HelloInfo>, major: Option<int>, minor: Option<int>,
    nodeId: Option<string>, principalId: Option<string>, authMethod: Option<string>,
    expiresAt: Option<int>, negotiated: set<string>, profileRevision: Option<int>,
    drainReason: Option<string>, closeReason: Option<string>, keyId: Option<string>)

  /** Everything but the challenge and the hello record. */
  datatype Snapshot = Snapshot(
    sessionId: string, state: State, revision: int, major: Option<int>, minor: Option<int>,
    nodeId: Option<string>, principalId: Option<string>, authMethod: Option<string>,
    expiresAt: Option<int>, negotiated: set<string>, profileRevision: Option<int>,
    drainReason: Option<string>, closeReason: Option<string>, keyId: Option<string>)

  function SnapshotOf(s: Session): Snapshot {
    Snapshot(s.sessionId, s.state, s.revision, s.major, s.minor, s.nodeId, s.principalId, s.authMethod,
             s.expiresAt, s.negotiated, s.profileRevision, s.drainReason, s.closeReason, s.keyId)
  }

  function FreshSession(sessionId: string, challenge: string): Session {
    Session(sessionId, challenge, Connected, 0, None, None, None, None, None, None,
            None, {}, None, None, None, None)
  }

  function ChallengeOr(challenge: Option<string>, token: string): string {
    match challenge
    case Some(c) => if c != "" then c else token
    case None => token
  }

  function Advanced(s: Session, target: State): Session {
    s.(state := target, revision := s.revision + 1)
  }

  type Outcome = Result<Session, SessionError>

  function AfterHello(s: Session, h: HelloInfo): Outcome {
    if s.state != Connected then Err(TransitionError)
    else if h.major != SUPPORTED_PROTOCOL_MAJOR then Err(ProtocolVersionMismatch)
    else Ok(Advanced(s.(hello := Some(h), major := Some(SUPPORTED_PROTOCOL_MAJOR),
                        minor := Some(Min(h.minor, CURRENT_PROTOCOL_MINOR))), HelloReceived))
  }

  function AfterAuthentication(
    s: Session, method_: string, actor: Option<string>, now: int, reply: AuthReply): Outcome {
    if s.state != HelloReceived then Err(TransitionError)
    else if s.hello.None? then Err(AssertionFailed)
    else if method_ !in s.hello.value.authMethods then Err(AuthenticationFailed)
    else match reply
      case VerifierRaised => Err(CollaboratorRaised)
      case Denied => Err(AuthenticationFailed)
      case Granted(node, principal, expires, key) =>
        if expires <= now then Err(AuthenticationExpired)
        else if s.hello.value.nodeId.Some? && node != s.hello.value.nodeId.value then Err(AuthenticationFailed)
        else if actor.Some? && node != actor.value then Err(AuthenticationFailed)
        else Ok(Identified(s, node, principal, method_, expires, key))
  }

  function Identified(
    s: Session, node: string, principal: string, method_: string, expires: int, key: Option<string>): Session {
    Advanced(s.(nodeId := Some(node), principalId := Some(principal), authMethod := Some(method_),
                expiresAt := Some(expires), keyId := key), Authenticated)
  }

  /** `ensure_auth_valid`: None when the credential may be used. */
  function AuthProblem(s: Session, now: int): Option<SessionError> {
    if s.state in {Connected, HelloReceived, Closed} then Some(AuthenticationFailed)
    else if s.expiresAt.None? then Some(AuthenticationFailed)
    else if s.expiresAt.value <= now then Some(AuthenticationExpired)
    else None
  }

  function AfterNegotiation(s: Session, server: set<string>, required: set<string>, now: int): Outcome {
    if s.state != Authenticated then Err(TransitionError)
    else if AuthProblem(s, now).Some? then Err(AuthProblem(s, now).value)
    else if s.hello.None? then Err(AssertionFailed)
    else if !CapabilitySet(server) || !CapabilitySet(required) then Err(InvalidValue)
    else
      var common := s.hello.value.capabilities * server;
      if !(required <= common) then Err(CapabilityMismatch)
      else Ok(Advanced(s.(negotiated := common), CapabilitiesNegotiated))
  }

  function AfterProfile(s: Session, profile: int, now: int): Outcome {
    if s.state != CapabilitiesNegotiated then Err(TransitionError)
    else if AuthProblem(s, now).Some? then Err(AuthProblem(s, now).value)
    else if profile < 0 then Err(InvalidValue)
    else Ok(Advanced(s.(profileRevision := Some(profile)), ProfileSynced))
  }

  function AfterBenchmark(s: Session, profile: int, accepted: bool, now: int): Outcome {
    if s.state != ProfileSynced then Err(TransitionError)
    else if AuthProblem(s, now).Some? then Err(AuthProblem(s, now).value)
    else if s.profileRevision != Some(profile) then Err(ProfileMismatch)
    else if !accepted then Err(ProfileMismatch)
    else Ok(Advanced(s, Ready))
  }

  function AfterDrain(s: Session, reason: string, now: int): Outcome {
    if s.state != Ready then Err(TransitionError)
    else if AuthProblem(s, now).Some? then Err(AuthProblem(s, now).value)
    else if !Bounded(reason, 512) then Err(InvalidValue)
    else Ok(Advanced(s.(drainReason := Some(reason)), Draining))
  }

  function AfterTermination(s: Session, reason: string): Outcome {
    if s.state == Closed then Ok(s)
    else if !Bounded(reason, 512) then Err(InvalidValue)
    else Ok(Advanced(s.(closeReason := Some(reason)), Closed))
  }

  /** The session object. Every method makes of the fields what its `After...` function
      makes of their value, and on an error leaves every field alone. */
  class NodeSession {
    const sessionId: string
    const challenge: string
    var state: State
    var revision: int
    var hello: Option<HelloInfo>
    var major: Option<int>
    var minor: Option<int>
    var nodeId: Option<string>
    var principalId: Option<string>
    var authMethod: Option<string>
    var expiresAt: Option<int>
    var negotiated: set<string>
    var profileRevision: Option<int>
    var drainReason: Option<string>
    var closeReason: Option<string>
    var keyId: Option<string>

    function View(): Session reads this {
      Session(sessionId, challenge, state, revision, hello, major, minor, nodeId, principalId, authMethod,
              expiresAt, negotiated, profileRevision, drainReason, closeReason, keyId)
    }

    /** A checked session; without a challenge, or with an empty one, a random token is used. */
    static method Create(sessionId: string, challenge: Option<string>, token: string)
      returns (r: Result<NodeSession, SessionError>)
      ensures r.Ok? <==> Bounded(sessionId, 128) && 16 <= |ChallengeOr(challenge, token)| <= 512
      ensures r.Err? ==> r.error == InvalidValue
      ensures r.Ok? ==> fresh(r.value) && r.value.View() == FreshSession(sessionId, ChallengeOr(challenge, token))
    {
      if !Bounded(sessionId, 128) { return Err(InvalidValue); }
      var value := if challenge.Some? && challenge.value != "" then challenge.value else token;
      if !(16 <= |value| <= 512) { return Err(InvalidValue); }
      var session := new NodeSession(sessionId, value);
      return Ok(session);
    }

    constructor (sessionId: string, challenge: string)
      ensures View() == FreshSession(sessionId, challenge)
    {
      this.sessionId, this.challenge := sessionId, challenge;
      state, revision := Connected, 0;
      hello, major, minor := None, None, None;
      nodeId, principalId, authMethod, expiresAt := None, None, None, None;
      negotiated, profileRevision, drainReason, closeReason, keyId := {}, None, None, None, None;
    }

    method Advance(target: State)
      modifies this
      ensures View() == Advanced(old(View()), target)
    {
      state := target;
      revision := revision + 1;
    }

    method ReceiveHello(h: HelloInfo) returns (error: Option<SessionError>)
      modifies this
      ensures Applied(old(View()), AfterHello(old(View()), h), View(), error)
    {
      if state != Connected { return Some(TransitionError); }
      if h.major != SUPPORTED_PROTOCOL_MAJOR { return Some(ProtocolVersionMismatch); }
      hello := Some(h);
      major := Some(SUPPORTED_PROTOCOL_MAJOR);
      minor := Some(Min(h.minor, CURRENT_PROTOCOL_MINOR));
      Advance(HelloReceived);
      return None;
    }

    method Authenticate(method_: string, actor: Option<string>, now: int, reply: AuthReply)
      returns (error: Option<SessionError>)
      modifies this
      ensures Applied(old(View()), AfterAuthentication(old(View()), method_, actor, now, reply), View(), error)
    {
      if state != HelloReceived { return Some(TransitionError); }
      if hello.None? { return Some(AssertionFailed); }
      if method_ !in hello.value.authMethods { return Some(AuthenticationFailed); }
      match reply {
        case VerifierRaised => return Some(CollaboratorRaised);
        case Denied => return Some(AuthenticationFailed);
        case Granted(node, principal, expires, key) =>
          if expires <= now { return Some(AuthenticationExpired); }
          if hello.value.nodeId.Some? && node != hello.value.nodeId.value { return Some(AuthenticationFailed); }
          if actor.Some? && node != actor.value { return Some(AuthenticationFailed); }
          Identify(node, principal, method_, expires, key);
          return None;
      }
    }

    /** Takes over the verified identity and moves on. */
    method Identify(node: string, principal: string, method_: string, expires: int, key: Option<string>)
      modifies this
      ensures View() == Identified(old(View()), node, principal, method_, expires, key)
    {
      nodeId := Some(node);
      principalId := Some(principal);
      authMethod := Some(method_);
      expiresAt := Some(expires);
      keyId := key;
      Advance(Authenticated);
    }

    method EnsureAuthValid(now: int) returns (error: Option<SessionError>)
      ensures error == AuthProblem(View(), now)
    {
      if state in {Connected, HelloReceived, Closed} { return Some(AuthenticationFailed); }
      if expiresAt.None? { return Some(AuthenticationFailed); }
      if expiresAt.value <= now { return Some(AuthenticationExpired); }
      return None;
    }

    method NegotiateCapabilities(server: set<string>, required: set<string>, now: int)
      returns (error: Option<SessionError>)
      modifies this
      ensures Applied(old(View()), AfterNegotiation(old(View()), server, required, now), View(), error)
    {
      if state != Authenticated { return Some(TransitionError); }
      error := EnsureAuthValid(now);
      if error.Some? { return; }
      if hello.None? { return Some(AssertionFailed); }
      if !CapabilitySet(server) || !CapabilitySet(required) { return Some(InvalidValue); }
      var common := hello.value.capabilities * server;
      if !(required <= common) { return Some(CapabilityMismatch); }
      negotiated := common;
      Advance(CapabilitiesNegotiated);
      return None;
    }

    method SyncProfile(profile: int, now: int) returns (error: Option<SessionError>)
      modifies this
      ensures Applied(old(View()), AfterProfile(old(View()), profile, now), View(), error)
    {
      if state != CapabilitiesNegotiated { return Some(TransitionError); }
      error := EnsureAuthValid(now);
      if error.Some? { return; }
      if profile < 0 { return Some(InvalidValue); }
      profileRevision := Some(profile);
      Advance(ProfileSynced);
      return None;
    }

    method AcceptBenchmarkStatus(profile: int, accepted: bool, now: int) returns (error: Option<SessionError>)
      modifies this
      ensures Applied(old(View()), AfterBenchmark(old(View()), profile, accepted, now), View(), error)
    {
      if state != ProfileSynced { return Some(TransitionError); }
      error := EnsureAuthValid(now);
      if error.Some? { return; }
      if profileRevision != Some(profile) { return Some(ProfileMismatch); }
      if !accepted { return Some(ProfileMismatch); }
      Advance(Ready);
      return None;
    }

    method Drain(reason: string, now: int) returns (error: Option<SessionError>)
      modifies this
      ensures Applied(old(View()), AfterDrain(old(View()), reason, now), View(), error)
    {
      if state != Ready { return Some(TransitionError); }
      error := EnsureAuthValid(now);
      if error.Some? { return; }
      if !Bounded(reason, 512) { return Some(InvalidValue); }
      drainReason := Some(reason);
      Advance(Draining);
      return None;
    }

    method Terminate(reason: string) returns (error: Option<SessionError>)
      modifies this
      ensures Applied(old(View()), AfterTermination(old(View()), reason), View(), error)
    {
      if state == Closed { return None; }
      if !Bounded(reason, 512) { return Some(InvalidValue); }
      closeReason := Some(reason);
      Advance(Closed);
      return None;
    }
  }

  /** A transition either lands on its outcome's value or reports its error and changes nothing. */
  predicate Applied(before: Session, outcome: Outcome, after: Session, error: Option<SessionError>) {
    match outcome
    case Ok(s) => error.None? && after == s
    case Err(e) => error == Some(e) && after == before
  }

}
