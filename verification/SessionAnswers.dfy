/**
 When each message is accepted, what it changes, and which refusal it gets otherwise: every
 answer of the envelope handler in terms of the session, the envelope and the replies alone.
 */
module SessionAnswers {
  import opened Basics
  import opened NodeSessions
  import opened SessionWire

  // --------------------------------------------------- conditions on fields

  predicate SameVersion(s: Session, e: Envelope) {
    s.major == Some(e.major) && s.minor == Some(e.minor)
  }

  /** The envelope carries the negotiated version and the authenticated node. */
  predicate FromNode(s: Session, e: Envelope) {
    SameVersion(s, e) && s.nodeId == Some(e.actorId)
  }

  predicate Unexpired(s: Session, now: int) {
    s.expiresAt.Some? && now < s.expiresAt.value
  }

  predicate Names(names: set<string>) {
    |names| <= 256 && forall c :: c in names ==> 1 <= |c| <= 128
  }

  predicate HelloFields(p: Payload)
    requires p.NodeHello?
  {
    && p.major >= 0 && p.minor >= 0
    && 1 <= |p.agentVersion| <= 128 && 1 <= |p.platform| <= 128
    && 1 <= |p.authMethods| <= 16 && (forall m :: m in p.authMethods ==> 1 <= |m| <= 64)
    && Names(set c | c in p.capabilities)
    && (p.helloNodeId.Some? ==> 1 <= |p.helloNodeId.value| <= 128)
  }

  /** The session moves to `state` with one more revision. */
  function Moved(s: Session, state: State): Session {
    s.(state := state, revision := s.revision + 1)
  }

  // -------------------------------------------------------- message by message

  predicate HelloSpec(cfg: Config, s: Session, e: Envelope, now: int, replies: Replies, r: Outcome)
    requires e.payload.NodeHello?
  {
    var p := e.payload;
    var matching := p.major == e.major && p.minor == e.minor;
    && (r == Err(ProtocolMismatch) <==> !matching)
    && (r == Err(InvalidValue) <==> matching && !HelloFields(p))
    && (r == Err(TransitionError) <==> matching && HelloFields(p) && s.state != Connected)
    && (r == Err(ProtocolVersionMismatch) <==>
          matching && HelloFields(p) && s.state == Connected && p.major != 0)
    && (r.Ok? <==> matching && HelloFields(p) && s.state == Connected && p.major == 0)
    && (r.Ok? ==>
          && r.value.hello == Some(HelloInfo(p.agentVersion, p.platform, p.authMethods,
                                             (set c | c in p.capabilities), p.helloNodeId, p.major, p.minor))
          && r.value.major == Some(0) && r.value.minor == Some(if p.minor <= 2 then p.minor else 2)
          && r.value == Moved(s.(hello := r.value.hello, major := r.value.major, minor := r.value.minor),
                              HelloReceived))
  }

  lemma HelloExactly(cfg: Config, s: Session, e: Envelope, now: int, replies: Replies)
    requires e.payload.NodeHello?
    ensures HelloSpec(cfg, s, e, now, replies, Dispatch(cfg, s, e, now, replies))
  {
  }

  /** The identity that the verifier grants fits the hello and the actor. */
  predicate GrantFits(s: Session, e: Envelope, g: AuthReply)
    requires s.hello.Some? && g.Granted?
  {
    (s.hello.value.nodeId.Some? ==> s.hello.value.nodeId.value == g.nodeId) && g.nodeId == e.actorId
  }

  predicate AuthenticateSpec(cfg: Config, s: Session, e: Envelope, now: int, replies: Replies, r: Outcome)
    requires e.payload.NodeAuthenticate?
  {
    var p, g := e.payload, replies.auth;
    var sized := 1 <= |p.authMethod| <= 64 && 1 <= |p.credential| <= 16384;
    var asked := SameVersion(s, e) && sized && s.state == HelloReceived && s.hello.Some?
                 && p.authMethod in s.hello.value.authMethods;
    && (r == Err(ProtocolMismatch) <==> !SameVersion(s, e))
    && (r == Err(InvalidValue) <==> SameVersion(s, e) && !sized)
    && (r == Err(TransitionError) <==> SameVersion(s, e) && sized && s.state != HelloReceived)
    && (r == Err(AssertionFailed) <==> SameVersion(s, e) && sized && s.state == HelloReceived && s.hello.None?)
    && (r == Err(CollaboratorRaised) <==> asked && g.VerifierRaised?)
    && (r == Err(AuthenticationExpired) <==> asked && g.Granted? && g.expiresAt <= now)
    && (r == Err(AuthenticationFailed) <==>
          && SameVersion(s, e) && sized && s.state == HelloReceived && s.hello.Some?
          && (|| p.authMethod !in s.hello.value.authMethods || g.Denied?
              || (g.Granted? && now < g.expiresAt && !GrantFits(s, e, g))))
    && (r.Ok? <==> asked && g.Granted? && now < g.expiresAt && GrantFits(s, e, g))
    && (r.Ok? ==>
          r.value == Moved(s.(nodeId := Some(g.nodeId), principalId := Some(g.principalId),
                              authMethod := Some(p.authMethod), expiresAt := Some(g.expiresAt), keyId := g.keyId),
                           Authenticated))
  }

  lemma AuthenticateExactly(cfg: Config, s: Session, e: Envelope, now: int, replies: Replies)
    requires e.payload.NodeAuthenticate?
    ensures AuthenticateSpec(cfg, s, e, now, replies, Dispatch(cfg, s, e, now, replies))
  {
  }

  predicate NegotiationSpec(cfg: Config, s: Session, e: Envelope, now: int, replies: Replies, r: Outcome)
    requires e.payload.CapabilityNegotiation?
  {
    var accepted := set c | c in e.payload.accepted;
    var offered := s.hello.Some? && accepted <= s.hello.value.capabilities && accepted <= cfg.controlPlane;
    var open := FromNode(s, e) && offered && s.state == Authenticated;
    && (r == Err(ProtocolMismatch) <==> !SameVersion(s, e))
    && (r == Err(ActorMismatch) <==> SameVersion(s, e) && !FromNode(s, e))
    && (r == Err(AssertionFailed) <==> FromNode(s, e) && s.hello.None?)
    && (r == Err(TransitionError) <==> FromNode(s, e) && offered && s.state != Authenticated)
    && (r == Err(AuthenticationFailed) <==> open && s.expiresAt.None?)
    && (r == Err(AuthenticationExpired) <==> open && s.expiresAt.Some? && s.expiresAt.value <= now)
    && (r == Err(InvalidValue) <==> open && Unexpired(s, now) && !(Names(accepted) && Names(cfg.required)))
    && (r == Err(CapabilityMismatch) <==>
          && FromNode(s, e) && s.hello.Some?
          && (|| !offered
              || (&& open && Unexpired(s, now) && Names(accepted) && Names(cfg.required)
                  && !(cfg.required <= accepted))))
    && (r.Ok? <==> open && Unexpired(s, now) && Names(accepted) && Names(cfg.required) && cfg.required <= accepted)
    && (r.Ok? ==> r.value == Moved(s.(negotiated := accepted), CapabilitiesNegotiated))
  }

  lemma NegotiationExactly(cfg: Config, s: Session, e: Envelope, now: int, replies: Replies)
    requires e.payload.CapabilityNegotiation?
    ensures NegotiationSpec(cfg, s, e, now, replies, Dispatch(cfg, s, e, now, replies))
  {
    if s.hello.Some? {
      var accepted := set c | c in e.payload.accepted;
      assert accepted == ToSet(e.payload.accepted);
      assert accepted <= s.hello.value.capabilities ==> s.hello.value.capabilities * accepted == accepted;
    }
  }

  predicate ProfileSpec(cfg: Config, s: Session, e: Envelope, now: int, replies: Replies, r: Outcome)
    requires e.payload.NodeProfileUpdate?
  {
    var p := e.payload;
    var own := FromNode(s, e) && p.nodeId == e.actorId;
    var open := own && s.state == CapabilitiesNegotiated;
    && (r == Err(ProtocolMismatch) <==> !SameVersion(s, e))
    && (r == Err(ActorMismatch) <==> SameVersion(s, e) && !FromNode(s, e))
    && (r == Err(BindingError) <==> FromNode(s, e) && p.nodeId != e.actorId)
    && (r == Err(TransitionError) <==> own && s.state != CapabilitiesNegotiated)
    && (r == Err(AuthenticationFailed) <==> open && s.expiresAt.None?)
    && (r == Err(AuthenticationExpired) <==> open && s.expiresAt.Some? && s.expiresAt.value <= now)
    && (r == Err(InvalidValue) <==> open && Unexpired(s, now) && p.profileRevision < 0)
    && (r.Ok? <==> open && Unexpired(s, now) && p.profileRevision >= 0)
    && (r.Ok? ==> r.value == Moved(s.(profileRevision := Some(p.profileRevision)), ProfileSynced))
  }

  lemma ProfileExactly(cfg: Config, s: Session, e: Envelope, now: int, replies: Replies)
    requires e.payload.NodeProfileUpdate?
    ensures ProfileSpec(cfg, s, e, now, replies, Dispatch(cfg, s, e, now, replies))
  {
  }

  predicate CatalogueSpec(cfg: Config, s: Session, e: Envelope, now: int, replies: Replies, r: Outcome)
    requires e.payload.ModelCatalogueUpdate?
  {
    var p := e.payload;
    var open := FromNode(s, e) && (s.state == ProfileSynced || s.state == Ready);
    && (r == Err(ProtocolMismatch) <==> !SameVersion(s, e))
    && (r == Err(ActorMismatch) <==> SameVersion(s, e) && !FromNode(s, e))
    && (r == Err(TransitionError) <==> FromNode(s, e) && s.state != ProfileSynced && s.state != Ready)
    && (r == Err(AuthenticationFailed) <==> open && s.expiresAt.None?)
    && (r == Err(AuthenticationExpired) <==> open && s.expiresAt.Some? && s.expiresAt.value <= now)
    && (r == Err(BindingError) <==> open && Unexpired(s, now) && p.nodeId != e.actorId)
    && (r == Err(ProfileMismatch) <==>
          open && Unexpired(s, now) && p.nodeId == e.actorId && s.profileRevision != Some(p.profileRevision))
    && (r.Ok? <==>
          open && Unexpired(s, now) && p.nodeId == e.actorId && s.profileRevision == Some(p.profileRevision))
    && (r.Ok? ==> r.value == s)
  }

  lemma CatalogueExactly(cfg: Config, s: Session, e: Envelope, now: int, replies: Replies)
    requires e.payload.ModelCatalogueUpdate?
    ensures CatalogueSpec(cfg, s, e, now, replies, Dispatch(cfg, s, e, now, replies))
  {
  }

  /** The policy decides: READY exactly for a report that is accepted and ready, no change exactly for
      one that is accepted and not ready, and a refusal for all others. */
  predicate BenchmarkSpec(cfg: Config, s: Session, e: Envelope, now: int, replies: Replies, r: Outcome)
    requires e.payload.BenchmarkReport?
  {
    var p := e.payload;
    var open := FromNode(s, e) && s.state == ProfileSynced;
    var judged := open && Unexpired(s, now) && s.profileRevision == Some(p.profileRevision);
    && (r == Err(ProtocolMismatch) <==> !SameVersion(s, e))
    && (r == Err(ActorMismatch) <==> SameVersion(s, e) && !FromNode(s, e))
    && (r == Err(TransitionError) <==> FromNode(s, e) && s.state != ProfileSynced)
    && (r == Err(AuthenticationFailed) <==> open && s.expiresAt.None?)
    && (r == Err(AuthenticationExpired) <==> open && s.expiresAt.Some? && s.expiresAt.value <= now)
    && (r == Err(ProfileMismatch) <==> open && Unexpired(s, now) && s.profileRevision != Some(p.profileRevision))
    && (r == Err(CollaboratorRaised) <==> judged && replies.benchmark.PolicyRaised?)
    && (r == Err(SessionError.BenchmarkRejected) <==> judged && replies.benchmark.Rejected?)
    && (r == Ok(s) <==> judged && replies.benchmark.AcceptedPending?)
    && (r == Ok(Moved(s, Ready)) <==> judged && replies.benchmark.AcceptedReady?)
  }

  lemma BenchmarkExactly(cfg: Config, s: Session, e: Envelope, now: int, replies: Replies)
    requires e.payload.BenchmarkReport?
    ensures BenchmarkSpec(cfg, s, e, now, replies, Dispatch(cfg, s, e, now, replies))
  {
  }

  predicate DrainSpec(cfg: Config, s: Session, e: Envelope, now: int, replies: Replies, r: Outcome)
    requires e.payload.DrainRequest?
  {
    var p := e.payload;
    var open := FromNode(s, e) && s.state == Ready;
    && (r == Err(ProtocolMismatch) <==> !SameVersion(s, e))
    && (r == Err(ActorMismatch) <==> SameVersion(s, e) && !FromNode(s, e))
    && (r == Err(TransitionError) <==> FromNode(s, e) && s.state != Ready)
    && (r == Err(AuthenticationFailed) <==> open && s.expiresAt.None?)
    && (r == Err(AuthenticationExpired) <==> open && s.expiresAt.Some? && s.expiresAt.value <= now)
    && (r == Err(InvalidValue) <==> open && Unexpired(s, now) && !(1 <= |p.reason| <= 512))
    && (r.Ok? <==> open && Unexpired(s, now) && 1 <= |p.reason| <= 512)
    && (r.Ok? ==> r.value == Moved(s.(drainReason := Some(p.reason)), Draining))
  }

  lemma DrainExactly(cfg: Config, s: Session, e: Envelope, now: int, replies: Replies)
    requires e.payload.DrainRequest?
    ensures DrainSpec(cfg, s, e, now, replies, Dispatch(cfg, s, e, now, replies))
  {
  }

  /** Closing, from outside the handler. */
  lemma TerminationExactly(s: Session, reason: string)
    ensures var r := AfterTermination(s, reason);
      && (s.state == Closed ==> r == Ok(s))
      && (s.state != Closed && 1 <= |reason| <= 512 ==> r == Ok(Moved(s.(closeReason := Some(reason)), Closed)))
      && (s.state != Closed && !(1 <= |reason| <= 512) ==> r == Err(InvalidValue))
  {
  }

  /** What the handler never asks for: no actor to compare, and a status that is not accepted. */
  lemma DirectCallsExactly(s: Session, m: string, now: int, g: AuthReply, profile: int)
    ensures AfterAuthentication(s, m, None, now, g).Ok? <==>
      && s.state == HelloReceived && s.hello.Some? && m in s.hello.value.authMethods && g.Granted? && now < g.expiresAt
      && (s.hello.value.nodeId.Some? ==> s.hello.value.nodeId.value == g.nodeId)
    ensures AfterBenchmark(s, profile, false, now).Err?
    ensures s.state == ProfileSynced && Unexpired(s, now) ==>
      AfterBenchmark(s, profile, false, now) == Err(ProfileMismatch)
  {
  }

  // ------------------------------------------------------------ the envelope

  /** Two envelopes say the same, apart from request id, correlation id and times. */
  predicate SameSemantics(e: Envelope, f: Envelope) {
    && e.major == f.major && e.minor == f.minor && e.actorId == f.actorId && e.targetId == f.targetId
    && e.expectedRevision == f.expectedRevision && e.payload == f.payload
  }

  /** The fingerprint covers exactly that. */
  lemma FingerprintExactly(e: Envelope, f: Envelope)
    ensures FingerprintOf(e) == FingerprintOf(f) <==> SameSemantics(e, f)
  {
  }

  /** A snapshot shows every public field of the session. */
  predicate Shows(v: Snapshot, s: Session) {
    && v.sessionId == s.sessionId && v.state == s.state && v.revision == s.revision
    && v.major == s.major && v.minor == s.minor && v.nodeId == s.nodeId && v.principalId == s.principalId
    && v.authMethod == s.authMethod && v.expiresAt == s.expiresAt && v.negotiated == s.negotiated
    && v.profileRevision == s.profileRevision && v.drainReason == s.drainReason
    && v.closeReason == s.closeReason && v.keyId == s.keyId
  }

  /** What becomes of a message that is new and has the right revision. */
  predicate MessageSpec(cfg: Config, s: Session, e: Envelope, now: int, replies: Replies, r: Outcome) {
    match e.payload
    case NodeHello(_, _, _, _, _, _, _) => HelloSpec(cfg, s, e, now, replies, r)
    case NodeAuthenticate(_, _) => AuthenticateSpec(cfg, s, e, now, replies, r)
    case CapabilityNegotiation(_) => NegotiationSpec(cfg, s, e, now, replies, r)
    case NodeProfileUpdate(_, _, _) => ProfileSpec(cfg, s, e, now, replies, r)
    case ModelCatalogueUpdate(_, _, _) => CatalogueSpec(cfg, s, e, now, replies, r)
    case BenchmarkReport(_, _) => BenchmarkSpec(cfg, s, e, now, replies, r)
    case DrainRequest(_) => DrainSpec(cfg, s, e, now, replies, r)
    case OtherMessage(_, _) => r == Err(UnsupportedMessage)
  }

  lemma MessageExactly(cfg: Config, s: Session, e: Envelope, now: int, replies: Replies)
    ensures MessageSpec(cfg, s, e, now, replies, Dispatch(cfg, s, e, now, replies))
  {
    match e.payload
    case NodeHello(_, _, _, _, _, _, _) => HelloExactly(cfg, s, e, now, replies);
    case NodeAuthenticate(_, _) => AuthenticateExactly(cfg, s, e, now, replies);
    case CapabilityNegotiation(_) => NegotiationExactly(cfg, s, e, now, replies);
    case NodeProfileUpdate(_, _, _) => ProfileExactly(cfg, s, e, now, replies);
    case ModelCatalogueUpdate(_, _, _) => CatalogueExactly(cfg, s, e, now, replies);
    case BenchmarkReport(_, _) => BenchmarkExactly(cfg, s, e, now, replies);
    case DrainRequest(_) => DrainExactly(cfg, s, e, now, replies);
    case OtherMessage(_, _) =>
  }

  /** Every answer to an envelope, and the handler after it: by the contract, the replay table and the
      revision, and else as the message's own specification says. */
  predicate AnswerSpec(
    cfg: Config, h: Handler, e: Envelope, now: int, replies: Replies, after: Handler, answer: Answer)
  {
    var verdict := cfg.contracts(e.payload);
    if verdict == UnknownType then after == h && answer == Refused(UnsupportedMessage)
    else if verdict == Violates then after == h && answer == Refused(ContractViolated)
    else if e.requestId in h.replays then
      && after == h
      && (h.replays[e.requestId].fingerprint == FingerprintOf(e) ==>
            answer == Accepted(h.replays[e.requestId].snapshot))
      && (h.replays[e.requestId].fingerprint != FingerprintOf(e) ==> answer == Refused(IdempotencyConflict))
    else if e.expectedRevision != h.session.revision then after == h && answer == Refused(RevisionMismatch)
    else match answer
      case Refused(error) => after == h && MessageSpec(cfg, h.session, e, now, replies, Err(error))
      case Accepted(shown) =>
        && MessageSpec(cfg, h.session, e, now, replies, Ok(after.session)) && Shows(shown, after.session)
        && after.replays == h.replays[e.requestId := ReplayRecord(FingerprintOf(e), shown)]
  }

  lemma AnswerExactly(cfg: Config, h: Handler, e: Envelope, now: int, replies: Replies)
    ensures var (after, answer) := HandleMessage(cfg, h, e, now, replies);
      AnswerSpec(cfg, h, e, now, replies, after, answer)
  {
    MessageExactly(cfg, h.session, e, now, replies);
  }

  /** The specification leaves no choice. */
  lemma SpecDetermines(cfg: Config, s: Session, e: Envelope, now: int, replies: Replies, r: Outcome)
    requires MessageSpec(cfg, s, e, now, replies, r)
    ensures r == Dispatch(cfg, s, e, now, replies)
  {
    MessageExactly(cfg, s, e, now, replies);
  }
}
