/**
 The provider's side of the session protocol (runtime/provider_control_client.py) against
 the handler: three envelopes, three acknowledgements, and what both sides then believe.
 */
module ProviderHandshake {
  import opened Basics
  import opened NodeSessions
  import opened SessionWire
  import opened SessionRuns
  import opened SessionAnswers

  const AUTH_METHOD := "computemesh-ed25519-v1"

  /** What the provider knows about itself before the exchange. */
  datatype Provider = Provider(
    nodeId: string, agentVersion: string, platform: string, capabilities: seq<string>, controlPlaneId: string)

  function HelloPayload(p: Provider): Payload {
    NodeHello(SUPPORTED_PROTOCOL_MAJOR, CURRENT_PROTOCOL_MINOR, p.agentVersion, p.platform,
              [AUTH_METHOD], p.capabilities, Some(p.nodeId))
  }

  /** The envelope builder; request id and issue time come from the clock. */
  function ProviderEnvelope(p: Provider, payload: Payload, revision: int, requestId: string, issued: int): Envelope {
    Envelope(SUPPORTED_PROTOCOL_MAJOR, CURRENT_PROTOCOL_MINOR, requestId, "provider-session-handshake",
             p.nodeId, p.controlPlaneId, issued, issued + 30, revision, payload)
  }

  /** The provider's own idea of the session after the third acknowledgement. */
  function ProviderSnapshot(p: Provider, sessionId: string, now: int): Snapshot {
    Snapshot(sessionId, CapabilitiesNegotiated, 3, Some(SUPPORTED_PROTOCOL_MAJOR), Some(CURRENT_PROTOCOL_MINOR),
             Some(p.nodeId), Some(p.nodeId), Some(AUTH_METHOD), Some(now + 900), ToSet(p.capabilities),
             None, None, None, None)
  }

  /** Agreement on state, revision, version, node and capabilities. */
  predicate Agree(a: Snapshot, b: Snapshot) {
    && a.state == b.state && a.revision == b.revision
    && a.major == b.major && a.minor == b.minor
    && a.nodeId == b.nodeId && a.negotiated == b.negotiated
  }

  // ------------------------------------------ recorded answers stay current

  /** A recorded answer is still true of the live session, up to further progress. */
  predicate RecordCurrent(s: Session, r: ReplayRecord) {
    && r.snapshot.revision <= s.revision && Rank(r.snapshot.state) <= Rank(s.state)
    && (r.snapshot.major.Some? ==> s.major == r.snapshot.major && s.minor == r.snapshot.minor)
    && (r.snapshot.nodeId.Some? ==> s.nodeId == r.snapshot.nodeId)
    && (Rank(r.snapshot.state) >= 3 ==> s.negotiated == r.snapshot.negotiated)
    && (r.fingerprint.payload.NodeHello? ==> s.hello == Some(HelloOf(r.fingerprint.payload)))
  }

  ghost predicate TableCurrent(h: Handler) {
    forall id :: id in h.replays ==> RecordCurrent(h.session, h.replays[id])
  }

  lemma StepKeepsTableCurrent(cfg: Config, h: Handler, ev: Event)
    requires TableSound(cfg, h) && TableCurrent(h)
    ensures TableCurrent(Step(cfg, h, ev).0)
  {
    StepKeepsInvariant(cfg, h, ev);
    var after := Step(cfg, h, ev).0;
    forall id | id in after.replays
      ensures RecordCurrent(after.session, after.replays[id])
    {
      StepRecordCurrent(cfg, h, ev, id);
    }
  }

  lemma StepRecordCurrent(cfg: Config, h: Handler, ev: Event, id: string)
    requires SessionInvariant(cfg, h.session) && TableCurrent(h) && id in Step(cfg, h, ev).0.replays
    requires Progress(h.session, Step(cfg, h, ev).0.session)
    ensures RecordCurrent(Step(cfg, h, ev).0.session, Step(cfg, h, ev).0.replays[id])
  {
    if id in h.replays {
      ReplaysOnlyGrow(cfg, h, ev, id);
      RecordStaysCurrent(cfg, h.session, Step(cfg, h, ev).0.session, h.replays[id]);
    } else {
      NewRecordIsCurrent(cfg, h, ev);
    }
  }

  lemma NewRecordIsCurrent(cfg: Config, h: Handler, ev: Event)
    requires SessionInvariant(cfg, h.session)
    requires ev.Deliver? && ev.envelope.requestId !in h.replays && Step(cfg, h, ev).1.Accepted?
    ensures var after := Step(cfg, h, ev).0;
      ev.envelope.requestId in after.replays && RecordCurrent(after.session, after.replays[ev.envelope.requestId])
  {
  }

  lemma RecordStaysCurrent(cfg: Config, s: Session, t: Session, r: ReplayRecord)
    requires SessionInvariant(cfg, s) && Progress(s, t) && RecordCurrent(s, r)
    ensures RecordCurrent(t, r)
  {
  }

  lemma {:induction false} RunsKeepTableCurrent(cfg: Config, h: Handler, events: seq<Event>)
    requires TableSound(cfg, h) && TableCurrent(h)
    ensures TableCurrent(Run(cfg, h, events).final)
  {
    if events != [] {
      var init := events[..|events| - 1];
      RunsKeepTableCurrent(cfg, h, init);
      RunsKeepTableSound(cfg, h, init);
      StepKeepsTableCurrent(cfg, Run(cfg, h, init).final, events[|events| - 1]);
    }
  }

  // ------------------------------------------------------ two-party agreement

  /** Event `i` of the run is the provider's message and was acknowledged with this revision. */
  predicate Acknowledged(
    cfg: Config, h: Handler, events: seq<Event>, i: int, p: Provider, payload: Payload, revision: int) {
    && 0 <= i < |events| && events[i].Deliver?
    && events[i].envelope.payload == payload
    && events[i].envelope.actorId == p.nodeId
    && events[i].envelope.major == SUPPORTED_PROTOCOL_MAJOR && events[i].envelope.minor == CURRENT_PROTOCOL_MINOR
    && Run(cfg, h, events).answers[i].Accepted?
    && Run(cfg, h, events).answers[i].snapshot.revision == revision
  }

  /** Once a provider holds the acknowledgements 1, 2 and 3 of its three messages, then whatever
      else reached the handler before, between or after them (other messages, retries,
      terminations), the third acknowledgement agrees with the provider's own snapshot, and
      the live session still has the provider's hello, node, version and capabilities. */
  lemma TwoPartyAgreement(cfg: Config, sessionId: string, challenge: string, events: seq<Event>,
                          p: Provider, credential: string, i: int, j: int, k: int, now: int)
    requires Acknowledged(cfg, FreshHandler(sessionId, challenge), events, i, p, HelloPayload(p), 1)
    requires Acknowledged(cfg, FreshHandler(sessionId, challenge), events, j, p,
                          NodeAuthenticate(AUTH_METHOD, credential), 2)
    requires Acknowledged(cfg, FreshHandler(sessionId, challenge), events, k, p,
                          CapabilityNegotiation(p.capabilities), 3)
    ensures var t := Run(cfg, FreshHandler(sessionId, challenge), events);
      && Agree(t.answers[k].snapshot, ProviderSnapshot(p, sessionId, now))
      && t.final.session.hello == Some(HelloOf(HelloPayload(p)))
      && t.final.session.nodeId == Some(p.nodeId)
      && t.final.session.major == Some(SUPPORTED_PROTOCOL_MAJOR)
      && t.final.session.minor == Some(CURRENT_PROTOCOL_MINOR)
      && t.final.session.negotiated == ToSet(p.capabilities)
      && cfg.required <= ToSet(p.capabilities) <= cfg.controlPlane
      && t.final.session.revision >= 3
  {
    var h := FreshHandler(sessionId, challenge);
    FreshSatisfiesInvariant(cfg, sessionId, challenge);
    RunsKeepTableSound(cfg, h, events);
    RunsKeepTableCurrent(cfg, h, events);
    AcceptedIsRecorded(cfg, h, events, i);
    AcceptedIsRecorded(cfg, h, events, j);
    AcceptedIsRecorded(cfg, h, events, k);
    var final := Run(cfg, h, events).final;
    assert RecordSound(cfg, final.replays[events[k].envelope.requestId]);
    assert RecordCurrent(final.session, final.replays[events[k].envelope.requestId]);
    assert RecordCurrent(final.session, final.replays[events[i].envelope.requestId]);
  }

  datatype HandshakeError =
    | InvalidChallenge | InvalidHello | HelloNotAccepted | AuthenticateNotAccepted | CapabilitiesNotAccepted

  /** The inputs the exchange takes from clocks, randomness and key material. */
  datatype Ambient = Ambient(
    requestIds: (string, string, string), times: (int, int, int), delivered: (bool, bool, bool),
    credential: string, replies: Replies, finished: int)

  predicate AckWith(answer: Answer, revision: int) {
    answer.Accepted? && answer.snapshot.revision == revision
  }

  ghost predicate Consistent(cfg: Config, h: Handler) {
    TableSound(cfg, h) && TableCurrent(h)
  }

  /** One handled message: at most one revision further, never closing, its answer on record. */
  ghost predicate HandledOnce(before: Handler, e: Envelope, after: Handler, answer: Answer) {
    && after.session.revision <= before.session.revision + 1
    && (after.session.state == Closed ==> before.session.state == Closed)
    && (answer.Accepted? ==>
          e.requestId in after.replays && after.replays[e.requestId] == ReplayRecord(FingerprintOf(e), answer.snapshot))
    && (answer.Refused? ==> after == before)
    && (forall id :: id in before.replays ==> id in after.replays && after.replays[id] == before.replays[id])
  }

  lemma MessageHandledOnce(cfg: Config, h: Handler, e: Envelope, now: int, replies: Replies)
    ensures var (after, answer) := HandleMessage(cfg, h, e, now, replies); HandledOnce(h, e, after, answer)
  {
    var outcome := Dispatch(cfg, h.session, e, now, replies);
    if outcome.Ok? {
      assert outcome.value.revision <= h.session.revision + 1;
      assert outcome.value.state == Closed ==> h.session.state == Closed;
    }
  }

  /** One message and its acknowledgement with the expected revision; the acknowledgement may be
      lost or garbled on the way, which the provider takes for a refusal. */
  method Exchange(
    handler: NodeSessionWireHandler, e: Envelope, now: int, replies: Replies, revision: int, delivered: bool)
    returns (ok: bool)
    modifies handler, handler.session
    ensures var (after, answer) := HandleMessage(handler.config, old(handler.View()), e, now, replies);
      handler.View() == after && (ok <==> delivered && answer.Accepted? && answer.snapshot.revision == revision)
    ensures ok ==>
      && e.requestId in handler.replays
      && handler.replays[e.requestId].fingerprint == FingerprintOf(e)
      && handler.replays[e.requestId].snapshot.revision == revision
    ensures forall id :: id in old(handler.replays) ==>
              id in handler.replays && handler.replays[id] == old(handler.replays)[id]
  {
    MessageHandledOnce(handler.config, handler.View(), e, now, replies);
    var answer := handler.Handle(e, now, replies);
    ok := delivered && AckWith(answer, revision);
  }

  /** What a consistent handler does with a message keeps it consistent. */
  lemma HandlingKeepsConsistent(cfg: Config, h: Handler, e: Envelope, now: int, replies: Replies)
    requires Consistent(cfg, h)
    ensures Consistent(cfg, HandleMessage(cfg, h, e, now, replies).0)
  {
    var ev := Deliver(e, now, replies);
    StepKeepsTableSound(cfg, h, ev);
    StepKeepsTableCurrent(cfg, h, ev);
  }

  // --------------------------------------------------- exactly when it succeeds

  function ProviderHello(p: Provider): HelloInfo {
    HelloInfo(p.agentVersion, p.platform, [AUTH_METHOD], (set c | c in p.capabilities), Some(p.nodeId), 0, 2)
  }

  /** The session after each acknowledged message. */
  function Greeted(sessionId: string, challenge: string, p: Provider): Session {
    FreshSession(sessionId, challenge).(
      state := HelloReceived, revision := 1, hello := Some(ProviderHello(p)), major := Some(0), minor := Some(2))
  }

  function Proven(sessionId: string, challenge: string, p: Provider, g: AuthReply): Session
    requires g.Granted?
  {
    Greeted(sessionId, challenge, p).(
      state := Authenticated, revision := 2, nodeId := Some(g.nodeId), principalId := Some(g.principalId),
      authMethod := Some(AUTH_METHOD), expiresAt := Some(g.expiresAt), keyId := g.keyId)
  }

  function Settled(sessionId: string, challenge: string, p: Provider, g: AuthReply): Session
    requires g.Granted?
  {
    Proven(sessionId, challenge, p, g).(
      state := CapabilitiesNegotiated, revision := 3, negotiated := set c | c in p.capabilities)
  }

  predicate HelloTaken(cfg: Config, p: Provider) {
    HelloFields(HelloPayload(p)) && cfg.contracts(HelloPayload(p)) == Conforms
  }

  predicate ProofTaken(cfg: Config, p: Provider, a: Ambient) {
    && cfg.contracts(NodeAuthenticate(AUTH_METHOD, a.credential)) == Conforms
    && a.requestIds.1 != a.requestIds.0 && 1 <= |a.credential| <= 16384
    && a.replies.auth.Granted? && a.times.1 < a.replies.auth.expiresAt && a.replies.auth.nodeId == p.nodeId
  }

  predicate CapabilitiesTaken(cfg: Config, p: Provider, a: Ambient)
    requires a.replies.auth.Granted?
  {
    var offered := set c | c in p.capabilities;
    && cfg.contracts(CapabilityNegotiation(p.capabilities)) == Conforms
    && a.requestIds.2 != a.requestIds.0 && a.requestIds.2 != a.requestIds.1
    && a.times.2 < a.replies.auth.expiresAt
    && offered <= cfg.controlPlane && cfg.required <= offered && Names(cfg.required)
  }

  function HelloEnvelope(p: Provider, a: Ambient): Envelope {
    ProviderEnvelope(p, HelloPayload(p), 0, a.requestIds.0, a.times.0)
  }

  function ProofEnvelope(p: Provider, a: Ambient): Envelope {
    ProviderEnvelope(p, NodeAuthenticate(AUTH_METHOD, a.credential), 1, a.requestIds.1, a.times.1)
  }

  function CapabilitiesEnvelope(p: Provider, a: Ambient): Envelope {
    ProviderEnvelope(p, CapabilityNegotiation(p.capabilities), 2, a.requestIds.2, a.times.2)
  }

  /** The handler has handled exactly these messages. */
  ghost predicate Handled(h: Handler, s: Session, envelopes: seq<Envelope>) {
    && h.session == s
    && (forall id :: id in h.replays <==> exists k :: 0 <= k < |envelopes| && envelopes[k].requestId == id)
    && (forall k :: 0 <= k < |envelopes| ==>
          && envelopes[k].requestId in h.replays
          && h.replays[envelopes[k].requestId].fingerprint == FingerprintOf(envelopes[k]))
  }

  lemma HelloStep(cfg: Config, sessionId: string, challenge: string, p: Provider, a: Ambient)
    requires HelloFields(HelloPayload(p))
    ensures var (h, answer) :=
        HandleMessage(cfg, FreshHandler(sessionId, challenge), HelloEnvelope(p, a), a.times.0, a.replies);
      && (answer.Accepted? <==> HelloTaken(cfg, p))
      && (answer.Accepted? ==>
            && answer.snapshot.revision == 1
            && Handled(h, Greeted(sessionId, challenge, p), [HelloEnvelope(p, a)]))
      && (answer.Refused? ==> h == FreshHandler(sessionId, challenge))
  {
    AnswerExactly(cfg, FreshHandler(sessionId, challenge), HelloEnvelope(p, a), a.times.0, a.replies);
    assert [HelloEnvelope(p, a)][0] == HelloEnvelope(p, a);
  }

  lemma ProofStep(cfg: Config, h: Handler, sessionId: string, challenge: string, p: Provider, a: Ambient)
    requires Handled(h, Greeted(sessionId, challenge, p), [HelloEnvelope(p, a)])
    ensures var (next, answer) := HandleMessage(cfg, h, ProofEnvelope(p, a), a.times.1, a.replies);
      && (answer.Accepted? <==> ProofTaken(cfg, p, a))
      && (answer.Accepted? ==>
            && answer.snapshot.revision == 2
            && Handled(next, Proven(sessionId, challenge, p, a.replies.auth),
                       [HelloEnvelope(p, a), ProofEnvelope(p, a)]))
      && (answer.Refused? ==> next == h)
  {
    assert [HelloEnvelope(p, a)][0] == HelloEnvelope(p, a);
    AnswerExactly(cfg, h, ProofEnvelope(p, a), a.times.1, a.replies);
    FingerprintExactly(HelloEnvelope(p, a), ProofEnvelope(p, a));
    var both := [HelloEnvelope(p, a), ProofEnvelope(p, a)];
    assert both[0] == HelloEnvelope(p, a) && both[1] == ProofEnvelope(p, a);
  }

  /** What the session makes of the provider's capabilities. */
  lemma CapabilitiesOutcome(cfg: Config, sessionId: string, challenge: string, p: Provider, a: Ambient, r: Outcome)
    requires a.replies.auth.Granted? && a.replies.auth.nodeId == p.nodeId && HelloFields(HelloPayload(p))
    requires MessageSpec(cfg, Proven(sessionId, challenge, p, a.replies.auth), CapabilitiesEnvelope(p, a),
                         a.times.2, a.replies, r)
    ensures var offered := set c | c in p.capabilities;
      r.Ok? <==>
        && a.times.2 < a.replies.auth.expiresAt
        && offered <= cfg.controlPlane && cfg.required <= offered && Names(cfg.required)
    ensures r.Ok? ==> r.value == Settled(sessionId, challenge, p, a.replies.auth)
  {
    assert CapabilitiesEnvelope(p, a).payload.accepted == p.capabilities;
  }

  lemma CapabilitiesStep(cfg: Config, h: Handler, sessionId: string, challenge: string, p: Provider, a: Ambient)
    requires a.replies.auth.Granted? && a.replies.auth.nodeId == p.nodeId && HelloFields(HelloPayload(p))
    requires Handled(h, Proven(sessionId, challenge, p, a.replies.auth), [HelloEnvelope(p, a), ProofEnvelope(p, a)])
    ensures var (next, answer) := HandleMessage(cfg, h, CapabilitiesEnvelope(p, a), a.times.2, a.replies);
      && (answer.Accepted? <==> CapabilitiesTaken(cfg, p, a))
      && (answer.Accepted? ==>
            answer.snapshot.revision == 3 && next.session == Settled(sessionId, challenge, p, a.replies.auth))
      && (answer.Refused? ==> next == h)
  {
    var caps := CapabilitiesEnvelope(p, a);
    TwoHandled(h, HelloEnvelope(p, a), ProofEnvelope(p, a), caps);
    SessionStep(cfg, h, caps, a.times.2, a.replies);
    MessageExactly(cfg, h.session, caps, a.times.2, a.replies);
    CapabilitiesOutcome(cfg, sessionId, challenge, p, a, Dispatch(cfg, h.session, caps, a.times.2, a.replies));
  }

  /** After two messages of other kinds, a request id is new or in conflict. */
  lemma TwoHandled(h: Handler, x: Envelope, y: Envelope, e: Envelope)
    requires Handled(h, h.session, [x, y]) && x.payload != e.payload && y.payload != e.payload
    ensures e.requestId in h.replays <==> e.requestId == x.requestId || e.requestId == y.requestId
    ensures e.requestId in h.replays ==> h.replays[e.requestId].fingerprint != FingerprintOf(e)
  {
    var both := [x, y];
    assert both[0] == x && both[1] == y;
  }

  /** The answer to a message, from the outcome of the session. */
  lemma SessionStep(cfg: Config, h: Handler, e: Envelope, now: int, replies: Replies)
    ensures var (next, answer) := HandleMessage(cfg, h, e, now, replies);
      var r := Dispatch(cfg, h.session, e, now, replies);
      && (answer.Refused? ==> next == h)
      && (e.requestId !in h.replays && e.expectedRevision == h.session.revision ==>
            && (answer.Accepted? <==> cfg.contracts(e.payload) == Conforms && r.Ok?)
            && (answer.Accepted? ==> next.session == r.value && answer.snapshot.revision == r.value.revision))
      && (e.requestId in h.replays && h.replays[e.requestId].fingerprint != FingerprintOf(e) ==> answer.Refused?)
  {
  }

  /** The exchange on a fresh session. It succeeds exactly when all three messages are taken and
      their acknowledgements arrive, and each failure says at which step it stopped. Success
      means that the session is settled with the provider's own data and both agree; failure
      means it never reached the third revision, unless only the last acknowledgement was lost. */
  method PerformProviderHandshake(handler: NodeSessionWireHandler, sessionId: string, challenge: string,
                                  p: Provider, a: Ambient)
    returns (result: Result<Snapshot, HandshakeError>)
    requires handler.View() == FreshHandler(handler.session.sessionId, handler.session.challenge)
    modifies handler, handler.session
    ensures result.Ok? ==>
      && Agree(result.value, SnapshotOf(handler.session.View()))
      && result.value == ProviderSnapshot(p, sessionId, a.finished)
      && SessionInvariant(handler.config, handler.session.View())
      && a.replies.auth.Granted?
      && handler.session.View()
         == Settled(handler.session.sessionId, handler.session.challenge, p, a.replies.auth)
    ensures result.Err? ==>
      handler.session.revision < 3 || (result == Err(CapabilitiesNotAccepted) && !a.delivered.2)
    ensures result == Err(InvalidChallenge) || result == Err(InvalidHello) ==> handler.View() == old(handler.View())
    ensures var cfg, named := handler.config, sessionId != "" && challenge != "" && p.controlPlaneId != "";
      var greeted := named && HelloTaken(cfg, p) && a.delivered.0;
      var proven := greeted && ProofTaken(cfg, p, a) && a.delivered.1;
      && (result == Err(InvalidChallenge) <==> !named)
      && (result == Err(InvalidHello) <==> named && !HelloFields(HelloPayload(p)))
      && (result == Err(HelloNotAccepted) <==> named && HelloFields(HelloPayload(p)) && !greeted)
      && (result == Err(AuthenticateNotAccepted) <==> greeted && !proven)
      && (result == Err(CapabilitiesNotAccepted) <==> proven && !(CapabilitiesTaken(cfg, p, a) && a.delivered.2))
      && (result.Ok? <==> proven && CapabilitiesTaken(cfg, p, a) && a.delivered.2)
  {
    ghost var sid, ch := handler.session.sessionId, handler.session.challenge;
    if sessionId == "" || challenge == "" || p.controlPlaneId == "" {
      return Err(InvalidChallenge);
    }
    if !HelloOf(HelloPayload(p)).WellFormed() {
      return Err(InvalidHello);
    }
    var ok := Greet(handler, p, a);
    if !ok { return Err(HelloNotAccepted); }
    ok := Prove(handler, p, a);
    if !ok { return Err(AuthenticateNotAccepted); }
    ok := Offer(handler, p, a);
    if !ok { return Err(CapabilitiesNotAccepted); }
    SettledAgrees(handler.config, sid, ch, p, a, sessionId);
    return Ok(ProviderSnapshot(p, sessionId, a.finished));
  }

  lemma SettledAgrees(cfg: Config, sid: string, ch: string, p: Provider, a: Ambient, sessionId: string)
    requires ProofTaken(cfg, p, a) && CapabilitiesTaken(cfg, p, a)
    ensures var s := Settled(sid, ch, p, a.replies.auth);
      SessionInvariant(cfg, s) && Agree(ProviderSnapshot(p, sessionId, a.finished), SnapshotOf(s))
  {
  }

  /** The first exchange. */
  method Greet(handler: NodeSessionWireHandler, p: Provider, a: Ambient) returns (ok: bool)
    requires handler.View() == FreshHandler(handler.session.sessionId, handler.session.challenge)
    requires HelloFields(HelloPayload(p))
    modifies handler, handler.session
    ensures ok <==> HelloTaken(handler.config, p) && a.delivered.0
    ensures ok ==>
      Handled(handler.View(), Greeted(handler.session.sessionId, handler.session.challenge, p), [HelloEnvelope(p, a)])
    ensures handler.session.revision <= 1
  {
    HelloStep(handler.config, handler.session.sessionId, handler.session.challenge, p, a);
    var hello := ProviderEnvelope(p, HelloPayload(p), 0, a.requestIds.0, a.times.0);
    ok := Exchange(handler, hello, a.times.0, a.replies, 1, a.delivered.0);
  }

  /** The second exchange. */
  method Prove(handler: NodeSessionWireHandler, p: Provider, a: Ambient) returns (ok: bool)
    requires Handled(handler.View(), Greeted(handler.session.sessionId, handler.session.challenge, p),
                     [HelloEnvelope(p, a)])
    modifies handler, handler.session
    ensures ok <==> ProofTaken(handler.config, p, a) && a.delivered.1
    ensures ok ==>
      Handled(handler.View(), Proven(handler.session.sessionId, handler.session.challenge, p, a.replies.auth),
              [HelloEnvelope(p, a), ProofEnvelope(p, a)])
    ensures handler.session.revision <= 2
  {
    ProofStep(handler.config, handler.View(), handler.session.sessionId, handler.session.challenge, p, a);
    var proof := ProviderEnvelope(p, NodeAuthenticate(AUTH_METHOD, a.credential), 1, a.requestIds.1, a.times.1);
    ok := Exchange(handler, proof, a.times.1, a.replies, 2, a.delivered.1);
  }

  /** The third exchange. */
  method Offer(handler: NodeSessionWireHandler, p: Provider, a: Ambient) returns (ok: bool)
    requires a.replies.auth.Granted? && a.replies.auth.nodeId == p.nodeId && HelloFields(HelloPayload(p))
    requires Handled(handler.View(),
                     Proven(handler.session.sessionId, handler.session.challenge, p, a.replies.auth),
                     [HelloEnvelope(p, a), ProofEnvelope(p, a)])
    modifies handler, handler.session
    ensures ok <==> CapabilitiesTaken(handler.config, p, a) && a.delivered.2
    ensures ok ==>
      handler.session.View() == Settled(handler.session.sessionId, handler.session.challenge, p, a.replies.auth)
    ensures !ok && a.delivered.2 ==> handler.View() == old(handler.View())
  {
    CapabilitiesStep(handler.config, handler.View(), handler.session.sessionId, handler.session.challenge, p, a);
    var caps := ProviderEnvelope(p, CapabilityNegotiation(p.capabilities), 2, a.requestIds.2, a.times.2);
    ok := Exchange(handler, caps, a.times.2, a.replies, 3, a.delivered.2);
  }

  /** What the provider reports, field by field. */
  lemma SnapshotExactly(p: Provider, sessionId: string, now: int)
    ensures var v := ProviderSnapshot(p, sessionId, now);
      && v.sessionId == sessionId && v.state == CapabilitiesNegotiated && v.revision == 3
      && v.major == Some(0) && v.minor == Some(2) && v.nodeId == Some(p.nodeId) && v.principalId == Some(p.nodeId)
      && v.authMethod == Some("computemesh-ed25519-v1") && v.expiresAt == Some(now + 900)
      && v.negotiated == (set c | c in p.capabilities)
      && v.profileRevision.None? && v.drainReason.None? && v.closeReason.None? && v.keyId.None?
  {
  }
}
