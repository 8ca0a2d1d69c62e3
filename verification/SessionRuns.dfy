/**
 Whole runs of a session handler: messages, and terminations from outside, in any order.
 */
module SessionRuns {
  import opened Basics
  import opened NodeSessions
  import opened SessionWire

  datatype Event =
    | Deliver(envelope: Envelope, now: int, replies: Replies)
    | TerminateFromOutside(reason: string)

  function Step(cfg: Config, h: Handler, ev: Event): (Handler, Answer) {
    match ev
    case Deliver(e, now, replies) => HandleMessage(cfg, h, e, now, replies)
    case TerminateFromOutside(reason) =>
      match AfterTermination(h.session, reason)
      case Ok(s) => (h.(session := s), Accepted(SnapshotOf(s)))
      case Err(error) => (h, Refused(error))
  }

  datatype Trace = Trace(final: Handler, answers: seq<Answer>)

  function Run(cfg: Config, h: Handler, events: seq<Event>): (t: Trace)
    ensures |t.answers| == |events|
  {
    if events == [] then Trace(h, [])
    else
      var before := Run(cfg, h, events[..|events| - 1]);
      var (next, answer) := Step(cfg, before.final, events[|events| - 1]);
      Trace(next, before.answers + [answer])
  }

  lemma RunAppend(cfg: Config, h: Handler, events: seq<Event>, ev: Event)
    ensures var before := Run(cfg, h, events);
      var (next, answer) := Step(cfg, before.final, ev);
      Run(cfg, h, events + [ev]) == Trace(next, before.answers + [answer])
  {
  }

  // ---------------------------------------------------------------- refusals

  /** A refused message or termination has no effect at all. */
  lemma RefusalIsAtomic(cfg: Config, h: Handler, ev: Event)
    ensures Step(cfg, h, ev).1.Refused? ==> Step(cfg, h, ev).0 == h
  {
  }

  /** Dropping every refused event from a run loses nothing: same final state, and the
      accepted events get the same answers. */
  function AcceptedEvents(cfg: Config, h: Handler, events: seq<Event>): seq<Event> {
    if events == [] then []
    else
      var init := events[..|events| - 1];
      var last := events[|events| - 1];
      var kept := AcceptedEvents(cfg, h, init);
      if Step(cfg, Run(cfg, h, init).final, last).1.Accepted? then kept + [last] else kept
  }

  function AcceptedAnswers(answers: seq<Answer>): seq<Answer> {
    if answers == [] then []
    else
      var last := answers[|answers| - 1];
      var kept := AcceptedAnswers(answers[..|answers| - 1]);
      if last.Accepted? then kept + [last] else kept
  }

  lemma AnswersAppend(answers: seq<Answer>, answer: Answer)
    ensures AcceptedAnswers(answers + [answer])
         == AcceptedAnswers(answers) + (if answer.Accepted? then [answer] else [])
  {
  }

  lemma {:induction false} RefusalsLeaveNoTrace(cfg: Config, h: Handler, events: seq<Event>)
    ensures Run(cfg, h, AcceptedEvents(cfg, h, events)).final == Run(cfg, h, events).final
    ensures Run(cfg, h, AcceptedEvents(cfg, h, events)).answers == AcceptedAnswers(Run(cfg, h, events).answers)
  {
    if events != [] {
      var init := events[..|events| - 1];
      var last := events[|events| - 1];
      var before := Run(cfg, h, init);
      var answer := Step(cfg, before.final, last).1;
      var kept := AcceptedEvents(cfg, h, init);
      RefusalsLeaveNoTrace(cfg, h, init);
      AnswersAppend(before.answers, answer);
      if answer.Accepted? {
        RunAppend(cfg, h, kept, last);
      } else {
        RefusalIsAtomic(cfg, before.final, last);
      }
    }
  }

  // ------------------------------------------------------------ replay table

  /** Records are never dropped or rewritten. */
  lemma ReplaysOnlyGrow(cfg: Config, h: Handler, ev: Event, id: string)
    requires id in h.replays
    ensures id in Step(cfg, h, ev).0.replays
    ensures Step(cfg, h, ev).0.replays[id] == h.replays[id]
  {
  }

  /** Whoever was answered positively finds exactly that answer in the table ever after. */
  lemma {:induction false} AcceptedIsRecorded(cfg: Config, h: Handler, events: seq<Event>, j: nat)
    requires j < |events| && events[j].Deliver?
    requires Run(cfg, h, events).answers[j].Accepted?
    ensures var e := events[j].envelope;
      && cfg.contracts(e.payload) == Conforms
      && e.requestId in Run(cfg, h, events).final.replays
      && Run(cfg, h, events).final.replays[e.requestId]
         == ReplayRecord(FingerprintOf(e), Run(cfg, h, events).answers[j].snapshot)
  {
    var init := events[..|events| - 1];
    if j < |init| {
      assert init[j] == events[j];
      AcceptedIsRecorded(cfg, h, init, j);
      ReplaysOnlyGrow(cfg, Run(cfg, h, init).final, events[|events| - 1], events[j].envelope.requestId);
    }
  }

  /** Same request id and same hashed fields; clocks, correlation and replies may differ. */
  predicate SameMessage(a: Event, b: Event) {
    && a.Deliver? && b.Deliver?
    && a.envelope.requestId == b.envelope.requestId
    && FingerprintOf(a.envelope) == FingerprintOf(b.envelope)
  }

  /** A reused request id with different semantics is refused, at any later point of any run. */
  lemma ConflictingReuseRefused(cfg: Config, h: Handler, events: seq<Event>, j: nat, ev: Event)
    requires j < |events| && events[j].Deliver? && ev.Deliver?
    requires Run(cfg, h, events).answers[j].Accepted?
    requires ev.envelope.requestId == events[j].envelope.requestId && !SameMessage(events[j], ev)
    ensures var after := Step(cfg, Run(cfg, h, events).final, ev);
      && after.0 == Run(cfg, h, events).final
      && after.1.Refused?
      && (cfg.contracts(ev.envelope.payload) == Conforms ==> after.1.error == IdempotencyConflict)
  {
    AcceptedIsRecorded(cfg, h, events, j);
  }

  // ------------------------------------------------------ retry transparency

  /** An event of a run, marked as original traffic or as an inserted retry. */
  datatype Tagged = Tagged(event: Event, retry: bool)

  function Events(xs: seq<Tagged>): (r: seq<Event>)
    ensures |r| == |xs|
  {
    if xs == [] then [] else Events(xs[..|xs| - 1]) + [xs[|xs| - 1].event]
  }

  function Originals(xs: seq<Tagged>): seq<Event> {
    if xs == [] then []
    else if xs[|xs| - 1].retry then Originals(xs[..|xs| - 1])
    else Originals(xs[..|xs| - 1]) + [xs[|xs| - 1].event]
  }

  /** The answers that the original traffic received. */
  function OriginalAnswers(xs: seq<Tagged>, answers: seq<Answer>): seq<Answer>
    requires |xs| == |answers|
  {
    if xs == [] then []
    else
      var n := |xs| - 1;
      var kept := OriginalAnswers(xs[..n], answers[..n]);
      if xs[n].retry then kept else kept + [answers[n]]
  }

  /** The original message that `ev` repeats was accepted in the run without retries. */
  predicate RepeatsAccepted(cfg: Config, h: Handler, base: seq<Event>, j: int, ev: Event) {
    && 0 <= j < |base|
    && SameMessage(base[j], ev)
    && Run(cfg, h, base).answers[j].Accepted?
  }

  ghost predicate RepeatsSome(cfg: Config, h: Handler, base: seq<Event>, ev: Event) {
    exists j :: RepeatsAccepted(cfg, h, base, j, ev)
  }

  /** Every inserted retry repeats some original message accepted before it. */
  ghost predicate OnlyRetriesOfAccepted(cfg: Config, h: Handler, xs: seq<Tagged>) {
    forall i :: 0 <= i < |xs| && xs[i].retry ==> RepeatsSome(cfg, h, Originals(xs[..i]), xs[i].event)
  }

  /** Retry transparency: whatever happens around them, retries of accepted messages change
      neither the final session and replay table nor any other answer. */
  lemma {:induction false} RetriesAreTransparent(cfg: Config, h: Handler, xs: seq<Tagged>)
    requires OnlyRetriesOfAccepted(cfg, h, xs)
    ensures Run(cfg, h, Events(xs)).final == Run(cfg, h, Originals(xs)).final
    ensures OriginalAnswers(xs, Run(cfg, h, Events(xs)).answers) == Run(cfg, h, Originals(xs)).answers
  {
    if xs != [] {
      var n := |xs| - 1;
      var init := xs[..n];
      PrefixOnlyRetries(cfg, h, xs);
      RetriesAreTransparent(cfg, h, init);
      assert Events(xs)[..n] == Events(init);
      var answers := Run(cfg, h, Events(xs)).answers;
      assert answers[..n] == Run(cfg, h, Events(init)).answers;
      if xs[n].retry {
        RetryAnswer(cfg, h, Originals(init), xs[n].event);
      } else {
        assert Originals(xs)[..|Originals(xs)| - 1] == Originals(init);
      }
    }
  }

  /** A retry gets the very answer of the message it repeats and leaves the state alone. */
  lemma RetryAnswer(cfg: Config, h: Handler, base: seq<Event>, ev: Event)
    requires RepeatsSome(cfg, h, base, ev)
    ensures Step(cfg, Run(cfg, h, base).final, ev).0 == Run(cfg, h, base).final
    ensures forall j :: RepeatsAccepted(cfg, h, base, j, ev) ==>
              Step(cfg, Run(cfg, h, base).final, ev).1 == Run(cfg, h, base).answers[j]
  {
    forall j | RepeatsAccepted(cfg, h, base, j, ev)
      ensures Step(cfg, Run(cfg, h, base).final, ev) == (Run(cfg, h, base).final, Run(cfg, h, base).answers[j])
    {
      AcceptedIsRecorded(cfg, h, base, j);
    }
  }

  lemma PrefixOnlyRetries(cfg: Config, h: Handler, xs: seq<Tagged>)
    requires xs != [] && OnlyRetriesOfAccepted(cfg, h, xs)
    ensures OnlyRetriesOfAccepted(cfg, h, xs[..|xs| - 1])
    ensures xs[|xs| - 1].retry ==> RepeatsSome(cfg, h, Originals(xs[..|xs| - 1]), xs[|xs| - 1].event)
  {
    var init := xs[..|xs| - 1];
    forall i | 0 <= i < |init| && init[i].retry
      ensures RepeatsSome(cfg, h, Originals(init[..i]), init[i].event)
    {
      assert init[..i] == xs[..i] && init[i] == xs[i];
    }
  }

  /** In a run with retries inserted anywhere, the retry at `i` is answered with exactly the
      snapshot that the repeated message got. */
  lemma RetryRepeatsItsAnswer(cfg: Config, h: Handler, xs: seq<Tagged>, i: nat, j: nat)
    requires OnlyRetriesOfAccepted(cfg, h, xs)
    requires i < |xs| && xs[i].retry && RepeatsAccepted(cfg, h, Originals(xs[..i]), j, xs[i].event)
    ensures Run(cfg, h, Events(xs)).answers[i] == Run(cfg, h, Originals(xs[..i])).answers[j]
  {
    PrefixesOnlyRetries(cfg, h, xs, i);
    RetriesAreTransparent(cfg, h, xs[..i]);
    RetryAnswer(cfg, h, Originals(xs[..i]), xs[i].event);
    EventsPrefix(xs, i);
    RunPrefix(cfg, h, Events(xs), i);
  }

  lemma PrefixesOnlyRetries(cfg: Config, h: Handler, xs: seq<Tagged>, i: nat)
    requires OnlyRetriesOfAccepted(cfg, h, xs) && i <= |xs|
    ensures OnlyRetriesOfAccepted(cfg, h, xs[..i])
  {
    forall k | 0 <= k < i && xs[..i][k].retry
      ensures RepeatsSome(cfg, h, Originals(xs[..i][..k]), xs[..i][k].event)
    {
      assert xs[..i][..k] == xs[..k];
    }
  }

  lemma {:induction false} EventsPrefix(xs: seq<Tagged>, i: nat)
    requires i < |xs|
    ensures Events(xs)[..i] == Events(xs[..i]) && Events(xs)[i] == xs[i].event
  {
    var init := xs[..|xs| - 1];
    if i < |init| {
      EventsPrefix(init, i);
      assert init[..i] == xs[..i];
    }
  }

  lemma {:induction false} RunPrefix(cfg: Config, h: Handler, events: seq<Event>, i: nat)
    requires i < |events|
    ensures Run(cfg, h, events).answers[i] == Step(cfg, Run(cfg, h, events[..i]).final, events[i]).1
  {
    var init := events[..|events| - 1];
    if i < |init| {
      RunPrefix(cfg, h, init, i);
      assert init[..i] == events[..i];
    }
  }

  // ------------------------------------------------------------------ ladder

  function FreshHandler(sessionId: string, challenge: string): Handler {
    Handler(FreshSession(sessionId, challenge), map[])
  }

  /** What holds of the session in every reachable state. */
  predicate SessionInvariant(cfg: Config, s: Session) {
    && (s.state != Closed ==> s.revision == Rank(s.state))
    && (s.state == Closed ==> 1 <= s.revision <= 7)
    && (s.hello.Some? <==> s.major.Some?) && (s.hello.Some? <==> s.minor.Some?)
    && (s.hello.Some? ==>
          && s.major.value == SUPPORTED_PROTOCOL_MAJOR
          && s.minor.value == Min(s.hello.value.minor, CURRENT_PROTOCOL_MINOR))
    && (s.nodeId.Some? <==> s.expiresAt.Some?)
    && (s.nodeId.Some? ==> s.hello.Some? && (s.hello.value.nodeId.Some? ==> s.hello.value.nodeId == s.nodeId))
    && (s.state != Closed ==> (s.hello.Some? <==> Rank(s.state) >= 1))
    && (s.state != Closed ==> (s.nodeId.Some? <==> Rank(s.state) >= 2))
    && (s.state != Closed ==> (s.profileRevision.Some? <==> Rank(s.state) >= 4))
    && (s.hello.None? ==> s.negotiated == {})
    && (s.hello.Some? ==> s.negotiated <= s.hello.value.capabilities * cfg.controlPlane)
    && (3 <= Rank(s.state) <= 6 ==> cfg.required <= s.negotiated)
    && (s.profileRevision.Some? ==> cfg.required <= s.negotiated)
  }

  /** How a session may develop from one moment to any later one. */
  predicate Progress(s: Session, t: Session) {
    && s.sessionId == t.sessionId && s.challenge == t.challenge
    && Rank(s.state) <= Rank(t.state) && s.revision <= t.revision
    && (s.state == Closed ==> s == t)
    && (s.hello.Some? ==> t.hello == s.hello && t.major == s.major && t.minor == s.minor)
    && (s.nodeId.Some? ==> t.nodeId == s.nodeId && t.principalId == s.principalId && t.expiresAt == s.expiresAt)
    && (s.nodeId.Some? ==> t.authMethod == s.authMethod && t.keyId == s.keyId)
    && (s.profileRevision.Some? ==> t.profileRevision == s.profileRevision)
    && (Rank(s.state) >= 6 ==> t.drainReason == s.drainReason)
    && (Rank(s.state) >= 3 ==> t.negotiated == s.negotiated)
  }

  /** The two messages that introduce the node. */
  lemma IntroductionKeepsInvariant(cfg: Config, s: Session, e: Envelope, now: int, replies: Replies)
    requires SessionInvariant(cfg, s) && (e.payload.NodeHello? || e.payload.NodeAuthenticate?)
    ensures Develops(cfg, s, Dispatch(cfg, s, e, now, replies))
  {
  }

  /** The messages of an authenticated node. */
  lemma ReportKeepsInvariant(cfg: Config, s: Session, e: Envelope, now: int, replies: Replies)
    requires SessionInvariant(cfg, s) && !e.payload.NodeHello? && !e.payload.NodeAuthenticate?
    ensures Develops(cfg, s, Dispatch(cfg, s, e, now, replies))
  {
  }

  ghost predicate Develops(cfg: Config, s: Session, outcome: Outcome) {
    outcome.Ok? ==> SessionInvariant(cfg, outcome.value) && Progress(s, outcome.value)
  }

  lemma DispatchKeepsInvariant(cfg: Config, s: Session, e: Envelope, now: int, replies: Replies)
    requires SessionInvariant(cfg, s)
    ensures Develops(cfg, s, Dispatch(cfg, s, e, now, replies))
  {
    if e.payload.NodeHello? || e.payload.NodeAuthenticate? {
      IntroductionKeepsInvariant(cfg, s, e, now, replies);
    } else {
      ReportKeepsInvariant(cfg, s, e, now, replies);
    }
  }

  lemma ConcludeKeepsInvariant(cfg: Config, h: Handler, e: Envelope, verdict: ContractVerdict, outcome: Outcome)
    requires SessionInvariant(cfg, h.session) && Develops(cfg, h.session, outcome)
    ensures var s := Conclude(h, e, verdict, outcome).0.session; SessionInvariant(cfg, s) && Progress(h.session, s)
  {
  }

  lemma TerminationKeepsInvariant(cfg: Config, s: Session, reason: string)
    requires SessionInvariant(cfg, s)
    ensures Develops(cfg, s, AfterTermination(s, reason)) && Progress(s, s)
  {
  }

  lemma StepKeepsInvariant(cfg: Config, h: Handler, ev: Event)
    requires SessionInvariant(cfg, h.session)
    ensures SessionInvariant(cfg, Step(cfg, h, ev).0.session)
    ensures Progress(h.session, Step(cfg, h, ev).0.session)
  {
    match ev {
      case TerminateFromOutside(reason) =>
        TerminationKeepsInvariant(cfg, h.session, reason);
      case Deliver(e, now, replies) =>
        DispatchKeepsInvariant(cfg, h.session, e, now, replies);
        ConcludeKeepsInvariant(cfg, h, e, cfg.contracts(e.payload), Dispatch(cfg, h.session, e, now, replies));
    }
  }

  /** Every run keeps the invariant, and from any point of a run to any later one ranks never
      fall, CLOSED is final, and an authenticated identity never changes. */
  lemma {:induction false} RunsClimbTheLadder(cfg: Config, h: Handler, events: seq<Event>, i: nat)
    requires SessionInvariant(cfg, h.session) && i <= |events|
    ensures SessionInvariant(cfg, Run(cfg, h, events).final.session)
    ensures Progress(Run(cfg, h, events[..i]).final.session, Run(cfg, h, events).final.session)
    decreases |events|
  {
    if i == |events| {
      assert events[..i] == events;
      if events != [] {
        RunsClimbTheLadder(cfg, h, events[..|events| - 1], 0);
        StepKeepsInvariant(cfg, Run(cfg, h, events[..|events| - 1]).final, events[|events| - 1]);
      }
    } else {
      var init := events[..|events| - 1];
      assert init[..i] == events[..i];
      RunsClimbTheLadder(cfg, h, init, i);
      StepKeepsInvariant(cfg, Run(cfg, h, init).final, events[|events| - 1]);
    }
  }

  lemma FreshSatisfiesInvariant(cfg: Config, sessionId: string, challenge: string)
    ensures SessionInvariant(cfg, FreshHandler(sessionId, challenge).session)
  {
  }

  /** From NodeAuthenticate on, a newly accepted message carries the session's node as its
      actor, the negotiated version, and an unexpired credential. */
  lemma AcceptedMessagesAreBound(cfg: Config, h: Handler, ev: Event)
    requires SessionInvariant(cfg, h.session)
    requires ev.Deliver? && !ev.envelope.payload.NodeHello?
    requires Step(cfg, h, ev).1.Accepted? && ev.envelope.requestId !in h.replays
    ensures var s := Step(cfg, h, ev).0.session;
      && s.nodeId == Some(ev.envelope.actorId)
      && s.major == Some(ev.envelope.major) && s.minor == Some(ev.envelope.minor)
      && s.expiresAt.Some? && ev.now < s.expiresAt.value
      && ev.envelope.expectedRevision == h.session.revision
  {
  }

  // --------------------------------------------------------- recorded answers

  /** The table only holds snapshots of the step that accepted the recorded message. */
  predicate RecordSound(cfg: Config, r: ReplayRecord) {
    && SnapshotRevisionSound(r.snapshot)
    && (!r.fingerprint.payload.NodeHello? ==>
          && r.snapshot.nodeId == Some(r.fingerprint.actorId)
          && r.snapshot.major == Some(r.fingerprint.major) && r.snapshot.minor == Some(r.fingerprint.minor))
    && (r.fingerprint.payload.NodeHello? ==> r.snapshot.state == HelloReceived)
    && (r.fingerprint.payload.NodeAuthenticate? ==> r.snapshot.state == Authenticated)
    && (r.fingerprint.payload.CapabilityNegotiation? ==>
          && r.snapshot.state == CapabilitiesNegotiated
          && r.snapshot.negotiated == ToSet(r.fingerprint.payload.accepted)
          && cfg.required <= r.snapshot.negotiated <= cfg.controlPlane)
    && ReportSound(r.fingerprint.payload, r.snapshot)
  }

  /** What the reports of an authenticated node are accepted for. */
  predicate ReportSound(p: Payload, s: Snapshot) {
    && (p.NodeProfileUpdate? ==>
          s.state == ProfileSynced && s.nodeId == Some(p.nodeId) && s.profileRevision == Some(p.profileRevision))
    && (p.ModelCatalogueUpdate? ==>
          && (s.state == ProfileSynced || s.state == Ready)
          && s.nodeId == Some(p.nodeId) && s.profileRevision == Some(p.profileRevision))
    && (p.BenchmarkReport? ==>
          (s.state == ProfileSynced || s.state == Ready) && s.profileRevision == Some(p.profileRevision))
    && (p.DrainRequest? ==> s.state == Draining && s.drainReason == Some(p.reason))
    && !p.OtherMessage?
  }

  predicate SnapshotRevisionSound(s: Snapshot) {
    s.state != Closed && s.revision == Rank(s.state)
  }

  ghost predicate TableSound(cfg: Config, h: Handler) {
    && SessionInvariant(cfg, h.session)
    && forall id :: id in h.replays ==> RecordSound(cfg, h.replays[id])
  }

  lemma StepKeepsTableSound(cfg: Config, h: Handler, ev: Event)
    requires TableSound(cfg, h)
    ensures TableSound(cfg, Step(cfg, h, ev).0)
  {
    StepKeepsInvariant(cfg, h, ev);
    var after := Step(cfg, h, ev).0;
    forall id | id in after.replays
      ensures RecordSound(cfg, after.replays[id])
    {
      if id !in h.replays {
        NewRecordIsSound(cfg, h, ev);
      }
    }
  }

  lemma NewRecordIsSound(cfg: Config, h: Handler, ev: Event)
    requires SessionInvariant(cfg, h.session) && ev.Deliver?
    requires ev.envelope.requestId !in h.replays && Step(cfg, h, ev).1.Accepted?
    ensures RecordSound(cfg, Step(cfg, h, ev).0.replays[ev.envelope.requestId])
  {
    if !ev.envelope.payload.NodeHello? {
      AcceptedMessagesAreBound(cfg, h, ev);
    }
  }

  lemma {:induction false} RunsKeepTableSound(cfg: Config, h: Handler, events: seq<Event>)
    requires TableSound(cfg, h)
    ensures TableSound(cfg, Run(cfg, h, events).final)
  {
    if events != [] {
      RunsKeepTableSound(cfg, h, events[..|events| - 1]);
      StepKeepsTableSound(cfg, Run(cfg, h, events[..|events| - 1]).final, events[|events| - 1]);
    }
  }
}
