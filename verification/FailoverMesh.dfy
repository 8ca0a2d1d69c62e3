/**
 Self-healing connections and job execution over alternative routes
 (runtime/autonomous_failover_mesh.py).

 The route dictionary is a sequence in insertion order, with one route per id. What the
 network does at each attempt is an arbitrary function of the attempt's number; `log` records
 every attempt. What the attempts mean for the routes, the connections, the failover history
 and the processed jobs is said by `Replay`, and which attempts are made by `Talk`.
 */
module FailoverMesh {
  import opened Basics
  import opened StableSort

  datatype Route = Route(
    routeId: string, target: string, latency: real, bandwidth: real, errorRate: real, isActive: bool)

  // ------------------------------------------------------------- route choice

  predicate Eligible(r: Route, target: string) {
    r.target == target && r.isActive && r.errorRate < 0.1
  }

  /** Lower latency, then higher bandwidth, then registered earlier. */
  predicate Preferred(routes: seq<Route>, i: int, j: int)
    requires 0 <= i < |routes| && 0 <= j < |routes|
  {
    || routes[i].latency < routes[j].latency
    || (routes[i].latency == routes[j].latency && routes[i].bandwidth > routes[j].bandwidth)
    || (routes[i].latency == routes[j].latency && routes[i].bandwidth == routes[j].bandwidth && i <= j)
  }

  ghost predicate BestAt(routes: seq<Route>, target: string, i: int) {
    && 0 <= i < |routes| && Eligible(routes[i], target)
    && forall j :: 0 <= j < |routes| && Eligible(routes[j], target) ==> Preferred(routes, i, j)
  }

  ghost predicate Best(r: Route, routes: seq<Route>, target: string) {
    exists i :: BestAt(routes, target, i) && routes[i] == r
  }

  ghost predicate NoneEligible(routes: seq<Route>, target: string) {
    forall i :: 0 <= i < |routes| ==> !Eligible(routes[i], target)
  }

  predicate NotWorse(a: Route, b: Route) {
    a.latency < b.latency || (a.latency == b.latency && a.bandwidth >= b.bandwidth)
  }

  lemma NotWorseIsTotal()
    ensures TotalPreorder(NotWorse)
  {
  }

  function Candidates(routes: seq<Route>, target: string): seq<Route> {
    Filter(routes, (r: Route) => r.target == target && r.isActive && r.errorRate < 0.1)
  }

  function OptimalRoute(routes: seq<Route>, target: string): Option<Route> {
    var sorted := Sort(Candidates(routes, target), NotWorse);
    if sorted == [] then None else Some(sorted[0])
  }

  /** The chosen route is eligible and the first that no other beats; none is chosen only if none
      is eligible. */
  lemma OptimalRouteIsBest(routes: seq<Route>, target: string)
    ensures match OptimalRoute(routes, target)
      case Some(r) => Best(r, routes, target)
      case None => NoneEligible(routes, target)
  {
    var keep := (r: Route) => r.target == target && r.isActive && r.errorRate < 0.1;
    NotWorseIsTotal();
    var at := FilterSortPlaces(routes, keep, NotWorse);
    forall j | 0 <= j < |routes| && Eligible(routes[j], target)
      ensures at != [] && Preferred(routes, at[0], j)
    {
      assert keep(routes[j]);
      var k :| 0 <= k < |at| && at[k] == j;
      assert k > 0 ==> NotWorse(routes[at[0]], routes[j]);
    }
    if at != [] {
      assert BestAt(routes, target, at[0]);
    }
  }

  lemma BestIsOne(r: Route, s: Route, routes: seq<Route>, target: string)
    requires Best(r, routes, target) && Best(s, routes, target)
    ensures r == s
  {
    var i :| BestAt(routes, target, i) && routes[i] == r;
    var j :| BestAt(routes, target, j) && routes[j] == s;
    assert Preferred(routes, i, j) && Preferred(routes, j, i);
  }

  // -------------------------------------------------------------- switching off

  predicate UniqueIds(routes: seq<Route>) {
    forall i, j :: 0 <= i < j < |routes| ==> routes[i].routeId != routes[j].routeId
  }

  /** The route is off and counts as failing; everything else is as it was. */
  function SwitchedOff(routes: seq<Route>, id: string): (r: seq<Route>)
    ensures |r| == |routes|
    ensures forall i :: 0 <= i < |r| ==>
      r[i] == if routes[i].routeId == id then routes[i].(isActive := false, errorRate := 1.0) else routes[i]
  {
    seq(|routes|, i requires 0 <= i < |routes| =>
      if routes[i].routeId == id then routes[i].(isActive := false, errorRate := 1.0) else routes[i])
  }

  function Deactivated(routes: seq<Route>, id: string): seq<Route> {
    if routes == [] then []
    else if routes[0].routeId == id then [routes[0].(isActive := false, errorRate := 1.0)] + routes[1..]
    else [routes[0]] + Deactivated(routes[1..], id)
  }

  /** Smoothed latency and the observed error rate. */
  function Measured(routes: seq<Route>, id: string, latency: real, errorRate: real): seq<Route> {
    if routes == [] then []
    else if routes[0].routeId == id
    then [routes[0].(latency := routes[0].latency * 0.7 + latency * 0.3, errorRate := errorRate)] + routes[1..]
    else [routes[0]] + Measured(routes[1..], id, latency, errorRate)
  }

  lemma {:induction false} DeactivatedExactly(routes: seq<Route>, id: string)
    requires UniqueIds(routes)
    ensures Deactivated(routes, id) == SwitchedOff(routes, id)
  {
    if routes != [] {
      DeactivatedExactly(routes[1..], id);
      assert SwitchedOff(routes, id)[1..] == SwitchedOff(routes[1..], id);
      if routes[0].routeId == id {
        assert SwitchedOff(routes, id)[1..] == routes[1..];
      }
    }
  }

  lemma {:induction false} MeasuredAt(routes: seq<Route>, r: Route)
    requires UniqueIds(routes)
    requires forall i :: 0 <= i < |routes| && routes[i].routeId == r.routeId ==> routes[i] == r
    ensures var m := Measured(routes, r.routeId, r.latency, 1.0);
      && |m| == |routes|
      && forall i :: 0 <= i < |routes| ==>
           m[i] == if routes[i].routeId == r.routeId then routes[i].(errorRate := 1.0) else routes[i]
  {
    if routes != [] {
      MeasuredAt(routes[1..], r);
    }
  }

  /** Measuring a route at its own latency and switching it off is just switching it off. */
  lemma MeasuredThenOff(routes: seq<Route>, r: Route)
    requires UniqueIds(routes) && r in routes
    ensures var m := Measured(routes, r.routeId, r.latency, 1.0);
      && |m| == |routes| && UniqueIds(m) && SwitchedOff(m, r.routeId) == SwitchedOff(routes, r.routeId)
      && forall i :: 0 <= i < |m| && routes[i].routeId == r.routeId ==> m[i] == r.(errorRate := 1.0)
  {
    MeasuredAt(routes, r);
  }

  // ----------------------------------------------------------------- attempts

  datatype Handshake = Passed(authenticated: bool) | HandshakeFailed | HandshakeCrashed

  /** A response is accepted when its MAC verifies or no secret is configured. */
  datatype JobReply = ResponseAccepted | BadMac | SendFailed | ResponseCrashed

  datatype Attempt = Probe(route: Route, result: Handshake) | Send(jobId: string, sentOn: Route, reply: JobReply)

  predicate FailedAttempt(a: Attempt) {
    (a.Probe? && a.result == HandshakeFailed) || (a.Send? && a.reply == SendFailed)
  }

  predicate FinalAttempt(a: Attempt) {
    (a.Probe? && a.result == HandshakeCrashed) || (a.Send? && a.reply != SendFailed)
  }

  function RouteOf(a: Attempt): Route {
    if a.Probe? then a.route else a.sentOn
  }

  function Failures(log: seq<Attempt>): nat {
    if log == [] then 0 else Failures(log[..|log| - 1]) + (if FailedAttempt(log[|log| - 1]) then 1 else 0)
  }

  function Sends(log: seq<Attempt>, job: string): nat {
    if log == [] then 0
    else Sends(log[..|log| - 1], job)
         + (if log[|log| - 1].Send? && log[|log| - 1].jobId == job then 1 else 0)
  }

  datatype History = History(target: string, failedRoute: string, newRoute: string)

  /** A connection is recorded as the route's id with the suffix "_AUTHENTICATED" or
      "_LOCAL_UNAUTHENTICATED_ONLY". */
  datatype Link = Link(routeId: string, authenticated: bool)

  datatype Replacement = Verified(route: Route) | Exhausted | ReplacementRaised

  datatype Connection = NotConnected | IsConnected | ConnectRaised

  datatype WorkResult =
    | Duplicate | NodeUnreachable | NoActiveRoute | InvalidResultMac | FailoverExhausted | Response | WorkRaised

  // ------------------------------------------------------ what attempts amount to

  /** The books of one exchange with a node: `linked` says whether a job may be sent now, and
      `failing` which route's failure is being made good, and `sent` whether the job was sent. */
  datatype Books = Books(
    routes: seq<Route>, links: map<string, Link>, history: seq<History>, processed: set<string>,
    linked: bool, failing: Option<string>, sent: bool)

  /** What one attempt changes. Only a connection that was not preceded by a failure can be an
      authenticated one. */
  function Booked(b: Books, target: string, a: Attempt): Books {
    var id, sent := RouteOf(a).routeId, b.sent || a.Send?;
    if FailedAttempt(a) then
      b.(routes := SwitchedOff(b.routes, id), linked := false, sent := sent,
         failing := if b.failing.None? then Some(id) else b.failing)
    else if a.Probe? && a.result.Passed? then
      b.(links := b.links[target := Link(id, a.result.authenticated && b.failing.None?)], linked := true,
         failing := None,
         history := if b.failing.None? then b.history else b.history + [History(target, b.failing.value, id)])
    else if a.Send? && a.reply == ResponseAccepted then b.(sent := sent, processed := b.processed + {a.jobId})
    else b.(sent := sent)
  }

  /** Where an exchange starts, and what the network will do. */
  datatype Start = Start(
    books: Books, log: seq<Attempt>, tick: nat, target: string, job: string,
    handshakes: (nat, Route) -> Handshake, replies: (nat, Route) -> JobReply)

  /** The attempt that is due: the job is sent if the node is linked, a handshake is made
      otherwise, in both cases on the best route; the result is the network's. */
  ghost predicate Due(s: Start, b: Books, tick: nat, a: Attempt) {
    && a.Send? == b.linked && Best(RouteOf(a), b.routes, s.target)
    && (a.Probe? ==> a.result == s.handshakes(tick, a.route))
    && (a.Send? ==> a.jobId == s.job && a.reply == s.replies(tick, a.sentOn))
  }

  ghost predicate Open(s: Start, log: seq<Attempt>) {
    |log| > |s.log| ==> !FinalAttempt(log[|log| - 1])
  }

  /** The last attempt of `log` was due on the books `b` and makes them `now`. */
  ghost predicate Follows(s: Start, b: Books, now: Books, log: seq<Attempt>)
    requires |log| > |s.log|
  {
    var front, last := log[..|log| - 1], log[|log| - 1];
    Open(s, front) && Due(s, b, s.tick + (|front| - |s.log|), last) && now == Booked(b, s.target, last)
  }

  /** Each attempt since the start was due when it was made, none follows a final one, and `now` is
      what they amount to. */
  ghost predicate Exchange(s: Start, now: Books, log: seq<Attempt>)
    decreases |log|
  {
    || (log == s.log && now == s.books)
    || (|log| > |s.log| && exists b :: Exchange(s, b, log[..|log| - 1]) && Follows(s, b, now, log))
  }

  /** The exchange is over: by its last attempt, or because no route is left. */
  ghost predicate Complete(s: Start, now: Books, log: seq<Attempt>) {
    !Open(s, log) || NoneEligible(now.routes, s.target)
  }

  function FinalAnswer(last: Attempt): WorkResult {
    if last.Probe? || last.reply == ResponseCrashed then WorkRaised
    else if last.reply == BadMac then InvalidResultMac
    else Response
  }

  /** The answer to a job is told by the last attempt, or else by how far the exchange got. */
  ghost function Answer(s: Start, now: Books, log: seq<Attempt>): WorkResult {
    if !Open(s, log) then FinalAnswer(log[|log| - 1])
    else if now.sent then FailoverExhausted
    else if s.books.linked then NoActiveRoute
    else NodeUnreachable
  }

  // ------------------------------------------------------------ laws of exchanges

  predicate IsOff(routes: seq<Route>, id: string) {
    forall i :: 0 <= i < |routes| && routes[i].routeId == id ==> !routes[i].isActive
  }

  ghost function EligibleAt(routes: seq<Route>, target: string): set<int> {
    set i | 0 <= i < |routes| && Eligible(routes[i], target)
  }

  /** Switching off an eligible route leaves strictly fewer. */
  lemma RouteLost(routes: seq<Route>, target: string, r: Route)
    requires r in routes && Eligible(r, target)
    ensures |EligibleAt(SwitchedOff(routes, r.routeId), target)| < |EligibleAt(routes, target)|
  {
    var i :| 0 <= i < |routes| && routes[i] == r;
    var a, b := EligibleAt(routes, target), EligibleAt(SwitchedOff(routes, r.routeId), target);
    assert i in a && b <= a - {i};
    SubsetSize(b, a - {i});
  }

  lemma BestIsThere(r: Route, routes: seq<Route>, target: string)
    requires Best(r, routes, target)
    ensures r in routes && Eligible(r, target) && |EligibleAt(routes, target)| > 0
  {
    var i :| BestAt(routes, target, i) && routes[i] == r;
    assert i in EligibleAt(routes, target);
  }

  lemma Before(s: Start, now: Books, log: seq<Attempt>) returns (b: Books)
    requires Exchange(s, now, log) && |log| > |s.log|
    ensures Exchange(s, b, log[..|log| - 1]) && Follows(s, b, now, log)
  {
    b :| Exchange(s, b, log[..|log| - 1]) && Follows(s, b, now, log);
  }

  lemma Onward(s: Start, now: Books, log: seq<Attempt>, a: Attempt)
    requires Exchange(s, now, log) && |log| >= |s.log|
    requires Open(s, log) && Due(s, now, s.tick + (|log| - |s.log|), a)
    ensures Exchange(s, Booked(now, s.target, a), log + [a])
  {
    assert (log + [a])[..|log|] == log;
    assert Follows(s, now, Booked(now, s.target, a), log + [a]);
  }

  lemma {:induction false} LogGrows(s: Start, now: Books, log: seq<Attempt>)
    requires Exchange(s, now, log)
    ensures s.log <= log && (log == s.log ==> now == s.books)
    decreases |log|
  {
    if |log| > |s.log| {
      var b := Before(s, now, log);
      LogGrows(s, b, log[..|log| - 1]);
    }
  }

  ghost predicate FailedIn(log: seq<Attempt>, from: nat, id: string) {
    exists k :: from <= k < |log| && FailedAttempt(log[k]) && RouteOf(log[k]).routeId == id
  }

  lemma FailedInSnoc(log: seq<Attempt>, from: nat, id: string)
    requires |log| > from
    ensures var last := log[|log| - 1];
      FailedIn(log, from, id) <==>
      FailedIn(log[..|log| - 1], from, id) || (FailedAttempt(last) && RouteOf(last).routeId == id)
  {
    var front := log[..|log| - 1];
    if k :| from <= k < |front| && FailedAttempt(front[k]) && RouteOf(front[k]).routeId == id {
      assert log[k] == front[k];
    }
    if k :| from <= k < |log| && FailedAttempt(log[k]) && RouteOf(log[k]).routeId == id {
      assert k < |front| ==> front[k] == log[k];
    }
  }

  /** Exactly the routes that failed an attempt are switched off. */
  lemma {:induction false} OnlyFailedAreOff(s: Start, now: Books, log: seq<Attempt>)
    requires Exchange(s, now, log)
    ensures |now.routes| == |s.books.routes|
    ensures forall i :: 0 <= i < |now.routes| ==> var r := s.books.routes[i];
      now.routes[i] == if FailedIn(log, |s.log|, r.routeId) then r.(isActive := false, errorRate := 1.0) else r
    decreases |log|
  {
    if |log| > |s.log| {
      var b := Before(s, now, log);
      OnlyFailedAreOff(s, b, log[..|log| - 1]);
      forall id: string {
        FailedInSnoc(log, |s.log|, id);
      }
    }
  }

  /** Every failure costs an eligible route, and so does every send but the last. */
  lemma {:induction false} ExchangeIsBounded(s: Start, now: Books, log: seq<Attempt>)
    requires Exchange(s, now, log)
    ensures Failures(log) - Failures(s.log) + |EligibleAt(now.routes, s.target)|
         <= |EligibleAt(s.books.routes, s.target)|
    ensures Sends(log, s.job) - Sends(s.log, s.job) <= |EligibleAt(s.books.routes, s.target)|
    ensures Sends(log, s.job) - Sends(s.log, s.job)
         <= Failures(log) - Failures(s.log) + if Open(s, log) then 0 else 1
    ensures forall job :: job != s.job ==> Sends(log, job) == Sends(s.log, job)
    ensures Sends(log, s.job) >= Sends(s.log, s.job)
    ensures now.sent <==> s.books.sent || Sends(log, s.job) > Sends(s.log, s.job)
    decreases |log|
  {
    if |log| > |s.log| {
      var b := Before(s, now, log);
      var last := log[|log| - 1];
      ExchangeIsBounded(s, b, log[..|log| - 1]);
      BestIsThere(RouteOf(last), b.routes, s.target);
      if FailedAttempt(last) {
        RouteLost(b.routes, s.target, RouteOf(last));
      }
    } else {
      LogGrows(s, now, log);
    }
  }

  lemma StepProcesses(s: Start, b: Books, now: Books, log: seq<Attempt>)
    requires |log| > |s.log| && Follows(s, b, now, log)
    ensures now.processed == b.processed + if Answer(s, now, log) == Response then {s.job} else {}
    ensures Answer(s, b, log[..|log| - 1]) != Response
  {
  }

  /** A job is processed exactly by an accepted response, the last attempt of its exchange. */
  lemma {:induction false} ExchangeProcesses(s: Start, now: Books, log: seq<Attempt>)
    requires Exchange(s, now, log)
    ensures now.processed == s.books.processed + if Answer(s, now, log) == Response then {s.job} else {}
    decreases |log|
  {
    if |log| > |s.log| {
      var b := Before(s, now, log);
      ExchangeProcesses(s, b, log[..|log| - 1]);
      StepProcesses(s, b, now, log);
    }
  }

  predicate AcceptedSend(a: Attempt, job: string) {
    a.Send? && a.jobId == job && a.reply == ResponseAccepted
  }

  /** No job is sent again after a response to it was accepted. */
  ghost predicate NeverResent(log: seq<Attempt>) {
    forall i, j :: 0 <= i < j < |log| && log[i].Send? && AcceptedSend(log[i], log[i].jobId) ==>
      !(log[j].Send? && log[j].jobId == log[i].jobId)
  }

  ghost predicate ProcessedAreAccepted(log: seq<Attempt>, processed: set<string>) {
    && (forall i :: 0 <= i < |log| && log[i].Send? && log[i].reply == ResponseAccepted ==> log[i].jobId in processed)
    && (forall job :: job in processed ==> exists i :: 0 <= i < |log| && AcceptedSend(log[i], job))
  }

  /** Every failed attempt so far has cost its route: it is switched off, and stays off. */
  ghost predicate FailuresAreOff(log: seq<Attempt>, routes: seq<Route>) {
    forall i :: 0 <= i < |log| && FailedAttempt(log[i]) ==> IsOff(routes, RouteOf(log[i]).routeId)
  }

  ghost predicate Sound(routes: seq<Route>, log: seq<Attempt>, processed: set<string>) {
    NeverResent(log) && ProcessedAreAccepted(log, processed) && FailuresAreOff(log, routes)
  }

  /** One more attempt keeps the books in order; a job's send is only new if the job is not
      processed yet. */
  lemma SoundAfter(b: Books, target: string, log: seq<Attempt>, a: Attempt)
    requires Sound(b.routes, log, b.processed) && (a.Send? ==> a.jobId !in b.processed)
    ensures var c := Booked(b, target, a); Sound(c.routes, log + [a], c.processed)
  {
    var after, c := log + [a], Booked(b, target, a);
    forall job | job in c.processed
      ensures exists i :: 0 <= i < |after| && AcceptedSend(after[i], job)
    {
      if job in b.processed {
        var i :| 0 <= i < |log| && AcceptedSend(log[i], job);
        assert after[i] == log[i];
      } else {
        assert AcceptedSend(after[|log|], job);
      }
    }
    forall i | 0 <= i < |after| && FailedAttempt(after[i])
      ensures IsOff(c.routes, RouteOf(after[i]).routeId)
    {
      if i < |log| {
        assert IsOff(b.routes, RouteOf(log[i]).routeId);
      }
    }
  }

  /** An exchange that sends no processed job keeps accepted jobs unsent, processed jobs
      accepted and failed routes off. */
  lemma {:induction false} ExchangeKeepsSound(s: Start, now: Books, log: seq<Attempt>)
    requires Exchange(s, now, log)
    requires Sound(s.books.routes, s.log, s.books.processed) && (now.sent ==> s.job !in s.books.processed)
    ensures Sound(now.routes, log, now.processed)
    decreases |log|
  {
    if |log| > |s.log| {
      var b := Before(s, now, log);
      var front := log[..|log| - 1];
      ExchangeKeepsSound(s, b, front);
      ExchangeProcesses(s, b, front);
      SoundAfter(b, s.target, front, log[|log| - 1]);
      Unsnoc(log);
    }
  }

  lemma DueIsOne(s: Start, b: Books, tick: nat, x: Attempt, y: Attempt)
    requires Due(s, b, tick, x) && Due(s, b, tick, y)
    ensures x == y
  {
    BestIsOne(RouteOf(x), RouteOf(y), b.routes, s.target);
  }

  lemma SameStep(s: Start, before: Books, a: Books, logA: seq<Attempt>, b: Books, logB: seq<Attempt>)
    requires |logA| == |logB| > |s.log| && logA[..|logA| - 1] == logB[..|logB| - 1]
    requires Follows(s, before, a, logA) && Follows(s, before, b, logB)
    ensures logA == logB && a == b
  {
    DueIsOne(s, before, s.tick + (|logA| - 1 - |s.log|), logA[|logA| - 1], logB[|logB| - 1]);
    Unsnoc(logA);
    Unsnoc(logB);
  }

  lemma {:induction false} SameLength(s: Start, a: Books, logA: seq<Attempt>, b: Books, logB: seq<Attempt>)
    requires Exchange(s, a, logA) && Exchange(s, b, logB) && |logA| == |logB|
    ensures logA == logB && a == b
    decreases |logA|
  {
    if |logA| > |s.log| {
      var a' := Before(s, a, logA);
      var b' := Before(s, b, logB);
      SameLength(s, a', logA[..|logA| - 1], b', logB[..|logB| - 1]);
      SameStep(s, a', a, logA, b, logB);
    }
  }

  /** An exchange was under way at every earlier point of its log, and went on. */
  lemma {:induction false} EarlierPoint(s: Start, now: Books, log: seq<Attempt>, k: nat) returns (b: Books)
    requires Exchange(s, now, log) && |s.log| <= k < |log|
    ensures Exchange(s, b, log[..k]) && Open(s, log[..k]) && Due(s, b, s.tick + (k - |s.log|), log[k])
    decreases |log|
  {
    var front := log[..|log| - 1];
    b := Before(s, now, log);
    if k < |front| {
      b := EarlierPoint(s, b, front, k);
      assert front[..k] == log[..k];
    }
  }

  lemma CompleteIsLongest(s: Start, a: Books, logA: seq<Attempt>, b: Books, logB: seq<Attempt>)
    requires Exchange(s, a, logA) && Complete(s, a, logA) && Exchange(s, b, logB)
    ensures |logB| <= |logA|
  {
    if |logA| < |logB| {
      LogGrows(s, a, logA);
      var c := EarlierPoint(s, b, logB, |logA|);
      SameLength(s, a, logA, c, logB[..|logA|]);
      BestIsThere(RouteOf(logB[|logA|]), a.routes, s.target);
    }
  }

  /** The state and the network leave no choice: there is one complete exchange. */
  lemma ExchangeIsDetermined(s: Start, a: Books, logA: seq<Attempt>, b: Books, logB: seq<Attempt>)
    requires Exchange(s, a, logA) && Complete(s, a, logA) && Exchange(s, b, logB) && Complete(s, b, logB)
    ensures logA == logB && a == b
  {
    CompleteIsLongest(s, a, logA, b, logB);
    CompleteIsLongest(s, b, logB, a, logA);
    SameLength(s, a, logA, b, logB);
  }

  /** A job for a linked node with an eligible route is sent at once. */
  lemma SentAtOnce(s: Start, now: Books, log: seq<Attempt>)
    requires Exchange(s, now, log) && Complete(s, now, log)
    requires s.books.linked && !NoneEligible(s.books.routes, s.target)
    ensures |log| > |s.log| && log[|s.log|].Send? && log[|s.log|].jobId == s.job
  {
    LogGrows(s, now, log);
    if |log| > |s.log| {
      var b := EarlierPoint(s, now, log, |s.log|);
      LogGrows(s, b, log[..|s.log|]);
    }
  }

  // ------------------------------------------------------------------- fabric

  /** An exchange has come this far. */
  ghost predicate Tracks(s: Start, now: Books, log: seq<Attempt>, tick: nat) {
    Exchange(s, now, log) && |log| >= |s.log| && tick == s.tick + (|log| - |s.log|) && UniqueIds(s.books.routes)
  }

  lemma TracksOn(s: Start, now: Books, log: seq<Attempt>, tick: nat, a: Attempt)
    requires Tracks(s, now, log, tick) && Open(s, log) && Due(s, now, tick, a)
    ensures Tracks(s, Booked(now, s.target, a), log + [a], tick + 1)
  {
    Onward(s, now, log, a);
  }

  lemma IdsKept(s: Start, now: Books, log: seq<Attempt>)
    requires Exchange(s, now, log) && UniqueIds(s.books.routes)
    ensures UniqueIds(now.routes)
  {
    OnlyFailedAreOff(s, now, log);
  }

  /** The books are ahead of the routes by one route that is to be switched off. */
  lemma OffInTime(s: Start, now: Books, log: seq<Attempt>, routes: seq<Route>, id: string)
    requires Exchange(s, now, log) && UniqueIds(s.books.routes) && now.routes == SwitchedOff(routes, id)
    ensures UniqueIds(routes)
  {
    IdsKept(s, now, log);
    assert forall i :: 0 <= i < |routes| ==> now.routes[i].routeId == routes[i].routeId;
  }

  /** The last attempt is a handshake that passed. */
  ghost predicate JustPassed(log: seq<Attempt>, from: nat) {
    |log| > from && log[|log| - 1].Probe? && log[|log| - 1].result.Passed?
  }

  ghost predicate JustCrashed(log: seq<Attempt>, from: nat) {
    |log| > from && log[|log| - 1].Probe? && log[|log| - 1].result == HandshakeCrashed
  }

  lemma BookedFailover(b: Books, target: string, log: seq<Attempt>, from: nat, r: Route, failed: string)
    requires b.failing == Some(failed) && JustPassed(log, from) && log[|log| - 1].route == r
    ensures Booked(b, target, log[|log| - 1])
         == Books(b.routes, b.links[target := Link(r.routeId, false)],
                  b.history + [History(target, failed, r.routeId)], b.processed, true, None, b.sent)
  {
  }

  /** How trying to connect ends, `x` being the books before the last attempt is entered: the best
      route just passed, or none is left and a node that failed is given up, or a handshake crashed. */
  ghost predicate Connects(
    s: Start, c: Connection, x: Books, now: Books, from: nat, log: seq<Attempt>, tick: nat)
  {
    match c
    case IsConnected =>
      && JustPassed(log, from) && Best(log[|log| - 1].route, x.routes, s.target)
      && now == Booked(x, s.target, log[|log| - 1]) && Tracks(s, now, log, tick)
    case NotConnected =>
      && NoneEligible(x.routes, s.target) && Open(s, log) && Tracks(s, x, log, tick)
      && now == x.(links := if x.failing.Some? then x.links - {s.target} else x.links)
    case ConnectRaised =>
      JustCrashed(log, from) && now == x && Tracks(s, x, log, tick)
  }

  /** Connecting keeps the books in order. */
  lemma ConnectedSound(
    s: Start, c: Connection, x: Books, now: Books, from: nat, log: seq<Attempt>, tick: nat)
    requires Connects(s, c, x, now, from, log, tick) && !x.sent
    requires Sound(s.books.routes, s.log, s.books.processed)
    ensures UniqueIds(now.routes) && Sound(now.routes, log, now.processed)
  {
    var end := if c.IsConnected? then now else x;
    IdsKept(s, end, log);
    ExchangeKeepsSound(s, end, log);
  }

  /** The exchange came to `end` and is over; the books are those, but a node that was given up
      is no longer connected. */
  ghost predicate Concluded(s: Start, end: Books, now: Books, log: seq<Attempt>, tick: nat, result: WorkResult) {
    && Tracks(s, end, log, tick) && Complete(s, end, log) && result == Answer(s, end, log)
    && now.routes == end.routes && now.history == end.history && now.processed == end.processed
    && now.links == if end.failing.Some? && result != WorkRaised then end.links - {s.target} else end.links
  }

  lemma {:induction false} FailuresGrow(a: seq<Attempt>, b: seq<Attempt>)
    requires a <= b
    ensures Failures(a) <= Failures(b)
  {
    if |a| < |b| {
      FailuresGrow(a, b[..|b| - 1]);
    } else {
      assert a == b;
    }
  }

  predicate SentWith(a: Attempt, job: string, reply: JobReply) {
    a.Send? && a.jobId == job && a.reply == reply
  }

  /** What an answer to a job says about the attempts: why it was given, how often the job was
      sent, and what became of the routes and the processed jobs. */
  lemma AnswerMeans(s: Start, end: Books, now: Books, log: seq<Attempt>, tick: nat, result: WorkResult)
    requires Concluded(s, end, now, log, tick, result) && !s.books.sent
    ensures s.log <= log && result != Duplicate
    ensures result in {Response, InvalidResultMac, WorkRaised} ==> |log| > |s.log|
    ensures result == Response ==> SentWith(log[|log| - 1], s.job, ResponseAccepted)
    ensures result == InvalidResultMac ==> SentWith(log[|log| - 1], s.job, BadMac)
    ensures result == WorkRaised ==>
      JustCrashed(log, |s.log|) || SentWith(log[|log| - 1], s.job, ResponseCrashed)
    ensures result in {NodeUnreachable, NoActiveRoute, FailoverExhausted} ==> NoneEligible(now.routes, s.target)
    ensures result in {NodeUnreachable, NoActiveRoute} ==> Sends(log, s.job) == Sends(s.log, s.job)
    ensures now.processed == s.books.processed + if result == Response then {s.job} else {}
    ensures s.books.linked && !NoneEligible(s.books.routes, s.target) ==>
      |log| > |s.log| && log[|s.log|].Send? && log[|s.log|].jobId == s.job
  {
    LogGrows(s, end, log);
    ExchangeIsBounded(s, end, log);
    ExchangeProcesses(s, end, log);
    if |log| > |s.log| {
      var b := Before(s, end, log);
    }
    if s.books.linked && !NoneEligible(s.books.routes, s.target) {
      SentAtOnce(s, end, log);
    }
  }

  class Fabric {
    const handshakes: (nat, Route) -> Handshake
    const replies: (nat, Route) -> JobReply
    var routes: seq<Route>
    var connections: map<string, Link>
    var history: seq<History>
    var processed: set<string>
    ghost var log: seq<Attempt>
    var tick: nat

    ghost predicate Valid() reads this {
      UniqueIds(routes) && Sound(routes, log, processed)
    }

    ghost function Now(linked: bool, failing: Option<string>, sent: bool): Books reads this {
      Books(routes, connections, history, processed, linked, failing, sent)
    }

    /** The books once connecting has ended. */
    ghost function After(c: Connection, failing: Option<string>, sent: bool): Books reads this {
      if c.IsConnected? then Now(true, None, sent) else Now(false, failing, sent)
    }

    /** An exchange with the target about the job that starts now. */
    ghost function From(now: Books, target: string, job: string): Start reads this {
      Start(now, log, tick, target, job, handshakes, replies)
    }

    /** The start belongs to this object. */
    ghost predicate Ours(s: Start, target: string) reads this {
      s.handshakes == handshakes && s.replies == replies && s.target == target
    }

    constructor (routes: seq<Route>, handshakes: (nat, Route) -> Handshake, replies: (nat, Route) -> JobReply)
      requires UniqueIds(routes)
      ensures Valid() && this.routes == routes && this.handshakes == handshakes && this.replies == replies
      ensures connections == map[] && history == [] && processed == {} && log == [] && tick == 0
    {
      this.handshakes, this.replies, this.routes := handshakes, replies, routes;
      connections, history, processed, log, tick := map[], [], {}, [], 0;
    }

    /** Opens a socket on the route and runs the handshake. */
    method TryHandshake(r: Route) returns (h: Handshake)
      modifies this`tick, this`log
      ensures h == handshakes(old(tick), r) && tick == old(tick) + 1 && log == old(log) + [Probe(r, h)]
    {
      h := handshakes(tick, r);
      tick := tick + 1;
      log := log + [Probe(r, h)];
    }

    method SendJob(job: string, r: Route) returns (reply: JobReply)
      modifies this`tick, this`log
      ensures reply == replies(old(tick), r) && tick == old(tick) + 1 && log == old(log) + [Send(job, r, reply)]
    {
      reply := replies(tick, r);
      tick := tick + 1;
      log := log + [Send(job, r, reply)];
    }

    method SwitchOff(id: string)
      requires UniqueIds(routes)
      modifies this`routes
      ensures routes == SwitchedOff(old(routes), id)
    {
      DeactivatedExactly(routes, id);
      routes := Deactivated(routes, id);
    }

    /** A failed route is measured at its own latency; this matters to nothing but its error rate. */
    method Measure(r: Route)
      requires UniqueIds(routes) && r in routes
      modifies this`routes
      ensures UniqueIds(routes) && SwitchedOff(routes, r.routeId) == SwitchedOff(old(routes), r.routeId)
      ensures |routes| == |old(routes)|
      ensures forall i :: 0 <= i < |routes| && old(routes)[i].routeId == r.routeId ==>
        routes[i] == r.(errorRate := 1.0)
    {
      MeasuredThenOff(routes, r);
      routes := Measured(routes, r.routeId, r.latency, 1.0);
    }

    method GetOptimalRoute(target: string) returns (route: Option<Route>)
      ensures match route
        case Some(r) => Best(r, routes, target)
        case None => NoneEligible(routes, target)
    {
      OptimalRouteIsBest(routes, target);
      route := OptimalRoute(routes, target);
    }

    /** A handshake on the best route; a replacement that fails is given up. */
    method ProbeReplacement(target: string, r: Route, ghost s: Start, ghost failed: string, ghost sent: bool)
      returns (h: Handshake)
      requires Ours(s, target) && Tracks(s, Now(false, Some(failed), sent), log, tick) && Open(s, log)
      requires Best(r, routes, target)
      modifies this`tick, this`log, this`routes
      ensures log == old(log) + [Probe(r, h)]
      ensures h.Passed? ==> routes == old(routes)
      ensures h.Passed? ==> Tracks(s, Booked(Now(false, Some(failed), sent), target, Probe(r, h)), log, tick)
      ensures !h.Passed? ==> Tracks(s, Now(false, Some(failed), sent), log, tick)
      ensures h.HandshakeFailed? ==> |EligibleAt(routes, target)| < |EligibleAt(old(routes), target)|
    {
      ghost var now, before, at := Now(false, Some(failed), sent), log, tick;
      IdsKept(s, now, log);
      BestIsThere(r, routes, target);
      h := TryHandshake(r);
      TracksOn(s, now, before, at, Probe(r, h));
      if h.HandshakeFailed? {
        RouteLost(routes, target, r);
        SwitchOff(r.routeId);
      }
    }

    /** The retry loop: gives up failing routes until one passes or none is left. */
    method FindReplacement(target: string, ghost s: Start, ghost failed: string, ghost sent: bool)
      returns (found: Replacement)
      requires Ours(s, target) && Tracks(s, Now(false, Some(failed), sent), log, tick) && Open(s, log)
      modifies this`tick, this`log, this`routes
      ensures old(log) <= log
      ensures found.Verified? ==>
        && Best(found.route, routes, target) && JustPassed(log, |old(log)|) && log[|log| - 1].route == found.route
        && Tracks(s, Booked(Now(false, Some(failed), sent), target, log[|log| - 1]), log, tick)
      ensures found.Exhausted? ==>
        NoneEligible(routes, target) && Tracks(s, Now(false, Some(failed), sent), log, tick) && Open(s, log)
      ensures found.ReplacementRaised? ==>
        JustCrashed(log, |old(log)|) && Tracks(s, Now(false, Some(failed), sent), log, tick)
    {
      while true
        invariant old(log) <= log
        invariant Tracks(s, Now(false, Some(failed), sent), log, tick) && Open(s, log)
        decreases |EligibleAt(routes, target)|
      {
        var route := GetOptimalRoute(target);
        if route.None? { return Exhausted; }
        var h := ProbeReplacement(target, route.value, s, failed, sent);
        match h {
          case HandshakeCrashed => return ReplacementRaised;
          case Passed(_) => return Verified(route.value);
          case HandshakeFailed =>
        }
      }
    }

    /** Enters the route that just passed in the connections and the history. */
    method RecordFailover(target: string, r: Route, failedId: string, ghost s: Start, ghost sent: bool, ghost from: nat)
      requires s.target == target && JustPassed(log, from) && log[|log| - 1].route == r && Best(r, routes, target)
      requires Tracks(s, Booked(Now(false, Some(failedId), sent), target, log[|log| - 1]), log, tick)
      modifies this`connections, this`history
      ensures Connects(s, IsConnected, old(Now(false, Some(failedId), sent)), Now(true, None, sent), from, log, tick)
    {
      BookedFailover(Now(false, Some(failedId), sent), target, log, from, r, failedId);
      connections := connections[target := Link(r.routeId, false)];
      history := history + [History(target, failedId, r.routeId)];
    }

    /** Fails over to the best route that answers a handshake, giving up routes that do not. */
    method FailOver(target: string, failedId: string, ghost s: Start, ghost sent: bool) returns (c: Connection)
      requires Ours(s, target) && Open(s, log) && Tracks(s, Now(false, Some(failedId), sent), log, tick)
      modifies this
      ensures old(log) <= log
      ensures Connects(s, c, old(Now(false, Some(failedId), sent)).(routes := routes),
                       After(c, Some(failedId), sent), |old(log)|, log, tick)
    {
      var found := FindReplacement(target, s, failedId, sent);
      match found {
        case ReplacementRaised =>
          c := ConnectRaised;
        case Verified(r) =>
          RecordFailover(target, r, failedId, s, sent, |old(log)|);
          c := IsConnected;
        case Exhausted =>
          connections := connections - {target};
          c := NotConnected;
      }
    }

    /** Switches the failed route off, then fails over. */
    method HandleFailureWithin(target: string, failedId: string, ghost s: Start, ghost sent: bool)
      returns (c: Connection)
      requires Ours(s, target) && Open(s, log)
      requires Tracks(s, Now(false, Some(failedId), sent).(routes := SwitchedOff(routes, failedId)), log, tick)
      modifies this
      ensures old(log) <= log
      ensures Connects(s, c, old(Now(false, Some(failedId), sent)).(routes := routes),
                       After(c, Some(failedId), sent), |old(log)|, log, tick)
    {
      OffInTime(s, Now(false, Some(failedId), sent).(routes := SwitchedOff(routes, failedId)), log, routes, failedId);
      SwitchOff(failedId);
      c := FailOver(target, failedId, s, sent);
    }

    /** Marks the route of an attempt that just failed, then fails over. */
    method GiveUpRoute(target: string, r: Route, ghost s: Start, ghost sent: bool) returns (c: Connection)
      requires Ours(s, target) && r in routes && Open(s, log)
      requires Tracks(s, Now(false, Some(r.routeId), sent).(routes := SwitchedOff(routes, r.routeId)), log, tick)
      modifies this
      ensures old(log) <= log
      ensures Connects(s, c, old(Now(false, Some(r.routeId), sent)).(routes := routes),
                       After(c, Some(r.routeId), sent), |old(log)|, log, tick)
    {
      ghost var off := Now(false, Some(r.routeId), sent).(routes := SwitchedOff(routes, r.routeId));
      OffInTime(s, off, log, routes, r.routeId);
      Measure(r);
      c := HandleFailureWithin(target, r.routeId, s, sent);
    }

    /** A handshake on the best route, recorded as a connection if it passes. */
    method FirstHandshake(target: string, r: Route, ghost s: Start) returns (h: Handshake)
      requires Ours(s, target) && Tracks(s, Now(false, None, false), log, tick) && Open(s, log)
      requires Best(r, routes, target)
      modifies this`tick, this`log, this`connections
      ensures log == old(log) + [Probe(r, h)]
      ensures h.Passed? ==>
        && Tracks(s, Now(true, None, false), log, tick)
        && connections == old(connections)[target := Link(r.routeId, h.authenticated)]
      ensures h.HandshakeCrashed? ==> Tracks(s, Now(false, None, false), log, tick) && connections == old(connections)
      ensures h.HandshakeFailed? ==>
        && Tracks(s, Now(false, Some(r.routeId), false).(routes := SwitchedOff(routes, r.routeId)), log, tick)
        && connections == old(connections)
    {
      ghost var now, before, at := Now(false, None, false), log, tick;
      h := TryHandshake(r);
      TracksOn(s, now, before, at, Probe(r, h));
      if h.Passed? {
        connections := connections[target := Link(r.routeId, h.authenticated)];
      }
    }

    /** Connects over the best route, or fails over from it. */
    method ConnectWithin(target: string, ghost s: Start) returns (c: Connection, ghost failing: Option<string>)
      requires Ours(s, target) && Tracks(s, Now(false, None, false), log, tick) && Open(s, log)
      modifies this
      ensures old(log) <= log
      ensures failing.Some? <==> |log| > |old(log)| && FailedAttempt(log[|old(log)|])
      ensures Connects(s, c, old(Now(false, failing, false)).(routes := routes),
                       After(c, failing, false), |old(log)|, log, tick)
    {
      failing := None;
      var route := GetOptimalRoute(target);
      if route.None? { return NotConnected, None; }
      BestIsThere(route.value, routes, target);
      var h := FirstHandshake(target, route.value, s);
      match h {
        case Passed(_) => c := IsConnected;
        case HandshakeCrashed => c := ConnectRaised;
        case HandshakeFailed =>
          failing := Some(route.value.routeId);
          c := GiveUpRoute(target, route.value, s, false);
      }
    }

    /** Connecting on its own: an exchange that sends nothing. */
    method ConnectToNode(target: string) returns (c: Connection, ghost failing: Option<string>)
      requires Valid()
      modifies this
      ensures Valid() && old(log) <= log
      ensures failing.Some? <==> |log| > |old(log)| && FailedAttempt(log[|old(log)|])
      ensures Connects(old(From(Now(false, None, false), target, "")), c,
                       old(Now(false, failing, false)).(routes := routes),
                       After(c, failing, false), |old(log)|, log, tick)
    {
      ghost var s := From(Now(false, None, false), target, "");
      c, failing := ConnectWithin(target, s);
      ghost var x := s.books.(failing := failing, routes := routes);
      ConnectedSound(s, c, x, After(c, failing, false), |s.log|, log, tick);
    }

    /** A reported failure on its own: the route is off at once, then the node fails over. */
    method HandleConnectionFailure(target: string, failedId: string) returns (c: Connection)
      requires Valid()
      modifies this
      ensures Valid() && old(log) <= log
      ensures var start := old(Now(false, Some(failedId), false).(routes := SwitchedOff(routes, failedId)));
        Connects(old(From(Now(false, Some(failedId), false).(routes := SwitchedOff(routes, failedId)), target, "")), c,
                 start.(routes := routes), After(c, Some(failedId), false), |old(log)|, log, tick)
    {
      ghost var s := From(Now(false, Some(failedId), false).(routes := SwitchedOff(routes, failedId)), target, "");
      c := HandleFailureWithin(target, failedId, s, false);
      ConnectedSound(s, c, s.books.(routes := routes), After(c, Some(failedId), false), |s.log|, log, tick);
    }

    /** A send just failed: fail over, and try again only if that worked. */
    method AfterFailedSend(target: string, r: Route, ghost s: Start)
      returns (final: Option<WorkResult>, ghost end: Books)
      requires Ours(s, target) && r in routes && Open(s, log)
      requires Tracks(s, Now(false, Some(r.routeId), true).(routes := SwitchedOff(routes, r.routeId)), log, tick)
      modifies this
      ensures old(log) <= log
      ensures final.Some? ==> Concluded(s, end, Now(false, None, true), log, tick, final.value)
      ensures final.None? ==>
        Tracks(s, Now(true, None, true), log, tick) && Open(s, log) && !NoneEligible(routes, target)
    {
      ghost var links := connections;
      var c := GiveUpRoute(target, r, s, true);
      end := Now(false, Some(r.routeId), true).(links := links);
      match c {
        case ConnectRaised => final := Some(WorkRaised);
        case NotConnected => final := Some(FailoverExhausted);
        case IsConnected => final := None;
      }
    }

    /** One pass of the job loop on the given route; None means: try again. */
    method TryOnce(target: string, job: string, r: Route, ghost s: Start, ghost sent: bool)
      returns (final: Option<WorkResult>, ghost end: Books)
      requires Ours(s, target) && s.job == job && Tracks(s, Now(true, None, sent), log, tick) && Open(s, log)
      requires Best(r, routes, target)
      modifies this
      ensures old(log) + [Send(job, r, replies(old(tick), r))] <= log
      ensures final.Some? ==> Concluded(s, end, Now(false, None, true), log, tick, final.value)
      ensures final.None? ==>
        Tracks(s, Now(true, None, true), log, tick) && Open(s, log) && !NoneEligible(routes, target)
      ensures final.None? ==> Failures(log) > Failures(old(log))
    {
      BestIsThere(r, routes, target);
      ghost var now, before, at := Now(true, None, sent), log, tick;
      var reply := SendJob(job, r);
      TracksOn(s, now, before, at, Send(job, r, reply));
      end := Booked(now, target, Send(job, r, reply));
      match reply {
        case SendFailed =>
          ghost var after := log;
          final, end := AfterFailedSend(target, r, s);
          FailuresGrow(after, log);
        case ResponseAccepted =>
          processed := processed + {job};
          final := Some(Response);
        case BadMac => final := Some(InvalidResultMac);
        case ResponseCrashed => final := Some(WorkRaised);
      }
    }

    /** The job loop: every failed send costs a route, so it ends. */
    method SendUntilAnswered(target: string, job: string, ghost s: Start) returns (result: WorkResult, ghost end: Books)
      requires Ours(s, target) && s.job == job && Tracks(s, Now(true, None, false), log, tick) && Open(s, log)
      requires NoneEligible(routes, target) ==> s.books.linked
      modifies this
      ensures Concluded(s, end, Now(false, None, false), log, tick, result)
    {
      ghost var sent := false;
      while true
        invariant Tracks(s, Now(true, None, sent), log, tick) && Open(s, log)
        invariant NoneEligible(routes, target) ==> !sent && s.books.linked
        decreases |EligibleAt(s.books.routes, target)| + Failures(s.log) - Failures(log)
      {
        var route := GetOptimalRoute(target);
        if route.None? { return NoActiveRoute, Now(true, None, sent); }
        ExchangeIsBounded(s, Now(true, None, sent), log);
        var final;
        final, end := TryOnce(target, job, route.value, s, sent);
        if final.Some? { return final.value, end; }
        sent := true;
      }
    }

    /** Connects if need be, then sends. */
    method Perform(target: string, job: string, ghost s: Start) returns (result: WorkResult, ghost end: Books)
      requires UniqueIds(routes) && s == From(Now(target in connections, None, false), target, job)
      modifies this
      ensures Concluded(s, end, Now(false, None, false), log, tick, result)
    {
      if target !in connections {
        var c, failing := ConnectWithin(target, s);
        if !c.IsConnected? {
          end := Now(false, failing, false).(links := s.books.links);
          return if c.ConnectRaised? then WorkRaised else NodeUnreachable, end;
        }
      }
      result, end := SendUntilAnswered(target, job, s);
    }

    /** Executes a job once: duplicates are answered without sending, a missing connection is
        made first, and sending stops at the first response or with the last route. */
    method ExecuteWork(target: string, job: string) returns (result: WorkResult, ghost end: Books)
      requires Valid()
      modifies this
      ensures Valid()
      ensures result == Duplicate <==> job in old(processed)
      ensures result == Duplicate ==>
        log == old(log) && Now(false, None, false) == old(Now(false, None, false)) && tick == old(tick)
      ensures result != Duplicate ==>
        Concluded(old(From(Now(target in connections, None, false), target, job)), end, Now(false, None, false),
                  log, tick, result)
      ensures processed == old(processed) + if result == Response then {job} else {}
      ensures result == Response ==> |log| > |old(log)| && SentWith(log[|log| - 1], job, ResponseAccepted)
      ensures result == InvalidResultMac ==> |log| > |old(log)| && SentWith(log[|log| - 1], job, BadMac)
      ensures result == WorkRaised ==>
        |log| > |old(log)| && (JustCrashed(log, |old(log)|) || SentWith(log[|log| - 1], job, ResponseCrashed))
      ensures result in {NodeUnreachable, NoActiveRoute, FailoverExhausted} ==> NoneEligible(routes, target)
      ensures Sends(log, job) - Sends(old(log), job) <= |EligibleAt(old(routes), target)|
      ensures job !in old(processed) && target in old(connections) && !NoneEligible(old(routes), target) ==>
        |log| > |old(log)| && log[|old(log)|].Send? && log[|old(log)|].jobId == job
    {
      end := Now(false, None, false);
      if job in processed { return Duplicate, end; }
      ghost var s := From(Now(target in connections, None, false), target, job);
      result, end := Perform(target, job, s);
      Settled(s, end, result);
      AnswerMeans(s, end, Now(false, None, false), log, tick, result);
      ExchangeIsBounded(s, end, log);
    }

    /** What was in order at the start still is. */
    lemma Settled(s: Start, end: Books, result: WorkResult)
      requires Concluded(s, end, Now(false, None, false), log, tick, result)
      requires Sound(s.books.routes, s.log, s.books.processed) && s.job !in s.books.processed
      ensures Valid() && result != Duplicate
    {
      IdsKept(s, end, log);
      ExchangeKeepsSound(s, end, log);
    }
  }
}
