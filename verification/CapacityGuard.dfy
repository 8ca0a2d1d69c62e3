/**
 Leases on a provider's slots and memory (runtime/capacity_guard.py).

 The dictionary of reservations is a sequence in insertion order with one entry per job.
 Clock readings and random tokens are inputs.
 */
module CapacityGuard {
  import opened Basics

  datatype Reservation = Reservation(
    reservationId: string, leaseId: string, jobId: string, nodeId: string, deviceId: string,
    memory: int, acquiredAt: int, expiresAt: int)

  datatype Config = Config(
    nodeId: string, maxJobs: int, totalMemory: Option<int>, devices: map<string, int>, defaultTtl: int)
  {
    /** What the constructor insists on. */
    predicate Valid() {
      && nodeId != "" && maxJobs >= 1 && (totalMemory.Some? ==> totalMemory.value >= 1)
      && (forall d :: d in devices ==> 1 <= |d| <= 128 && devices[d] >= 1)
      && 1 <= defaultTtl <= 3600
    }
  }

  datatype Error = InvalidArgument | CapacityExceeded | InvalidLease

  datatype AcquireArgs = AcquireArgs(
    jobId: string, leaseId: Option<string>, memory: int, ttl: Option<int>, deviceId: string,
    leaseToken: string, reservationToken: string)

  function StripLeft(s: string): string {
    if s != "" && IsTextSpace(s[0] as int) then StripLeft(s[1..]) else s
  }

  function StripRight(s: string): string {
    if s != "" && IsTextSpace(s[|s| - 1] as int) then StripRight(s[..|s| - 1]) else s
  }

  function Strip(s: string): string {
    StripRight(StripLeft(s))
  }

  // ------------------------------------------------------------ live entries

  predicate Expired(r: Reservation, now: int) {
    now >= r.expiresAt
  }

  /** The entries that still count at `now`, in order. */
  function Live(s: seq<Reservation>, now: int): seq<Reservation> {
    if s == [] then []
    else if Expired(s[0], now) then Live(s[1..], now)
    else [s[0]] + Live(s[1..], now)
  }

  lemma {:induction false} LiveLive(s: seq<Reservation>, earlier: int, now: int)
    requires earlier <= now
    ensures Live(Live(s, earlier), now) == Live(s, now)
  {
    if s != [] {
      LiveLive(s[1..], earlier, now);
      if !Expired(s[0], earlier) {
        assert ([s[0]] + Live(s[1..], earlier))[1..] == Live(s[1..], earlier);
      }
    }
  }

  lemma {:induction false} LiveConcat(a: seq<Reservation>, b: seq<Reservation>, now: int)
    ensures Live(a + b, now) == Live(a, now) + Live(b, now)
  {
    if a == [] {
      assert a + b == b;
    } else {
      assert (a + b)[1..] == a[1..] + b;
      LiveConcat(a[1..], b, now);
    }
  }

  lemma {:induction false} LiveMember(s: seq<Reservation>, now: int, r: Reservation)
    ensures r in Live(s, now) <==> r in s && !Expired(r, now)
  {
    if s != [] {
      LiveMember(s[1..], now, r);
    }
  }

  function Find(s: seq<Reservation>, job: string): Option<Reservation> {
    if s == [] then None else if s[0].jobId == job then Some(s[0]) else Find(s[1..], job)
  }

  function FindLease(s: seq<Reservation>, lease: string): Option<Reservation> {
    if s == [] then None else if s[0].leaseId == lease then Some(s[0]) else FindLease(s[1..], lease)
  }

  function MemoryOf(s: seq<Reservation>): int {
    if s == [] then 0 else s[0].memory + MemoryOf(s[1..])
  }

  function DeviceMemory(s: seq<Reservation>, device: string): int {
    if s == [] then 0 else (if s[0].deviceId == device then s[0].memory else 0) + DeviceMemory(s[1..], device)
  }

  function DeviceJobs(s: seq<Reservation>, device: string): int {
    if s == [] then 0 else (if s[0].deviceId == device then 1 else 0) + DeviceJobs(s[1..], device)
  }

  // --------------------------------------------------------------- decisions

  lemma OnlyKey(m: map<string, int>)
    requires |m| == 1
    ensures exists d :: d in m
    ensures forall a, b :: a in m && b in m ==> a == b
  {
    var d :| d in m.Keys;
    forall a, b | a in m && b in m
      ensures a == b
    {
      if a != b {
        assert {a, b} <= m.Keys;
        SubsetSize({a, b}, m.Keys);
      }
    }
  }

  /** "default" means the only profiled device, if there is exactly one. */
  function ResolveDevice(cfg: Config, device: string): Result<string, Error> {
    if cfg.devices == map[] then Ok(device)
    else if device == "default" then
      if |cfg.devices| != 1 then Err(CapacityExceeded)
      else
        OnlyKey(cfg.devices);
        var d :| d in cfg.devices; Ok(d)
    else if device !in cfg.devices then Err(CapacityExceeded)
    else Ok(device)
  }

  predicate ArgsOk(cfg: Config, a: AcquireArgs) {
    var ttl := if a.ttl.Some? then a.ttl.value else cfg.defaultTtl;
    a.jobId != "" && a.memory >= 0 && 1 <= |Strip(a.deviceId)| <= 128 && 1 <= ttl <= 3600
  }

  function EffectiveLease(a: AcquireArgs): string {
    if a.leaseId.Some? && a.leaseId.value != "" then a.leaseId.value else "local-lease-" + a.leaseToken
  }

  datatype Decision = Existing(r: Reservation) | Granted(r: Reservation) | Denied(error: Error)

  /** Given the entries that count now, may this job have its reservation? */
  function Decide(cfg: Config, live: seq<Reservation>, a: AcquireArgs, now: int): Decision {
    match ResolveDevice(cfg, Strip(a.deviceId))
    case Err(e) => Denied(e)
    case Ok(device) =>
      var holder := Find(live, a.jobId);
      if holder.Some? then
        if holder.value.leaseId == EffectiveLease(a) then Existing(holder.value) else Denied(CapacityExceeded)
      else if |live| >= cfg.maxJobs then Denied(CapacityExceeded)
      else if cfg.totalMemory.Some? && MemoryOf(live) + a.memory > cfg.totalMemory.value then Denied(CapacityExceeded)
      else if device in cfg.devices && DeviceMemory(live, device) + a.memory > cfg.devices[device] then
        Denied(CapacityExceeded)
      else
        var ttl := if a.ttl.Some? then a.ttl.value else cfg.defaultTtl;
        Granted(Reservation("res-" + a.reservationToken, EffectiveLease(a), a.jobId, cfg.nodeId, device,
                            a.memory, now, now + ttl))
  }

  function Renewed(r: Reservation, now: int, extra: int): Reservation {
    r.(expiresAt := Max(r.expiresAt, now) + extra)
  }

  /** Extends the live entry of the job in place. */
  function RenewIn(s: seq<Reservation>, job: string, now: int, extra: int): seq<Reservation> {
    if s == [] then []
    else
      var head := if s[0].jobId == job && !Expired(s[0], now) then Renewed(s[0], now, extra) else s[0];
      [head] + RenewIn(s[1..], job, now, extra)
  }

  predicate Releases(r: Reservation, job: string, lease: Option<string>) {
    r.jobId == job && (lease.None? || r.leaseId == lease.value)
  }

  function Without(s: seq<Reservation>, job: string, lease: Option<string>): seq<Reservation> {
    if s == [] then []
    else if Releases(s[0], job, lease) then Without(s[1..], job, lease)
    else [s[0]] + Without(s[1..], job, lease)
  }

  lemma {:induction false} LiveRenew(s: seq<Reservation>, job: string, now: int, extra: int)
    requires extra >= 1
    ensures Live(RenewIn(s, job, now, extra), now) == RenewIn(Live(s, now), job, now, extra)
  {
    if s != [] {
      LiveRenew(s[1..], job, now, extra);
      var t := RenewIn(s, job, now, extra);
      assert t[1..] == RenewIn(s[1..], job, now, extra);
      if !Expired(s[0], now) {
        assert ([s[0]] + Live(s[1..], now))[1..] == Live(s[1..], now);
      }
    }
  }

  lemma {:induction false} LiveWithout(s: seq<Reservation>, job: string, lease: Option<string>, now: int)
    ensures Live(Without(s, job, lease), now) == Without(Live(s, now), job, lease)
  {
    if s != [] {
      LiveWithout(s[1..], job, lease, now);
      if !Releases(s[0], job, lease) {
        assert ([s[0]] + Without(s[1..], job, lease))[1..] == Without(s[1..], job, lease);
      }
      if !Expired(s[0], now) {
        assert ([s[0]] + Live(s[1..], now))[1..] == Live(s[1..], now);
      }
    }
  }

  // ------------------------------------------------------------- operations

  datatype DeviceStatus = DeviceStatus(total: int, used: int, jobs: int)

  datatype Op =
    | Acquire(args: AcquireArgs)
    | Renew(jobId: string, extra: int)
    | Release(jobId: string, lease: Option<string>)
    | RequireActiveLease(leaseId: string)
    | ListActive
    | GetStatus
    | Prune

  /** What a caller is told. `Done` hides release's boolean and prune's count. */
  datatype Answer =
    | Held(r: Reservation)
    | Refused(error: Error)
    | Listing(active: seq<Reservation>)
    | Status(activeJobs: int, availableSlots: int, usedMemory: int, availableMemory: Option<int>,
             devices: map<string, DeviceStatus>)
    | Done

  function StatusOf(cfg: Config, live: seq<Reservation>): Answer {
    Status(|live|, Max(0, cfg.maxJobs - |live|), MemoryOf(live),
           if cfg.totalMemory.Some? then Some(Max(0, cfg.totalMemory.value - MemoryOf(live))) else None,
           map d | d in cfg.devices :: DeviceStatus(cfg.devices[d], DeviceMemory(live, d), DeviceJobs(live, d)))
  }

  /** The guard as it is: entries are deleted when some operation comes across them expired. */
  function StepStored(cfg: Config, s: seq<Reservation>, op: Op, now: int): (seq<Reservation>, Answer) {
    var live := Live(s, now);
    match op
    case Acquire(a) =>
      if !ArgsOk(cfg, a) then (s, Refused(InvalidArgument))
      else (match Decide(cfg, live, a, now)
            case Denied(e) => (live, Refused(e))
            case Existing(r) => (live, Held(r))
            case Granted(r) => (live + [r], Held(r)))
    case Renew(job, extra) =>
      if !(1 <= extra <= 3600) then (s, Refused(InvalidArgument))
      else (match Find(live, job)
            case None => (live, Refused(InvalidLease))
            case Some(r) => (RenewIn(live, job, now, extra), Held(Renewed(r, now, extra))))
    case Release(job, lease) => (Without(s, job, lease), Done)
    case RequireActiveLease(lease) =>
      if Strip(lease) == "" then (s, Refused(InvalidLease))
      else (match FindLease(live, Strip(lease))
            case None => (live, Refused(InvalidLease))
            case Some(r) => (live, Held(r)))
    case ListActive => (live, Listing(live))
    case GetStatus => (live, StatusOf(cfg, live))
    case Prune => (live, Done)
  }

  /** The reference: a log from which expiry deletes nothing; expired entries are only ignored. */
  function StepLog(cfg: Config, log: seq<Reservation>, op: Op, now: int): (seq<Reservation>, Answer) {
    match op
    case Acquire(a) =>
      if !ArgsOk(cfg, a) then (log, Refused(InvalidArgument))
      else (match Decide(cfg, Live(log, now), a, now)
            case Denied(e) => (log, Refused(e))
            case Existing(r) => (log, Held(r))
            case Granted(r) => (log + [r], Held(r)))
    case Renew(job, extra) =>
      if !(1 <= extra <= 3600) then (log, Refused(InvalidArgument))
      else (match Find(Live(log, now), job)
            case None => (log, Refused(InvalidLease))
            case Some(r) => (RenewIn(log, job, now, extra), Held(Renewed(r, now, extra))))
    case Release(job, lease) => (Without(log, job, lease), Done)
    case RequireActiveLease(lease) =>
      if Strip(lease) == "" then (log, Refused(InvalidLease))
      else (match FindLease(Live(log, now), Strip(lease))
            case None => (log, Refused(InvalidLease))
            case Some(r) => (log, Held(r)))
    case ListActive => (log, Listing(Live(log, now)))
    case GetStatus => (log, StatusOf(cfg, Live(log, now)))
    case Prune => (log, Done)
  }

  datatype Timed = Timed(op: Op, now: int)

  predicate Ordered(ops: seq<Timed>, from: int) {
    ops == [] || (from <= ops[0].now && Ordered(ops[1..], ops[0].now))
  }

  function AnswersStored(cfg: Config, s: seq<Reservation>, ops: seq<Timed>): seq<Answer>
    decreases |ops|
  {
    if ops == [] then []
    else
      var (next, answer) := StepStored(cfg, s, ops[0].op, ops[0].now);
      [answer] + AnswersStored(cfg, next, ops[1..])
  }

  function AnswersLog(cfg: Config, log: seq<Reservation>, ops: seq<Timed>): seq<Answer>
    decreases |ops|
  {
    if ops == [] then []
    else
      var (next, answer) := StepLog(cfg, log, ops[0].op, ops[0].now);
      [answer] + AnswersLog(cfg, next, ops[1..])
  }

  /** One operation: same answer, and the entries that count stay the same from then on. */
  lemma StepInvisible(cfg: Config, s: seq<Reservation>, log: seq<Reservation>, clock: int, op: Op, now: int)
    requires clock <= now && Live(s, clock) == Live(log, clock)
    ensures StepStored(cfg, s, op, now).1 == StepLog(cfg, log, op, now).1
    ensures Live(StepStored(cfg, s, op, now).0, now) == Live(StepLog(cfg, log, op, now).0, now)
  {
    LiveLive(s, clock, now);
    LiveLive(log, clock, now);
    LiveLive(s, now, now);
    match op {
      case Acquire(a) => AcquireInvisible(cfg, s, log, a, now);
      case Renew(job, extra) => RenewInvisible(cfg, s, log, job, extra, now);
      case Release(job, lease) =>
        LiveWithout(s, job, lease, now);
        LiveWithout(log, job, lease, now);
      case _ =>
    }
  }

  lemma AcquireInvisible(cfg: Config, s: seq<Reservation>, log: seq<Reservation>, a: AcquireArgs, now: int)
    requires Live(s, now) == Live(log, now)
    ensures StepStored(cfg, s, Acquire(a), now).1 == StepLog(cfg, log, Acquire(a), now).1
    ensures Live(StepStored(cfg, s, Acquire(a), now).0, now) == Live(StepLog(cfg, log, Acquire(a), now).0, now)
  {
    var live := Live(s, now);
    LiveLive(s, now, now);
    var d := Decide(cfg, live, a, now);
    if d.Granted? {
      LiveConcat(live, [d.r], now);
      LiveConcat(log, [d.r], now);
    }
  }

  lemma RenewInvisible(cfg: Config, s: seq<Reservation>, log: seq<Reservation>, job: string, extra: int, now: int)
    requires Live(s, now) == Live(log, now)
    ensures StepStored(cfg, s, Renew(job, extra), now).1 == StepLog(cfg, log, Renew(job, extra), now).1
    ensures Live(StepStored(cfg, s, Renew(job, extra), now).0, now)
         == Live(StepLog(cfg, log, Renew(job, extra), now).0, now)
  {
    LiveLive(s, now, now);
    if 1 <= extra {
      LiveRenew(Live(s, now), job, now, extra);
      LiveRenew(log, job, now, extra);
    }
  }

  /** Lazy pruning is invisible: with a clock that never goes back, no caller can tell the guard
      from the log that keeps every expired lease. */
  lemma {:induction false} PruningIsInvisible(
    cfg: Config, s: seq<Reservation>, log: seq<Reservation>, clock: int, ops: seq<Timed>)
    requires Live(s, clock) == Live(log, clock) && Ordered(ops, clock)
    ensures AnswersStored(cfg, s, ops) == AnswersLog(cfg, log, ops)
    decreases |ops|
  {
    if ops != [] {
      StepInvisible(cfg, s, log, clock, ops[0].op, ops[0].now);
      PruningIsInvisible(cfg, StepStored(cfg, s, ops[0].op, ops[0].now).0,
                         StepLog(cfg, log, ops[0].op, ops[0].now).0, ops[0].now, ops[1..]);
    }
  }

  // ------------------------------------------------------------------ limits

  predicate UniqueJobs(s: seq<Reservation>) {
    s == [] || (Find(s[1..], s[0].jobId).None? && UniqueJobs(s[1..]))
  }

  predicate Proper(cfg: Config, r: Reservation) {
    r.memory >= 0 && r.nodeId == cfg.nodeId && (cfg.devices != map[] ==> r.deviceId in cfg.devices)
  }

  /** Slots, total memory, every device's memory, and the device profile are respected. */
  ghost predicate WithinLimits(cfg: Config, s: seq<Reservation>) {
    && UniqueJobs(s) && |s| <= cfg.maxJobs
    && (forall r :: r in s ==> Proper(cfg, r))
    && (cfg.totalMemory.Some? ==> MemoryOf(s) <= cfg.totalMemory.value)
    && (forall d :: d in cfg.devices ==> DeviceMemory(s, d) <= cfg.devices[d])
  }

  /** `t` keeps some of the entries of `s`, in order. */
  predicate Thinned(t: seq<Reservation>, s: seq<Reservation>) {
    if s == [] then t == []
    else (t != [] && t[0] == s[0] && Thinned(t[1..], s[1..])) || Thinned(t, s[1..])
  }

  lemma {:induction false} LiveThins(s: seq<Reservation>, now: int)
    ensures Thinned(Live(s, now), s)
  {
    if s != [] {
      LiveThins(s[1..], now);
    }
  }

  lemma {:induction false} WithoutThins(s: seq<Reservation>, job: string, lease: Option<string>)
    ensures Thinned(Without(s, job, lease), s)
  {
    if s != [] {
      WithoutThins(s[1..], job, lease);
    }
  }

  lemma {:induction false} ThinnedFacts(t: seq<Reservation>, s: seq<Reservation>, device: string, job: string)
    requires Thinned(t, s) && forall r :: r in s ==> r.memory >= 0
    ensures |t| <= |s| && 0 <= MemoryOf(t) <= MemoryOf(s) && 0 <= DeviceMemory(t, device) <= DeviceMemory(s, device)
    ensures Find(s, job).None? ==> Find(t, job).None?
    ensures UniqueJobs(s) ==> UniqueJobs(t)
    ensures forall r :: r in t ==> r in s
    decreases |s|
  {
    if s != [] {
      assert s[0] in s && forall r :: r in s[1..] ==> r in s;
      if t != [] && t[0] == s[0] && Thinned(t[1..], s[1..]) {
        ThinnedFacts(t[1..], s[1..], device, job);
        ThinnedFacts(t[1..], s[1..], device, s[0].jobId);
      } else {
        ThinnedFacts(t, s[1..], device, job);
      }
    }
  }

  lemma ThinnedWithinLimits(cfg: Config, t: seq<Reservation>, s: seq<Reservation>)
    requires Thinned(t, s) && WithinLimits(cfg, s)
    ensures WithinLimits(cfg, t)
  {
    ThinnedFacts(t, s, "", "");
    forall d | d in cfg.devices
      ensures DeviceMemory(t, d) <= cfg.devices[d]
    {
      ThinnedFacts(t, s, d, "");
    }
  }

  lemma {:induction false} RenewFacts(
    s: seq<Reservation>, job: string, now: int, extra: int, device: string, other: string)
    ensures var t := RenewIn(s, job, now, extra);
      && |t| == |s| && MemoryOf(t) == MemoryOf(s) && DeviceMemory(t, device) == DeviceMemory(s, device)
      && (Find(t, other).None? <==> Find(s, other).None?)
      && (UniqueJobs(t) <==> UniqueJobs(s))
      && forall i :: 0 <= i < |s| ==>
           t[i] == if s[i].jobId == job && !Expired(s[i], now) then Renewed(s[i], now, extra) else s[i]
  {
    if s != [] {
      RenewFacts(s[1..], job, now, extra, device, other);
      RenewFacts(s[1..], job, now, extra, device, s[0].jobId);
      assert RenewIn(s, job, now, extra)[1..] == RenewIn(s[1..], job, now, extra);
    }
  }

  lemma RenewWithinLimits(cfg: Config, s: seq<Reservation>, job: string, now: int, extra: int)
    requires WithinLimits(cfg, s)
    ensures WithinLimits(cfg, RenewIn(s, job, now, extra))
  {
    RenewFacts(s, job, now, extra, "", "");
    var t := RenewIn(s, job, now, extra);
    forall d | d in cfg.devices
      ensures DeviceMemory(t, d) <= cfg.devices[d]
    {
      RenewFacts(s, job, now, extra, d, "");
    }
    forall r | r in t
      ensures Proper(cfg, r)
    {
      var i :| 0 <= i < |t| && t[i] == r;
      assert s[i] in s;
    }
  }

  lemma {:induction false} AppendFacts(s: seq<Reservation>, r: Reservation, device: string, job: string)
    ensures MemoryOf(s + [r]) == MemoryOf(s) + r.memory
    ensures DeviceMemory(s + [r], device) == DeviceMemory(s, device) + (if r.deviceId == device then r.memory else 0)
    ensures Find(s + [r], job).None? <==> Find(s, job).None? && r.jobId != job
    ensures UniqueJobs(s) && Find(s, r.jobId).None? ==> UniqueJobs(s + [r])
  {
    if s != [] {
      assert (s + [r])[1..] == s[1..] + [r];
      AppendFacts(s[1..], r, device, job);
      AppendFacts(s[1..], r, device, s[0].jobId);
    } else {
      assert s + [r] == [r];
    }
  }

  lemma GrantWithinLimits(cfg: Config, live: seq<Reservation>, a: AcquireArgs, now: int)
    requires WithinLimits(cfg, live) && ArgsOk(cfg, a) && Decide(cfg, live, a, now).Granted?
    ensures WithinLimits(cfg, live + [Decide(cfg, live, a, now).r])
  {
    var r := Decide(cfg, live, a, now).r;
    AppendFacts(live, r, "", "");
    forall d | d in cfg.devices
      ensures DeviceMemory(live + [r], d) <= cfg.devices[d]
    {
      AppendFacts(live, r, d, "");
    }
  }

  lemma StepWithinLimits(cfg: Config, s: seq<Reservation>, op: Op, now: int)
    requires WithinLimits(cfg, s)
    ensures WithinLimits(cfg, StepStored(cfg, s, op, now).0)
  {
    var live := Live(s, now);
    LiveThins(s, now);
    ThinnedWithinLimits(cfg, live, s);
    match op {
      case Acquire(a) =>
        if ArgsOk(cfg, a) && Decide(cfg, live, a, now).Granted? {
          GrantWithinLimits(cfg, live, a, now);
        }
      case Renew(job, extra) => RenewWithinLimits(cfg, live, job, now, extra);
      case Release(job, lease) =>
        WithoutThins(s, job, lease);
        ThinnedWithinLimits(cfg, Without(s, job, lease), s);
      case _ =>
    }
  }

  function RunStored(cfg: Config, s: seq<Reservation>, ops: seq<Timed>): seq<Reservation>
    decreases |ops|
  {
    if ops == [] then s else RunStored(cfg, StepStored(cfg, s, ops[0].op, ops[0].now).0, ops[1..])
  }

  /** No sequence of operations, at any clock readings, ever stores more than the limits allow. */
  lemma {:induction false} RunsStayWithinLimits(cfg: Config, s: seq<Reservation>, ops: seq<Timed>)
    requires WithinLimits(cfg, s)
    ensures WithinLimits(cfg, RunStored(cfg, s, ops))
    decreases |ops|
  {
    if ops != [] {
      StepWithinLimits(cfg, s, ops[0].op, ops[0].now);
      RunsStayWithinLimits(cfg, StepStored(cfg, s, ops[0].op, ops[0].now).0, ops[1..]);
    }
  }

  /** Renewing lengthens the one live lease of the job, past both its old end and the present,
      and touches no other field and no other entry. */
  lemma RenewOnlyExtends(cfg: Config, s: seq<Reservation>, job: string, extra: int, now: int)
    requires 1 <= extra <= 3600
    ensures var live, after := Live(s, now), StepStored(cfg, s, Renew(job, extra), now).0;
      && |after| == |live|
      && forall i :: 0 <= i < |live| ==>
           && after[i] == live[i].(expiresAt := after[i].expiresAt)
           && (live[i].jobId == job ==>
                 after[i].expiresAt >= live[i].expiresAt + extra && after[i].expiresAt >= now + extra)
           && (live[i].jobId != job ==> after[i] == live[i])
  {
    var live := Live(s, now);
    RenewFacts(live, job, now, extra, "", "");
    forall i | 0 <= i < |live|
      ensures !Expired(live[i], now)
    {
      LiveMember(s, now, live[i]);
    }
    if Find(live, job).None? {
      NotFound(live, job);
    }
  }

  lemma {:induction false} NotFound(s: seq<Reservation>, job: string)
    requires Find(s, job).None?
    ensures forall i :: 0 <= i < |s| ==> s[i].jobId != job
  {
    if s != [] {
      NotFound(s[1..], job);
    }
  }

  /** Releasing drops exactly the entries of that job, and with a lease id only that lease's. */
  lemma {:induction false} ReleaseSparesOthers(s: seq<Reservation>, job: string, lease: Option<string>, r: Reservation)
    ensures r in Without(s, job, lease) <==> r in s && !Releases(r, job, lease)
  {
    if s != [] {
      ReleaseSparesOthers(s[1..], job, lease, r);
    }
  }

  // ------------------------------------------------------------------- guard

  predicate DeviceOk(d: (string, int)) {
    1 <= |Strip(d.0)| <= 128 && d.1 >= 1
  }

  /** The device limits by stripped id. */
  function DeviceMap(devices: seq<(string, int)>): map<string, int> {
    if devices == [] then map[]
    else DeviceMap(devices[..|devices| - 1])[Strip(devices[|devices| - 1].0) := devices[|devices| - 1].1]
  }

  lemma DeviceMapNext(devices: seq<(string, int)>, k: nat)
    requires k < |devices|
    ensures DeviceMap(devices[..k + 1]) == DeviceMap(devices[..k])[Strip(devices[k].0) := devices[k].1]
  {
    assert devices[..k + 1][..k] == devices[..k];
  }

  lemma {:induction false} DeviceMapOk(devices: seq<(string, int)>)
    requires forall k :: 0 <= k < |devices| ==> DeviceOk(devices[k])
    ensures forall d :: d in DeviceMap(devices) ==> 1 <= |d| <= 128 && DeviceMap(devices)[d] >= 1
  {
    if devices != [] {
      DeviceMapOk(devices[..|devices| - 1]);
      assert DeviceOk(devices[|devices| - 1]);
    }
  }

  /** The loop over the given device limits. */
  method NormalizedDevices(devices: seq<(string, int)>) returns (r: Option<map<string, int>>)
    ensures r.Some? <==> forall k :: 0 <= k < |devices| ==> DeviceOk(devices[k])
    ensures r.Some? ==> r.value == DeviceMap(devices)
    ensures r.Some? ==> forall d :: d in r.value ==> 1 <= |d| <= 128 && r.value[d] >= 1
  {
    var normalized: map<string, int> := map[];
    for k := 0 to |devices|
      invariant normalized == DeviceMap(devices[..k])
      invariant forall i :: 0 <= i < k ==> DeviceOk(devices[i])
    {
      var id := Strip(devices[k].0);
      if id == "" || |id| > 128 || devices[k].1 < 1 { return None; }
      normalized := normalized[id := devices[k].1];
      DeviceMapNext(devices, k);
    }
    assert devices[..|devices|] == devices;
    DeviceMapOk(devices);
    r := Some(normalized);
  }

  class LocalCapacityGuard {
    const config: Config
    var reservations: seq<Reservation>

    ghost predicate Valid() reads this {
      config.Valid() && WithinLimits(config, reservations)
    }

    /** A guard for checked arguments, with its device ids stripped of white space; a repeated id
        keeps its last limit. Anything else is refused. */
    static method Create(
      nodeId: string, maxJobs: int, totalMemory: Option<int>, devices: seq<(string, int)>, defaultTtl: int)
      returns (r: Result<LocalCapacityGuard, Error>)
      ensures var config := Config(nodeId, maxJobs, totalMemory, DeviceMap(devices), defaultTtl);
        && (r.Ok? <==> config.Valid() && forall k :: 0 <= k < |devices| ==> DeviceOk(devices[k]))
        && (r.Ok? ==> fresh(r.value) && r.value.config == config && r.value.reservations == [] && r.value.Valid())
      ensures r.Err? ==> r.error == InvalidArgument
    {
      if nodeId == "" || maxJobs < 1 { return Err(InvalidArgument); }
      if totalMemory.Some? && totalMemory.value < 1 { return Err(InvalidArgument); }
      var normalized := NormalizedDevices(devices);
      if normalized.None? || !(1 <= defaultTtl <= 3600) { return Err(InvalidArgument); }
      var guard := new LocalCapacityGuard(Config(nodeId, maxJobs, totalMemory, normalized.value, defaultTtl));
      return Ok(guard);
    }

    constructor (config: Config)
      requires config.Valid()
      ensures this.config == config && reservations == [] && Valid()
    {
      this.config := config;
      reservations := [];
    }

    /** One pass over the table, keeping what has not expired. */
    method PruneExpiredLocked(now: int) returns (pruned: int)
      modifies this
      ensures reservations == Live(old(reservations), now)
      ensures pruned == |old(reservations)| - |reservations|
    {
      var kept := [];
      var i := 0;
      pruned := 0;
      while i < |reservations|
        invariant 0 <= i <= |reservations| && reservations == old(reservations)
        invariant kept == Live(reservations[..i], now) && pruned == i - |kept|
      {
        LiveConcat(reservations[..i], [reservations[i]], now);
        assert reservations[..i + 1] == reservations[..i] + [reservations[i]];
        if Expired(reservations[i], now) {
          pruned := pruned + 1;
        } else {
          kept := kept + [reservations[i]];
        }
        i := i + 1;
      }
      assert reservations[..i] == reservations;
      reservations := kept;
    }

    method Acquire(a: AcquireArgs, now: int) returns (answer: Answer)
      requires Valid()
      modifies this
      ensures Valid()
      ensures (reservations, answer) == StepStored(config, old(reservations), Op.Acquire(a), now)
    {
      StepWithinLimits(config, reservations, Op.Acquire(a), now);
      if !ArgsOk(config, a) { return Refused(InvalidArgument); }
      var _ := PruneExpiredLocked(now);
      var device := ResolveDevice(config, Strip(a.deviceId));
      if device.Err? { return Refused(device.error); }
      var existing := Find(reservations, a.jobId);
      if existing.Some? {
        if existing.value.leaseId == EffectiveLease(a) { return Held(existing.value); }
        return Refused(CapacityExceeded);
      }
      if |reservations| >= config.maxJobs { return Refused(CapacityExceeded); }
      if config.totalMemory.Some? && MemoryOf(reservations) + a.memory > config.totalMemory.value {
        return Refused(CapacityExceeded);
      }
      if device.value in config.devices
         && DeviceMemory(reservations, device.value) + a.memory > config.devices[device.value] {
        return Refused(CapacityExceeded);
      }
      var ttl := if a.ttl.Some? then a.ttl.value else config.defaultTtl;
      var r := Reservation("res-" + a.reservationToken, EffectiveLease(a), a.jobId, config.nodeId, device.value,
                           a.memory, now, now + ttl);
      reservations := reservations + [r];
      return Held(r);
    }

    /** Deletes the stored entry of the job, live or not, if the lease matches. */
    method Release(job: string, lease: Option<string>) returns (released: bool)
      requires Valid()
      modifies this
      ensures Valid()
      ensures reservations == Without(old(reservations), job, lease)
      ensures released <==> exists r :: r in old(reservations) && Releases(r, job, lease)
    {
      StepWithinLimits(config, reservations, Op.Release(job, lease), 0);
      var i := IndexOf(job);
      if i == |reservations| {
        NothingToRelease(reservations, job, lease);
        return false;
      }
      ReleaseAt(reservations, i, lease);
      ReleasedIffHeld(reservations, i, lease);
      released := lease.None? || reservations[i].leaseId == lease.value;
      if released {
        reservations := reservations[..i] + reservations[i + 1..];
      }
    }

    method IndexOf(job: string) returns (i: nat)
      ensures i <= |reservations|
      ensures i < |reservations| ==> reservations[i].jobId == job
      ensures forall k :: 0 <= k < i ==> reservations[k].jobId != job
    {
      i := 0;
      while i < |reservations| && reservations[i].jobId != job
        invariant i <= |reservations|
        invariant forall k :: 0 <= k < i ==> reservations[k].jobId != job
      {
        i := i + 1;
      }
    }

    method RequireActiveLease(leaseId: string, now: int) returns (answer: Answer)
      requires Valid()
      modifies this
      ensures Valid()
      ensures (reservations, answer) == StepStored(config, old(reservations), Op.RequireActiveLease(leaseId), now)
    {
      StepWithinLimits(config, reservations, Op.RequireActiveLease(leaseId), now);
      var lease := Strip(leaseId);
      if lease == "" { return Refused(InvalidLease); }
      var _ := PruneExpiredLocked(now);
      var i := 0;
      while i < |reservations|
        invariant 0 <= i <= |reservations| && reservations == Live(old(reservations), now)
        invariant FindLease(reservations, lease) == FindLease(reservations[i..], lease)
      {
        if reservations[i].leaseId == lease { return Held(reservations[i]); }
        i := i + 1;
      }
      return Refused(InvalidLease);
    }

    method Renew(job: string, extra: int, now: int) returns (answer: Answer)
      requires Valid()
      modifies this
      ensures Valid()
      ensures (reservations, answer) == StepStored(config, old(reservations), Op.Renew(job, extra), now)
    {
      StepWithinLimits(config, reservations, Op.Renew(job, extra), now);
      LiveThins(reservations, now);
      ThinnedWithinLimits(config, Live(reservations, now), reservations);
      if !(1 <= extra <= 3600) { return Refused(InvalidArgument); }
      var _ := PruneExpiredLocked(now);
      var i := 0;
      while i < |reservations|
        invariant 0 <= i <= |reservations| && reservations == Live(old(reservations), now)
        invariant forall k :: 0 <= k < i ==> reservations[k].jobId != job
        invariant Find(reservations, job) == Find(reservations[i..], job)
      {
        if reservations[i].jobId == job {
          var updated := Renewed(reservations[i], now, extra);
          RenewedAt(old(reservations), reservations, i, now, extra);
          reservations := reservations[i := updated];
          return Held(updated);
        }
        i := i + 1;
      }
      return Refused(InvalidLease);
    }

    method GetStatus(now: int) returns (answer: Answer)
      requires Valid()
      modifies this
      ensures Valid()
      ensures (reservations, answer) == StepStored(config, old(reservations), Op.GetStatus, now)
    {
      StepWithinLimits(config, reservations, Op.GetStatus, now);
      var _ := PruneExpiredLocked(now);
      answer := StatusOf(config, reservations);
    }
  }

  lemma {:induction false} NothingToRelease(s: seq<Reservation>, job: string, lease: Option<string>)
    requires forall k :: 0 <= k < |s| ==> s[k].jobId != job
    ensures Without(s, job, lease) == s
  {
    if s != [] {
      NothingToRelease(s[1..], job, lease);
    }
  }

  lemma {:induction false} JobsDiffer(s: seq<Reservation>, i: nat)
    requires UniqueJobs(s) && i < |s|
    ensures forall k :: 0 <= k < |s| && k != i ==> s[k].jobId != s[i].jobId
  {
    NotFound(s[1..], s[0].jobId);
    if i > 0 {
      JobsDiffer(s[1..], i - 1);
    }
  }

  lemma {:induction false} WithoutConcat(a: seq<Reservation>, b: seq<Reservation>, job: string, lease: Option<string>)
    ensures Without(a + b, job, lease) == Without(a, job, lease) + Without(b, job, lease)
  {
    if a == [] {
      assert a + b == b;
    } else {
      assert (a + b)[1..] == a[1..] + b;
      WithoutConcat(a[1..], b, job, lease);
    }
  }

  function KeptOf(x: Reservation, job: string, lease: Option<string>): seq<Reservation> {
    if Releases(x, job, lease) then [] else [x]
  }

  lemma WithoutOne(x: Reservation, job: string, lease: Option<string>)
    ensures Without([x], job, lease) == KeptOf(x, job, lease)
  {
  }

  /** With one entry per job, releasing at most cuts out that entry. */
  lemma CutOut(a: seq<Reservation>, x: Reservation, b: seq<Reservation>, job: string, lease: Option<string>)
    requires Without(a, job, lease) == a && Without(b, job, lease) == b
    ensures Without(a + [x] + b, job, lease) == a + KeptOf(x, job, lease) + b
  {
    calc {
      Without(a + [x] + b, job, lease);
      { WithoutConcat(a + [x], b, job, lease); }
      Without(a + [x], job, lease) + b;
      { WithoutConcat(a, [x], job, lease); WithoutOne(x, job, lease); }
      a + KeptOf(x, job, lease) + b;
    }
  }

  lemma Around(s: seq<Reservation>, i: nat, lease: Option<string>)
    requires UniqueJobs(s) && i < |s|
    ensures Without(s[..i], s[i].jobId, lease) == s[..i] && Without(s[i + 1..], s[i].jobId, lease) == s[i + 1..]
  {
    JobsDiffer(s, i);
    NothingToRelease(s[..i], s[i].jobId, lease);
    NothingToRelease(s[i + 1..], s[i].jobId, lease);
  }

  lemma Mend(a: seq<Reservation>, x: Reservation, b: seq<Reservation>, s: seq<Reservation>, i: nat)
    requires i < |s| && a == s[..i] && x == s[i] && b == s[i + 1..]
    ensures a + [x] + b == s && a + [] + b == a + b
  {
  }

  lemma ReleaseAt(s: seq<Reservation>, i: nat, lease: Option<string>)
    requires UniqueJobs(s) && i < |s|
    ensures Without(s, s[i].jobId, lease)
         == if Releases(s[i], s[i].jobId, lease) then s[..i] + s[i + 1..] else s
  {
    var a, x, b := s[..i], s[i], s[i + 1..];
    Around(s, i, lease);
    CutOut(a, x, b, x.jobId, lease);
    Mend(a, x, b, s, i);
  }

  lemma ReleasedIffHeld(s: seq<Reservation>, i: nat, lease: Option<string>)
    requires UniqueJobs(s) && i < |s|
    ensures (exists r :: r in s && Releases(r, s[i].jobId, lease)) <==> Releases(s[i], s[i].jobId, lease)
  {
    JobsDiffer(s, i);
    assert s[i] in s;
  }

  lemma RenewedAt(stored: seq<Reservation>, s: seq<Reservation>, i: nat, now: int, extra: int)
    requires s == Live(stored, now) && UniqueJobs(s) && i < |s|
    ensures RenewIn(s, s[i].jobId, now, extra) == s[i := Renewed(s[i], now, extra)]
  {
    RenewFacts(s, s[i].jobId, now, extra, "", "");
    JobsDiffer(s, i);
    LiveMember(stored, now, s[i]);
  }
}
