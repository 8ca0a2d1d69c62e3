/**
 Every answer of the capacity guard in terms of the stored table and the time alone: when a lease
 is handed out, when the held one is returned, when a call is refused, and what the table is
 afterwards.
 */
module CapacityAnswers {
  import opened Basics
  import opened CapacityGuard

  // ----------------------------------------------- the table at a given time

  predicate IsLive(r: Reservation, now: int) {
    now < r.expiresAt
  }

  /** The live entries of the table, counted and summed from its end. */
  function LiveCount(s: seq<Reservation>, now: int): nat {
    if s == [] then 0
    else LiveCount(s[..|s| - 1], now) + (if IsLive(s[|s| - 1], now) then 1 else 0)
  }

  function LiveMemory(s: seq<Reservation>, now: int): int {
    if s == [] then 0
    else LiveMemory(s[..|s| - 1], now) + (if IsLive(s[|s| - 1], now) then s[|s| - 1].memory else 0)
  }

  predicate OnDevice(r: Reservation, device: string, now: int) {
    IsLive(r, now) && r.deviceId == device
  }

  function LiveOnDevice(s: seq<Reservation>, device: string, now: int): int {
    if s == [] then 0
    else
      LiveOnDevice(s[..|s| - 1], device, now)
      + (if OnDevice(s[|s| - 1], device, now) then s[|s| - 1].memory else 0)
  }

  function JobsOnDevice(s: seq<Reservation>, device: string, now: int): nat {
    if s == [] then 0
    else JobsOnDevice(s[..|s| - 1], device, now) + (if OnDevice(s[|s| - 1], device, now) then 1 else 0)
  }

  /** The job has a live entry under this lease. */
  predicate Holds(s: seq<Reservation>, now: int, job: string, r: Reservation) {
    r in s && IsLive(r, now) && r.jobId == job
  }

  /** Pruning keeps exactly the live entries, in their order. */
  lemma PruneExactly(s: seq<Reservation>, now: int, r: Reservation)
    ensures r in Live(s, now) <==> r in s && IsLive(r, now)
    ensures Thinned(Live(s, now), s) && |Live(s, now)| == LiveCount(s, now)
  {
    LiveMember(s, now, r);
    LiveThins(s, now);
    LiveSums(s, now, "");
  }

  lemma {:induction false} MemorySnoc(s: seq<Reservation>, r: Reservation, device: string)
    ensures MemoryOf(s + [r]) == MemoryOf(s) + r.memory
    ensures DeviceMemory(s + [r], device) == DeviceMemory(s, device) + (if r.deviceId == device then r.memory else 0)
    ensures DeviceJobs(s + [r], device) == DeviceJobs(s, device) + (if r.deviceId == device then 1 else 0)
  {
    if s == [] {
      assert s + [r] == [r] && [r][1..] == [];
    } else {
      assert (s + [r])[1..] == s[1..] + [r];
      MemorySnoc(s[1..], r, device);
    }
  }

  lemma {:induction false} LiveSums(s: seq<Reservation>, now: int, device: string)
    ensures |Live(s, now)| == LiveCount(s, now) && MemoryOf(Live(s, now)) == LiveMemory(s, now)
    ensures DeviceMemory(Live(s, now), device) == LiveOnDevice(s, device, now)
    ensures DeviceJobs(Live(s, now), device) == JobsOnDevice(s, device, now)
  {
    if s != [] {
      var init, r := s[..|s| - 1], s[|s| - 1];
      Unsnoc(s);
      LiveSums(init, now, device);
      LiveConcat(init, [r], now);
      assert [r][1..] == [] && Live([r], now) == if IsLive(r, now) then [r] else [];
      assert Live(init, now) + [] == Live(init, now);
      MemorySnoc(Live(init, now), r, device);
    }
  }

  lemma {:induction false} FindExactly(s: seq<Reservation>, job: string)
    ensures Find(s, job).Some? <==> exists r :: r in s && r.jobId == job
    ensures Find(s, job).Some? ==> Find(s, job).value in s && Find(s, job).value.jobId == job
  {
    if s != [] && s[0].jobId != job {
      FindExactly(s[1..], job);
      assert forall r :: r in s <==> r == s[0] || r in s[1..];
    }
  }

  lemma {:induction false} OneEntry(s: seq<Reservation>, a: Reservation, b: Reservation)
    requires UniqueJobs(s) && a in s && b in s && a.jobId == b.jobId
    ensures a == b
  {
    var i :| 0 <= i < |s| && s[i] == a;
    JobsDiffer(s, i);
  }

  // ------------------------------------------------------------------ acquire

  /** The device that a stripped device id stands for. */
  predicate Chosen(cfg: Config, id: string, device: string) {
    if cfg.devices == map[] then device == id
    else if id == "default" then cfg.devices.Keys == {device}
    else id in cfg.devices && device == id
  }

  lemma ResolveExactly(cfg: Config, id: string)
    ensures match ResolveDevice(cfg, id)
      case Ok(device) => Chosen(cfg, id, device)
      case Err(e) => e == CapacityExceeded && forall device :: !Chosen(cfg, id, device)
  {
    if cfg.devices != map[] && id == "default" {
      if |cfg.devices| == 1 {
        OnlyKey(cfg.devices);
        var d := ResolveDevice(cfg, id).value;
        assert cfg.devices.Keys == {d};
      } else {
        forall device: string
          ensures cfg.devices.Keys != {device}
        {
          assert |{device}| == 1 && |cfg.devices.Keys| == |cfg.devices|;
        }
      }
    }
  }

  lemma ChosenOnce(cfg: Config, id: string, a: string, b: string)
    requires Chosen(cfg, id, a) && Chosen(cfg, id, b)
    ensures a == b
  {
    assert cfg.devices != map[] && id == "default" ==> a in {b};
  }

  function TtlOf(cfg: Config, a: AcquireArgs): int {
    if a.ttl.None? then cfg.defaultTtl else a.ttl.value
  }

  function LeaseOf(a: AcquireArgs): string {
    if a.leaseId.None? || a.leaseId.value == "" then "local-lease-" + a.leaseToken else a.leaseId.value
  }

  predicate GoodArgs(cfg: Config, a: AcquireArgs) {
    a.jobId != "" && a.memory >= 0 && 1 <= |Strip(a.deviceId)| <= 128 && 1 <= TtlOf(cfg, a) <= 3600
  }

  /** A slot, total memory and device memory are free at `now`. */
  predicate Room(cfg: Config, s: seq<Reservation>, memory: int, device: string, now: int) {
    && LiveCount(s, now) < cfg.maxJobs
    && (cfg.totalMemory.Some? ==> LiveMemory(s, now) + memory <= cfg.totalMemory.value)
    && (device in cfg.devices ==> LiveOnDevice(s, device, now) + memory <= cfg.devices[device])
  }

  /** The reservation that a grant consists of. */
  function Grant(cfg: Config, a: AcquireArgs, device: string, now: int): Reservation {
    Reservation("res-" + a.reservationToken, LeaseOf(a), a.jobId, cfg.nodeId, device, a.memory,
                now, now + TtlOf(cfg, a))
  }

  /** On the chosen device: the held reservation exactly when the job has a live one under that
      lease, a refusal when it has one under another; and without one, a new reservation
      exactly when there is room. */
  ghost predicate AcquireOnSpec(
    cfg: Config, s: seq<Reservation>, a: AcquireArgs, now: int, device: string, t: seq<Reservation>, answer: Answer)
  {
    && (forall r :: Holds(s, now, a.jobId, r) && r.leaseId == LeaseOf(a) ==> t == Live(s, now) && answer == Held(r))
    && (forall r :: Holds(s, now, a.jobId, r) && r.leaseId != LeaseOf(a) ==>
          t == Live(s, now) && answer == Refused(CapacityExceeded))
    && ((forall r :: !Holds(s, now, a.jobId, r)) ==>
          if Room(cfg, s, a.memory, device, now)
          then answer == Held(Grant(cfg, a, device, now)) && t == Live(s, now) + [Grant(cfg, a, device, now)]
          else answer == Refused(CapacityExceeded) && t == Live(s, now))
  }

  ghost predicate AcquireSpec(
    cfg: Config, s: seq<Reservation>, a: AcquireArgs, now: int, t: seq<Reservation>, answer: Answer)
  {
    if !GoodArgs(cfg, a) then t == s && answer == Refused(InvalidArgument)
    else
      && (forall device :: Chosen(cfg, Strip(a.deviceId), device) ==> AcquireOnSpec(cfg, s, a, now, device, t, answer))
      && ((forall device :: !Chosen(cfg, Strip(a.deviceId), device)) ==>
            t == Live(s, now) && answer == Refused(CapacityExceeded))
  }

  lemma AcquireExactly(cfg: Config, s: seq<Reservation>, a: AcquireArgs, now: int)
    requires UniqueJobs(s)
    ensures var (t, answer) := StepStored(cfg, s, Op.Acquire(a), now); AcquireSpec(cfg, s, a, now, t, answer)
  {
    if GoodArgs(cfg, a) {
      var id := Strip(a.deviceId);
      var (t, answer) := StepStored(cfg, s, Op.Acquire(a), now);
      ResolveExactly(cfg, id);
      forall device | Chosen(cfg, id, device)
        ensures AcquireOnSpec(cfg, s, a, now, device, t, answer)
      {
        ChosenOnce(cfg, id, device, ResolveDevice(cfg, id).value);
        AcquireOn(cfg, s, a, now, device);
      }
    }
  }

  lemma AcquireOn(cfg: Config, s: seq<Reservation>, a: AcquireArgs, now: int, device: string)
    requires UniqueJobs(s) && GoodArgs(cfg, a) && ResolveDevice(cfg, Strip(a.deviceId)) == Ok(device)
    ensures var (t, answer) := StepStored(cfg, s, Op.Acquire(a), now);
      AcquireOnSpec(cfg, s, a, now, device, t, answer)
  {
    HolderExactly(s, now, a.jobId);
    if Find(Live(s, now), a.jobId).None? {
      RoomExactly(cfg, s, a, device, now);
    }
  }

  /** Without a holder the decision is about room alone. */
  lemma RoomExactly(cfg: Config, s: seq<Reservation>, a: AcquireArgs, device: string, now: int)
    requires ResolveDevice(cfg, Strip(a.deviceId)) == Ok(device) && Find(Live(s, now), a.jobId).None?
    ensures Decide(cfg, Live(s, now), a, now) ==
      if Room(cfg, s, a.memory, device, now) then Granted(Grant(cfg, a, device, now)) else Denied(CapacityExceeded)
  {
    LiveSums(s, now, device);
  }

  /** The entry that is found is the one live entry of the job. */
  lemma HolderExactly(s: seq<Reservation>, now: int, job: string)
    requires UniqueJobs(s)
    ensures Find(Live(s, now), job).Some? <==> exists r :: Holds(s, now, job, r)
    ensures forall r :: Holds(s, now, job, r) ==> Find(Live(s, now), job) == Some(r)
  {
    var found := Find(Live(s, now), job);
    FindExactly(Live(s, now), job);
    if found.Some? {
      LiveMember(s, now, found.value);
      assert Holds(s, now, job, found.value);
    }
    forall r | Holds(s, now, job, r)
      ensures found == Some(r)
    {
      LiveMember(s, now, r);
      OneEntry(s, r, found.value);
    }
  }

  // ------------------------------------------------------ renew and the others

  /** A live lease of the job is extended by exactly the given time and nothing else changes; a job
      without one is refused. */
  ghost predicate RenewSpec(
    s: seq<Reservation>, job: string, extra: int, now: int, t: seq<Reservation>, answer: Answer)
  {
    if !(1 <= extra <= 3600) then t == s && answer == Refused(InvalidArgument)
    else
      && ((forall r :: !Holds(s, now, job, r)) ==> t == Live(s, now) && answer == Refused(InvalidLease))
      && (forall r :: Holds(s, now, job, r) ==> answer == Held(r.(expiresAt := r.expiresAt + extra)))
      && ((exists r :: Holds(s, now, job, r)) ==>
            var live := Live(s, now);
            && |t| == |live|
            && forall i :: 0 <= i < |live| ==>
                 t[i] == if live[i].jobId == job then live[i].(expiresAt := live[i].expiresAt + extra) else live[i])
  }

  lemma RenewExactly(cfg: Config, s: seq<Reservation>, job: string, extra: int, now: int)
    requires UniqueJobs(s)
    ensures var (t, answer) := StepStored(cfg, s, Op.Renew(job, extra), now); RenewSpec(s, job, extra, now, t, answer)
  {
    HolderExactly(s, now, job);
    RenewedTable(s, job, now, extra);
    forall r | Holds(s, now, job, r)
      ensures Renewed(r, now, extra) == r.(expiresAt := r.expiresAt + extra)
    {
    }
  }

  lemma RenewedTable(s: seq<Reservation>, job: string, now: int, extra: int)
    ensures var live := Live(s, now);
      var t := RenewIn(live, job, now, extra);
      && |t| == |live|
      && forall i :: 0 <= i < |live| ==>
           t[i] == if live[i].jobId == job then live[i].(expiresAt := live[i].expiresAt + extra) else live[i]
  {
    var live := Live(s, now);
    RenewFacts(live, job, now, extra, "", "");
    forall i | 0 <= i < |live|
      ensures IsLive(live[i], now)
    {
      LiveMember(s, now, live[i]);
    }
  }

  /** The first live entry under the stripped lease id, and a refusal exactly when there is none. */
  ghost predicate LeaseSpec(s: seq<Reservation>, leaseId: string, now: int, t: seq<Reservation>, answer: Answer) {
    var lease := Strip(leaseId);
    if lease == "" then t == s && answer == Refused(InvalidLease)
    else
      && t == Live(s, now)
      && ((forall r :: r in s && IsLive(r, now) ==> r.leaseId != lease) ==> answer == Refused(InvalidLease))
      && ((exists r :: r in s && IsLive(r, now) && r.leaseId == lease) ==>
            exists i :: 0 <= i < |t| && answer == Held(t[i]) && t[i].leaseId == lease
              && forall j :: 0 <= j < i ==> t[j].leaseId != lease)
  }

  lemma {:induction false} FindLeaseExactly(s: seq<Reservation>, lease: string) returns (i: nat)
    ensures FindLease(s, lease).Some? <==> i < |s|
    ensures i < |s| ==> FindLease(s, lease) == Some(s[i]) && s[i].leaseId == lease
    ensures forall j :: 0 <= j < i && j < |s| ==> s[j].leaseId != lease
    ensures i <= |s|
  {
    i := 0;
    if s != [] && s[0].leaseId != lease {
      i := FindLeaseExactly(s[1..], lease);
      i := i + 1;
    }
  }

  lemma LeaseExactly(cfg: Config, s: seq<Reservation>, leaseId: string, now: int)
    ensures var (t, answer) := StepStored(cfg, s, Op.RequireActiveLease(leaseId), now);
      LeaseSpec(s, leaseId, now, t, answer)
  {
    var live, lease := Live(s, now), Strip(leaseId);
    var i := FindLeaseExactly(live, lease);
    forall r: Reservation
      ensures r in live <==> r in s && IsLive(r, now)
    {
      LiveMember(s, now, r);
    }
    if i < |live| {
      assert live[i] in live;
    } else {
      assert forall r :: r in live ==> r.leaseId != lease;
    }
  }

  /** The status counts and sums the live entries. */
  lemma StatusExactly(cfg: Config, s: seq<Reservation>, now: int)
    ensures var (t, answer) := StepStored(cfg, s, Op.GetStatus, now);
      && t == Live(s, now) && answer.Status?
      && answer.activeJobs == LiveCount(s, now)
      && answer.availableSlots == (if LiveCount(s, now) >= cfg.maxJobs then 0 else cfg.maxJobs - LiveCount(s, now))
      && answer.usedMemory == LiveMemory(s, now)
      && (cfg.totalMemory.None? ==> answer.availableMemory == None)
      && (cfg.totalMemory.Some? ==>
            answer.availableMemory == Some(if LiveMemory(s, now) >= cfg.totalMemory.value then 0
                                           else cfg.totalMemory.value - LiveMemory(s, now)))
      && answer.devices.Keys == cfg.devices.Keys
      && forall d :: d in cfg.devices ==>
           answer.devices[d] == DeviceStatus(cfg.devices[d], LiveOnDevice(s, d, now), JobsOnDevice(s, d, now))
  {
    LiveSums(s, now, "");
    forall d | d in cfg.devices
      ensures DeviceMemory(Live(s, now), d) == LiveOnDevice(s, d, now)
      ensures DeviceJobs(Live(s, now), d) == JobsOnDevice(s, d, now)
    {
      LiveSums(s, now, d);
    }
  }

  /** Stripping cuts exactly the white space at both ends. */
  lemma StripExactly(s: string) returns (i: nat, j: nat)
    ensures i <= j <= |s| && Strip(s) == s[i..j]
    ensures forall k :: 0 <= k < i || j <= k < |s| ==> IsTextSpace(s[k] as int)
    ensures i < j ==> !IsTextSpace(s[i] as int) && !IsTextSpace(s[j - 1] as int)
  {
    i := LeftExactly(s);
    j := RightExactly(s[i..]);
    assert s[i..][..j] == s[i..i + j];
    j := i + j;
  }

  lemma {:induction false} LeftExactly(s: string) returns (i: nat)
    ensures i <= |s| && StripLeft(s) == s[i..]
    ensures forall k :: 0 <= k < i ==> IsTextSpace(s[k] as int)
    ensures i < |s| ==> !IsTextSpace(s[i] as int)
  {
    i := 0;
    if s != "" && IsTextSpace(s[0] as int) {
      i := LeftExactly(s[1..]);
      i := i + 1;
    }
  }

  lemma {:induction false} RightExactly(s: string) returns (j: nat)
    ensures j <= |s| && StripRight(s) == s[..j]
    ensures forall k :: j <= k < |s| ==> IsTextSpace(s[k] as int)
    ensures j > 0 ==> !IsTextSpace(s[j - 1] as int)
  {
    j := |s|;
    if s != "" && IsTextSpace(s[|s| - 1] as int) {
      j := RightExactly(s[..|s| - 1]);
    } else {
      assert s[..|s|] == s;
    }
  }
}
