/**
 Shard allocation and failover by several threads (allocate_shard_replica and check_failover in
 runtime/dynamic_sharding.py).

 The bytes are reserved, published and freed under the cache's lock; primaries are recorded and
 dropped under the failover's own lock. A thread can be stopped between the two: `arriving`
 counts published chunks whose primary is not recorded yet, `leaving` counts chunks whose
 primary is dropped and whose bytes are not freed yet.
 */
module ShardInterleaving {
  import opened Basics
  import opened OffHeapCache

  datatype Mesh = Mesh(heap: Heap, arriving: multiset<string>, primary: set<string>, leaving: multiset<string>)

  datatype Action =
    | Reserve(id: string, data: seq<int>)
    | Publish(k: nat)
    | RollBack(k: nat)
    | Record(id: string)
    | GiveUp(id: string)
    | Free(id: string)

  /** The locked region of the cache that an action runs, if any. */
  function CacheMove(a: Action): Option<Move> {
    match a
    case Reserve(id, data) => Some(DoReserve(id, data))
    case Publish(k) => Some(DoPublish(k))
    case RollBack(k) => Some(DoRollBack(k))
    case Free(id) => Some(DoFree(id))
    case _ => None
  }

  predicate Possible(s: Mesh, a: Action) {
    && (CacheMove(a).Some? ==> Enabled(s.heap, CacheMove(a).value))
    && match a
       case Record(id) => id in s.arriving
       case GiveUp(id) => id in s.primary
       case Free(id) => id in s.leaving
       case _ => true
  }

  function Act(s: Mesh, a: Action): Mesh
    requires Possible(s, a)
  {
    var heap := if CacheMove(a).Some? then Apply(s.heap, CacheMove(a).value) else s.heap;
    match a
    case Publish(k) => s.(heap := heap, arriving := s.arriving + multiset{s.heap.flight[k].id})
    case Record(id) => s.(arriving := s.arriving - multiset{id}, primary := s.primary + {id})
    case GiveUp(id) => s.(primary := s.primary - {id}, leaving := s.leaving + multiset{id})
    case Free(id) => s.(heap := heap, leaving := s.leaving - multiset{id})
    case _ => s.(heap := heap)
  }

  function Start(maxQuota: int): Mesh {
    Mesh(Heap(maxQuota, 0, [], [], 0), multiset{}, {}, multiset{})
  }

  ghost predicate IsHistory(actions: seq<Action>, meshes: seq<Mesh>, maxQuota: int) {
    && |meshes| == |actions| + 1 && meshes[0] == Start(maxQuota)
    && forall i :: 0 <= i < |actions| ==> Possible(meshes[i], actions[i]) && meshes[i + 1] == Act(meshes[i], actions[i])
  }

  /** Every primary is backed by held bytes. */
  predicate Backed(s: Mesh) {
    forall id :: id in s.primary ==> Has(s.heap.chunks, id)
  }

  // -------------------------------------------------------- exactly when

  /** A free that finds its chunk with a primary, or a primary recorded for bytes that are gone. */
  predicate Unbacks(s: Mesh, a: Action) {
    || (a.Free? && a.id in s.primary)
    || (a.Record? && !Has(s.heap.chunks, a.id))
  }

  lemma HeldAfter(s: Mesh, a: Action, id: string)
    requires Possible(s, a) && Accounted(s.heap)
    ensures Accounted(Act(s, a).heap)
    ensures Has(Act(s, a).heap.chunks, id) <==>
      || (a.Publish? && id == s.heap.flight[a.k].id)
      || (Has(s.heap.chunks, id) && !(a.Free? && id == a.id))
  {
    if CacheMove(a).Some? {
      MoveKeepsAccounts(s.heap, CacheMove(a).value);
    }
    match a {
      case Publish(k) => PutSpec(s.heap.chunks, s.heap.flight[k].id, s.heap.flight[k].data, id);
      case Free(c) => DropSpec(s.heap.chunks, c, id);
      case _ =>
    }
  }

  lemma BackedStep(s: Mesh, a: Action)
    requires Possible(s, a) && Accounted(s.heap) && Backed(s)
    ensures Accounted(Act(s, a).heap) && (Backed(Act(s, a)) <==> !Unbacks(s, a))
  {
    HeldAfter(s, a, "");
    forall id | id in Act(s, a).primary
      ensures Has(Act(s, a).heap.chunks, id) <==> !(Unbacks(s, a) && id == a.id)
    {
      HeldAfter(s, a, id);
    }
    if Unbacks(s, a) {
      assert a.id in Act(s, a).primary;
    }
  }

  /** In every interleaving: all primaries are backed at every point so far, if and only if no free
      found its chunk with a primary and no primary was recorded after its bytes were gone. */
  lemma {:induction false} BackedExactly(actions: seq<Action>, meshes: seq<Mesh>, maxQuota: int, n: nat)
    requires IsHistory(actions, meshes, maxQuota) && n <= |actions|
    ensures Accounted(meshes[n].heap)
    ensures (forall i :: 0 <= i <= n ==> Backed(meshes[i])) <==>
      forall i :: 0 <= i < n ==> !Unbacks(meshes[i], actions[i])
  {
    if n > 0 {
      BackedExactly(actions, meshes, maxQuota, n - 1);
      if Backed(meshes[n - 1]) {
        BackedStep(meshes[n - 1], actions[n - 1]);
      }
      HeldAfter(meshes[n - 1], actions[n - 1], "");
    }
  }

  // ------------------------------------------------- enough: distinct ids in flight

  /** The threads and the primary that answer for a chunk. */
  function Roles(s: Mesh, id: string): nat {
    s.arriving[id] + s.leaving[id] + (if id in s.primary then 1 else 0)
  }

  /** Held bytes have exactly one that answers for them, other bytes none. */
  ghost predicate Answered(s: Mesh) {
    forall id :: Roles(s, id) == if Has(s.heap.chunks, id) then 1 else 0
  }

  lemma AnsweredStep(s: Mesh, a: Action)
    requires Possible(s, a) && Accounted(s.heap) && Disjoint(s.heap) && Answered(s)
    ensures Answered(Act(s, a))
  {
    forall id: string
      ensures Roles(Act(s, a), id) == if Has(Act(s, a).heap.chunks, id) then 1 else 0
    {
      HeldAfter(s, a, id);
      assert Roles(s, id) == if Has(s.heap.chunks, id) then 1 else 0;
    }
  }

  /** If no two allocations in flight ever share an id, then at every point of every interleaving
      held bytes have a primary, or else exactly one thread that is about to record it or to free
      them; in particular every primary is backed. */
  lemma {:induction false} DistinctFlightsAreBacked(actions: seq<Action>, meshes: seq<Mesh>, maxQuota: int, n: nat)
    requires IsHistory(actions, meshes, maxQuota) && n <= |actions|
    requires forall i :: 0 <= i <= n ==> FlightDistinct(meshes[i].heap)
    ensures Accounted(meshes[n].heap) && Disjoint(meshes[n].heap) && Answered(meshes[n]) && Backed(meshes[n])
  {
    if n > 0 {
      DistinctFlightsAreBacked(actions, meshes, maxQuota, n - 1);
      var s, a := meshes[n - 1], actions[n - 1];
      AnsweredStep(s, a);
      HeldAfter(s, a, "");
      if CacheMove(a).Some? {
        MoveKeepsDisjoint(s.heap, CacheMove(a).value);
      }
    }
    forall id | id in meshes[n].primary
      ensures Has(meshes[n].heap.chunks, id)
    {
      assert Roles(meshes[n], id) >= 1;
    }
  }

  // ------------------------------------------- which states are safe to go on from

  /** The allocations of `id` in flight that can still be published. */
  function Flights(flight: seq<Pending>, id: string): nat {
    if flight == [] then 0
    else (if flight[0].id == id && flight[0].data != [] then 1 else 0) + Flights(flight[1..], id)
  }

  lemma {:induction false} FlightsConcat(a: seq<Pending>, b: seq<Pending>, id: string)
    ensures Flights(a + b, id) == Flights(a, id) + Flights(b, id)
  {
    if a == [] {
      assert a + b == b;
    } else {
      assert (a + b)[1..] == a[1..] + b;
      FlightsConcat(a[1..], b, id);
    }
  }

  lemma FlightsRemove(s: seq<Pending>, k: nat, id: string)
    requires k < |s|
    ensures Flights(s, id) == Flights(Remove(s, k), id) + (if s[k].id == id && s[k].data != [] then 1 else 0)
  {
    assert s == s[..k] + ([s[k]] + s[k + 1..]) && [s[k]][1..] == [];
    FlightsConcat(s[..k], [s[k]] + s[k + 1..], id);
    FlightsConcat([s[k]], s[k + 1..], id);
    FlightsConcat(s[..k], s[k + 1..], id);
  }

  lemma {:induction false} SomeFlight(s: seq<Pending>, id: string) returns (k: nat)
    requires Flights(s, id) > 0
    ensures k < |s| && s[k].id == id && s[k].data != []
  {
    if s[0].id == id && s[0].data != [] {
      k := 0;
    } else {
      k := SomeFlight(s[1..], id);
      k := k + 1;
    }
  }

  /** Everybody that is working towards a primary of `id`, or is one. */
  function Claims(s: Mesh, id: string): nat {
    Flights(s.heap.flight, id) + s.arriving[id] + (if id in s.primary then 1 else 0)
  }

  /** Nobody claims `id`; or one does, nobody is about to free it, and the bytes are there or come
      with the claim. */
  predicate SafeFor(s: Mesh, id: string) {
    || Claims(s, id) == 0
    || (&& Claims(s, id) == 1 && s.leaving[id] == 0
        && (Has(s.heap.chunks, id) || Flights(s.heap.flight, id) == 1))
  }

  ghost predicate Safe(s: Mesh) {
    forall id :: SafeFor(s, id)
  }

  /** A continuation in which no new reservation starts. */
  ghost predicate Drains(s: Mesh, actions: seq<Action>)
    decreases |actions|
  {
    actions == [] ||
    (!actions[0].Reserve? && Possible(s, actions[0]) && Drains(Act(s, actions[0]), actions[1..]))
  }

  ghost function EndOf(s: Mesh, actions: seq<Action>): Mesh
    requires Drains(s, actions)
    decreases |actions|
  {
    if actions == [] then s else EndOf(Act(s, actions[0]), actions[1..])
  }

  /** What is in flight after an action. */
  lemma FlightsAfter(s: Mesh, a: Action, id: string)
    requires Possible(s, a) && !a.Reserve?
    ensures Flights(Act(s, a).heap.flight, id) ==
      Flights(s.heap.flight, id)
      - (if (a.Publish? || a.RollBack?) && s.heap.flight[a.k].id == id && s.heap.flight[a.k].data != [] then 1 else 0)
  {
    if a.Publish? || a.RollBack? {
      FlightsRemove(s.heap.flight, a.k, id);
    }
  }

  lemma SafeStep(s: Mesh, a: Action, id: string)
    requires Possible(s, a) && !a.Reserve? && Accounted(s.heap) && SafeFor(s, id)
    ensures SafeFor(Act(s, a), id)
  {
    FlightsAfter(s, a, id);
    HeldAfter(s, a, id);
  }

  lemma {:induction false} SafeDrains(s: Mesh, actions: seq<Action>)
    requires Accounted(s.heap) && Safe(s) && Drains(s, actions)
    ensures Backed(EndOf(s, actions))
    decreases |actions|
  {
    if actions == [] {
      assert forall id :: id in s.primary ==> SafeFor(s, id);
    } else {
      var a := actions[0];
      HeldAfter(s, a, "");
      forall id: string
        ensures SafeFor(Act(s, a), id)
      {
        SafeStep(s, a, id);
      }
      SafeDrains(Act(s, a), actions[1..]);
    }
  }

  /** How much can still happen for `id`. */
  function Work(s: Mesh, id: string): nat {
    4 * Flights(s.heap.flight, id) + 3 * s.arriving[id] + (if id in s.primary then 2 else 0) + s.leaving[id]
  }

  /** The next action towards a primary without bytes. */
  lemma TowardsUnbacked(s: Mesh, id: string) returns (a: Action)
    requires Accounted(s.heap) && Backed(s) && !SafeFor(s, id)
    ensures !a.Reserve? && Possible(s, a)
    ensures !Backed(Act(s, a)) || (!SafeFor(Act(s, a), id) && Work(Act(s, a), id) < Work(s, id))
  {
    var held := Has(s.heap.chunks, id);
    if id in s.primary {
      a := if s.leaving[id] > 0 then Free(id) else GiveUp(id);
    } else if s.arriving[id] > 0 {
      a := Record(id);
    } else {
      var k := SomeFlight(s.heap.flight, id);
      a := Publish(k);
    }
    FlightsAfter(s, a, id);
    HeldAfter(s, a, id);
    if a.Free? || (a.Record? && !held) {
      assert id in Act(s, a).primary;
    }
  }

  lemma {:induction false} UnsafeUnbacks(s: Mesh, id: string) returns (actions: seq<Action>)
    requires Accounted(s.heap) && !SafeFor(s, id)
    ensures Drains(s, actions) && !Backed(EndOf(s, actions))
    decreases Work(s, id)
  {
    actions := [];
    if Backed(s) {
      var a := TowardsUnbacked(s, id);
      HeldAfter(s, a, id);
      if Backed(Act(s, a)) {
        actions := UnsafeUnbacks(Act(s, a), id);
      }
      assert ([a] + actions)[1..] == actions;
      actions := [a] + actions;
    }
  }

  /** The exact law on the present state: every continuation without new reservations stays backed if
      and only if each id has at most one claim, and nobody about to free what is claimed. */
  lemma SafeExactly(s: Mesh)
    requires Accounted(s.heap)
    ensures (forall actions :: Drains(s, actions) ==> Backed(EndOf(s, actions))) <==> Safe(s)
  {
    if Safe(s) {
      forall actions | Drains(s, actions)
        ensures Backed(EndOf(s, actions))
      {
        SafeDrains(s, actions);
      }
    } else {
      var id :| !SafeFor(s, id);
      var actions := UnsafeUnbacks(s, id);
    }
  }

  /** And the only action that can end it is a reservation, exactly one that is granted while
      somebody claims its id or is about to free it. */
  lemma ReservingExactly(s: Mesh, a: Action)
    requires Accounted(s.heap) && Safe(s) && Possible(s, a)
    ensures Safe(Act(s, a)) <==>
      !(&& a.Reserve? && a.data != [] && CanReserve(s.heap.maxQuota, s.heap.used, s.heap.chunks, a.id, |a.data|)
        && Claims(s, a.id) + s.leaving[a.id] > 0)
  {
    if a.Reserve? {
      var x := Act(s, a);
      forall id: string
        ensures Flights(x.heap.flight, id) == Flights(s.heap.flight, id)
          + (if x != s && id == a.id && a.data != [] then 1 else 0)
      {
        FlightsConcat(s.heap.flight, [Pending(a.id, a.data)], id);
        assert [Pending(a.id, a.data)][1..] == [];
      }
      assert SafeFor(s, a.id);
      forall id: string | id != a.id
        ensures SafeFor(x, id)
      {
        assert SafeFor(s, id);
      }
      assert Safe(x) <==> SafeFor(x, a.id);
    } else {
      forall id: string
        ensures SafeFor(Act(s, a), id)
      {
        SafeStep(s, a, id);
      }
    }
  }

  // ------------------------------------------------------ and what happens else

  ghost predicate Reachable(x: Mesh, maxQuota: int) {
    exists actions, meshes :: IsHistory(actions, meshes, maxQuota) && meshes[|actions|] == x
  }

  lemma StartIsReachable(maxQuota: int)
    ensures Reachable(Start(maxQuota), maxQuota)
  {
    assert IsHistory([], [Start(maxQuota)], maxQuota);
  }

  lemma ReachNext(s: Mesh, a: Action, x: Mesh, maxQuota: int)
    requires Reachable(s, maxQuota) && Possible(s, a) && x == Act(s, a)
    ensures Reachable(x, maxQuota)
  {
    var actions, meshes :| IsHistory(actions, meshes, maxQuota) && meshes[|actions|] == s;
    var xs, ms := actions + [a], meshes + [x];
    forall i | 0 <= i < |xs|
      ensures Possible(ms[i], xs[i]) && ms[i + 1] == Act(ms[i], xs[i])
    {
      assert ms[i] == meshes[i];
    }
    assert IsHistory(xs, ms, maxQuota) && ms[|xs|] == x;
  }

  /** Two threads have reserved the same id. */
  lemma BothReserved(id: string, data: seq<int>, maxQuota: int)
    requires 2 * |data| <= maxQuota
    ensures var p := Pending(id, data);
      Reachable(Mesh(Heap(maxQuota, 2 * |data|, [], [p, p], 0), multiset{}, {}, multiset{}), maxQuota)
  {
    var p := Pending(id, data);
    var first := Mesh(Heap(maxQuota, |data|, [], [p], 0), multiset{}, {}, multiset{});
    var both := first.(heap := Heap(maxQuota, 2 * |data|, [], [p, p], 0));
    assert [] + [p] == [p] && [p] + [p] == [p, p];
    StartIsReachable(maxQuota);
    ReachNext(Start(maxQuota), Reserve(id, data), first, maxQuota);
    ReachNext(first, Reserve(id, data), both, maxQuota);
  }

  /** One of them publishes, records its primary and has to give it up again. */
  lemma OneGivesUp(id: string, data: seq<int>, maxQuota: int)
    requires data != [] && 2 * |data| <= maxQuota
    ensures Reachable(Mesh(Heap(maxQuota, 2 * |data|, [Chunk(id, data)], [Pending(id, data)], 0),
                           multiset{}, {}, multiset{id}), maxQuota)
  {
    var p := Pending(id, data);
    var both := Mesh(Heap(maxQuota, 2 * |data|, [], [p, p], 0), multiset{}, {}, multiset{});
    var heap := Heap(maxQuota, 2 * |data|, [Chunk(id, data)], [p], 0);
    BothReserved(id, data, maxQuota);
    assert Remove([p, p], 1) == [p];
    ReachNext(both, Publish(1), Mesh(heap, multiset{id}, {}, multiset{}), maxQuota);
    ReachNext(Mesh(heap, multiset{id}, {}, multiset{}), Record(id), Mesh(heap, multiset{}, {id}, multiset{}), maxQuota);
    ReachNext(Mesh(heap, multiset{}, {id}, multiset{}), GiveUp(id), Mesh(heap, multiset{}, {}, multiset{id}), maxQuota);
  }

  /** The other one publishes and records before the first one frees: a primary without bytes. */
  lemma PrimaryOutlivesBytes(id: string, data: seq<int>, maxQuota: int)
    requires data != [] && 2 * |data| <= maxQuota
    ensures var x := Mesh(Heap(maxQuota, |data|, [], [], |data|), multiset{}, {id}, multiset{});
      Reachable(x, maxQuota) && !Backed(x)
  {
    var p, c := Pending(id, data), Chunk(id, data);
    var s := Mesh(Heap(maxQuota, 2 * |data|, [c], [p], 0), multiset{}, {}, multiset{id});
    var heap := Heap(maxQuota, 2 * |data|, [c], [], |data|);
    var x := Mesh(Heap(maxQuota, |data|, [], [], |data|), multiset{}, {id}, multiset{});
    OneGivesUp(id, data, maxQuota);
    assert Remove([p], 0) == [] && Put([c], id, data) == [c] && Drop([c], id) == [];
    ReachNext(s, Publish(0), Mesh(heap, multiset{id}, {}, multiset{id}), maxQuota);
    ReachNext(Mesh(heap, multiset{id}, {}, multiset{id}), Record(id),
              Mesh(heap, multiset{}, {id}, multiset{id}), maxQuota);
    ReachNext(Mesh(heap, multiset{}, {id}, multiset{id}), Free(id), x, maxQuota);
    assert id in x.primary;
  }
}
