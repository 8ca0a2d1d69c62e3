/**
 The idempotency cache shared by many callers (runtime/architecture_hardening.py).

 Each region under the lock is one atomic step. Callers own a key, wait for its owner, or
 read a finished result. Times are whatever the clock returns, in any order.
 */
module Idempotency {
  import opened Basics

  /** Results may be anything, even a string equal to the placeholder. */
  datatype Value = Text(text: string) | Opaque(id: int)

  const IN_PROGRESS := Text("IN_PROGRESS")

  type Key = string
  type EventId = nat

  datatype Entry = Entry(stamp: int, result: Value)

  /** The fields behind the lock; `fired` and `nextEvent` stand for the event objects. */
  datatype Cache = Cache(
    seen: map<Key, Entry>, events: map<Key, EventId>, fired: set<EventId>, nextEvent: EventId)

  datatype Admission = Cached(value: Value) | WaitOn(event: EventId) | BecomeOwner | MissingEvent

  predicate Expired(e: Entry, now: int, ttl: int) {
    e.result != IN_PROGRESS && now - e.stamp > ttl
  }

  function Pruned(seen: map<Key, Entry>, now: int, ttl: int): map<Key, Entry> {
    map k | k in seen && !Expired(seen[k], now, ttl) :: seen[k]
  }

  /** First region: prune, then hit, wait or claim. Two clock readings. */
  function Admitted(c: Cache, key: Key, pruneTime: int, claimTime: int, ttl: int): (Cache, Admission) {
    var seen := Pruned(c.seen, pruneTime, ttl);
    if key in seen then
      if seen[key].result != IN_PROGRESS then (c.(seen := seen), Cached(seen[key].result))
      else if key in c.events then (c.(seen := seen), WaitOn(c.events[key]))
      else (c.(seen := seen), MissingEvent)
    else
      (Cache(seen[key := Entry(claimTime, IN_PROGRESS)], c.events[key := c.nextEvent], c.fired, c.nextEvent + 1),
       BecomeOwner)
  }

  /** The waiter's re-read. */
  function ReRead(c: Cache, key: Key): Option<Value> {
    if key in c.seen then Some(c.seen[key].result) else None
  }

  /** The owner's last region, after a result or an exception. */
  function Settled(c: Cache, key: Key, result: Option<Value>, now: int): Cache
    requires key in c.events
  {
    var seen := match result
      case Some(v) => c.seen[key := Entry(now, v)]
      case None => c.seen - {key};
    Cache(seen, c.events - {key}, c.fired + {c.events[key]}, c.nextEvent)
  }

  lemma PrunedExactly(seen: map<Key, Entry>, now: int, ttl: int)
    ensures forall k :: k in Pruned(seen, now, ttl) <==>
      k in seen && (seen[k].result == Text("IN_PROGRESS") || now - seen[k].stamp <= ttl)
    ensures forall k :: k in Pruned(seen, now, ttl) ==> Pruned(seen, now, ttl)[k] == seen[k]
  {
  }

  /** A finished result within its time to live. */
  predicate Served(seen: map<Key, Entry>, key: Key, at: int, ttl: int) {
    key in seen && seen[key].result != Text("IN_PROGRESS") && at - seen[key].stamp <= ttl
  }

  predicate InProgress(seen: map<Key, Entry>, key: Key) {
    key in seen && seen[key].result == Text("IN_PROGRESS")
  }

  /** Every admission and the cache after it, in terms of the entries and the clock readings: a hit
      exactly for a finished result within its time to live, a wait exactly for a placeholder
      with an event, and a claim exactly when the key is absent or its result is too old. */
  ghost predicate AdmitSpec(c: Cache, key: Key, pruneTime: int, claimTime: int, ttl: int, x: Cache, a: Admission) {
    && (a.Cached? <==> Served(c.seen, key, pruneTime, ttl))
    && (a.Cached? ==> a.value == c.seen[key].result)
    && (a.WaitOn? <==> InProgress(c.seen, key) && key in c.events)
    && (a.WaitOn? ==> a.event == c.events[key])
    && (a.MissingEvent? <==> InProgress(c.seen, key) && key !in c.events)
    && (a.BecomeOwner? <==> !InProgress(c.seen, key) && !Served(c.seen, key, pruneTime, ttl))
    && (forall k :: k != key ==>
          && (k in x.seen <==> InProgress(c.seen, k) || Served(c.seen, k, pruneTime, ttl))
          && (k in x.seen ==> x.seen[k] == c.seen[k]))
    && (if a.BecomeOwner?
        then && key in x.seen && x.seen[key] == Entry(claimTime, Text("IN_PROGRESS"))
             && x.events == c.events[key := c.nextEvent] && x.nextEvent == c.nextEvent + 1
        else key in x.seen && x.seen[key] == c.seen[key] && x.events == c.events && x.nextEvent == c.nextEvent)
    && x.fired == c.fired
  }

  lemma AdmittedExactly(c: Cache, key: Key, pruneTime: int, claimTime: int, ttl: int)
    ensures var (x, a) := Admitted(c, key, pruneTime, claimTime, ttl);
      AdmitSpec(c, key, pruneTime, claimTime, ttl, x, a)
  {
  }

  class IdempotencyEnforcer {
    const ttl: int
    var seen: map<Key, Entry>
    var events: map<Key, EventId>
    var fired: set<EventId>
    var nextEvent: EventId

    function View(): Cache reads this {
      Cache(seen, events, fired, nextEvent)
    }

    constructor (ttl: int)
      ensures this.ttl == ttl && View() == Cache(map[], map[], {}, 0)
    {
      this.ttl, seen, events, fired, nextEvent := ttl, map[], map[], {}, 0;
    }

    /** Collects the expired keys, then deletes them one by one. */
    method PruneExpired(now: int)
      modifies this`seen
      ensures seen == Pruned(old(seen), now, ttl)
      ensures forall k :: k in seen <==>
        k in old(seen) && (old(seen)[k].result == Text("IN_PROGRESS") || now - old(seen)[k].stamp <= ttl)
      ensures forall k :: k in seen ==> seen[k] == old(seen)[k]
    {
      var expired := set k | k in seen && Expired(seen[k], now, ttl);
      DropKeys(expired);
      assert seen == Pruned(old(seen), now, ttl);
      PrunedExactly(old(seen), now, ttl);
    }

    method DropKeys(keys: set<Key>)
      modifies this`seen
      ensures seen == old(seen) - keys
    {
      var todo := keys;
      while todo != {}
        invariant todo <= keys && seen == old(seen) - (keys - todo)
        decreases |todo|
      {
        var k :| k in todo;
        seen := seen - {k};
        todo := todo - {k};
      }
    }

    method Admit(key: Key, pruneTime: int, claimTime: int) returns (admission: Admission)
      modifies this
      ensures (View(), admission) == Admitted(old(View()), key, pruneTime, claimTime, ttl)
      ensures AdmitSpec(old(View()), key, pruneTime, claimTime, ttl, View(), admission)
    {
      AdmittedExactly(View(), key, pruneTime, claimTime, ttl);
      PruneExpired(pruneTime);
      if key in seen {
        if seen[key].result != IN_PROGRESS { return Cached(seen[key].result); }
        if key in events { return WaitOn(events[key]); }
        return MissingEvent;
      }
      seen := seen[key := Entry(claimTime, IN_PROGRESS)];
      events := events[key := nextEvent];
      nextEvent := nextEvent + 1;
      return BecomeOwner;
    }

    method Settle(key: Key, result: Option<Value>, now: int)
      requires key in events
      modifies this
      ensures View() == Settled(old(View()), key, result, now)
      ensures seen == (if result.Some? then old(seen)[key := Entry(now, result.value)] else old(seen) - {key})
      ensures events == old(events) - {key} && fired == old(fired) + {old(events)[key]} && nextEvent == old(nextEvent)
    {
      match result {
        case Some(v) => seen := seen[key := Entry(now, v)];
        case None => seen := seen - {key};
      }
      fired := fired + {events[key]};
      events := events - {key};
    }
  }

  // -------------------------------------------------------------- interleaving

  datatype Caller =
    | Idle
    | Waiting(event: EventId)
    | Owner
    | Returned(value: Value)
    | Failed
    /** Left its execution without settling, by an exit or a cancellation. */
    | Gone

  /** The cache and the position of every caller, each inside a call for its key. */
  datatype World = World(cache: Cache, keys: map<nat, Key>, callers: map<nat, Caller>)

  datatype Move =
    | Call(caller: nat, key: Key)
    | Enter(caller: nat, pruneTime: int, claimTime: int)
    | Wake(caller: nat)
    | Finish(caller: nat, value: Value, now: int)
    | Raise(caller: nat, now: int)
    | Abandon(caller: nat)

  predicate Running(w: World, m: Move) {
    m.caller in w.callers && m.caller in w.keys
  }

  /** Which moves the scheduler may pick. */
  predicate Enabled(w: World, m: Move) {
    match m
    case Call(c, _) => c !in w.callers && c !in w.keys
    case Enter(c, _, _) => Running(w, m) && w.callers[c] == Idle
    case Wake(c) => Running(w, m) && w.callers[c].Waiting? && w.callers[c].event in w.cache.fired
    case Finish(c, _, _) => Running(w, m) && w.callers[c] == Owner && w.keys[c] in w.cache.events
    case Raise(c, _) => Running(w, m) && w.callers[c] == Owner && w.keys[c] in w.cache.events
    case Abandon(c) => Running(w, m) && w.callers[c] == Owner
  }

  function Apply(w: World, m: Move, ttl: int): World
    requires Enabled(w, m)
  {
    match m
    case Call(c, key) =>
      // an empty key is refused before the lock is taken
      w.(keys := w.keys[c := key], callers := w.callers[c := if key == "" then Failed else Idle])
    case Enter(c, pruneTime, claimTime) =>
      var (cache, admission) := Admitted(w.cache, w.keys[c], pruneTime, claimTime, ttl);
      var next := match admission
        case Cached(v) => Returned(v)
        case WaitOn(e) => Waiting(e)
        case BecomeOwner => Owner
        case MissingEvent => Failed;
      w.(cache := cache, callers := w.callers[c := next])
    case Wake(c) =>
      var next := match ReRead(w.cache, w.keys[c])
        case Some(v) => Returned(v)
        case None => Failed;
      w.(callers := w.callers[c := next])
    case Finish(c, v, now) =>
      w.(cache := Settled(w.cache, w.keys[c], Some(v), now), callers := w.callers[c := Returned(v)])
    case Raise(c, now) =>
      w.(cache := Settled(w.cache, w.keys[c], None, now), callers := w.callers[c := Failed])
    case Abandon(c) =>
      // only ordinary exceptions are caught: the placeholder and the event stay behind
      w.(callers := w.callers[c := Gone])
  }

  const START := World(Cache(map[], map[], {}, 0), map[], map[])

  ghost predicate IsRun(moves: seq<Move>, worlds: seq<World>, ttl: int) {
    && |worlds| == |moves| + 1 && worlds[0] == START
    && forall i :: 0 <= i < |moves| ==> Enabled(worlds[i], moves[i]) && worlds[i + 1] == Apply(worlds[i], moves[i], ttl)
  }

  // ---------------------------------------------------------------- invariant

  /** `c` has claimed `k` and not settled it, be it running or gone. */
  predicate Owns(w: World, c: nat, k: Key) {
    c in w.callers && c in w.keys && (w.callers[c] == Owner || w.callers[c] == Gone) && w.keys[c] == k
  }

  ghost predicate Inv(w: World) {
    Ownership(w) && EventsSound(w)
  }

  ghost predicate Ownership(w: World) {
    && w.callers.Keys == w.keys.Keys
    // an event exists exactly while some caller owns the key, and then the placeholder stands
    && (forall k :: k in w.cache.events ==> exists c :: Owns(w, c, k))
    && (forall c, k :: Owns(w, c, k) ==>
          k in w.cache.events && k in w.cache.seen && w.cache.seen[k].result == IN_PROGRESS)
    // no two callers own the same key
    && (forall c, d, k :: Owns(w, c, k) && Owns(w, d, k) ==> c == d)
  }

  ghost predicate EventsSound(w: World) {
    // event identities are fresh and live ones have not fired
    && (forall k :: k in w.cache.events ==>
          w.cache.events[k] < w.cache.nextEvent && w.cache.events[k] !in w.cache.fired)
    && (forall e :: e in w.cache.fired ==> e < w.cache.nextEvent)
    && (forall j, k :: j in w.cache.events && k in w.cache.events && w.cache.events[j] == w.cache.events[k] ==> j == k)
    // a waiter's event has fired or belongs to a running owner of its key
    && (forall c :: c in w.callers && w.callers[c].Waiting? ==> WaitsProperly(w, c))
  }

  predicate WaitsProperly(w: World, c: nat)
    requires c in w.callers && w.callers[c].Waiting?
  {
    var e := w.callers[c].event;
    e in w.cache.fired || (c in w.keys && w.keys[c] in w.cache.events && w.cache.events[w.keys[c]] == e)
  }

  /** A hit, a wait or a missing event: nobody's ownership changes. */
  lemma LookupKeepsOwnership(w: World, m: Move, ttl: int)
    requires Inv(w) && Enabled(w, m) && m.Enter?
    requires !Admitted(w.cache, w.keys[m.caller], m.pruneTime, m.claimTime, ttl).1.BecomeOwner?
    ensures Ownership(Apply(w, m, ttl))
  {
    var x := Apply(w, m, ttl);
    forall c, k
      ensures Owns(x, c, k) <==> Owns(w, c, k)
    {
    }
    forall k | k in x.cache.events
      ensures exists c :: Owns(x, c, k)
    {
      var c :| Owns(w, c, k);
      assert Owns(x, c, k);
    }
  }

  lemma LookupKeepsEvents(w: World, m: Move, ttl: int)
    requires Inv(w) && Enabled(w, m) && m.Enter?
    requires !Admitted(w.cache, w.keys[m.caller], m.pruneTime, m.claimTime, ttl).1.BecomeOwner?
    ensures EventsSound(Apply(w, m, ttl))
  {
    var x := Apply(w, m, ttl);
    forall c | c in x.callers && x.callers[c].Waiting?
      ensures WaitsProperly(x, c)
    {
      if c != m.caller {
        assert WaitsProperly(w, c);
      }
    }
  }

  /** A claim: the key had neither owner nor event before. */
  lemma ClaimKeepsOwnership(w: World, m: Move, ttl: int)
    requires Inv(w) && Enabled(w, m) && m.Enter?
    requires Admitted(w.cache, w.keys[m.caller], m.pruneTime, m.claimTime, ttl).1.BecomeOwner?
    ensures Ownership(Apply(w, m, ttl)) && w.keys[m.caller] !in w.cache.events
  {
    var x := Apply(w, m, ttl);
    var key := w.keys[m.caller];
    forall c, k
      ensures Owns(x, c, k) <==> Owns(w, c, k) || (c == m.caller && k == key)
    {
    }
    forall c
      ensures !Owns(w, c, key)
    {
    }
    forall k | k in x.cache.events
      ensures exists c :: Owns(x, c, k)
    {
      if k == key {
        assert Owns(x, m.caller, k);
      } else {
        var c :| Owns(w, c, k);
        assert Owns(x, c, k);
      }
    }
  }

  lemma ClaimKeepsEvents(w: World, m: Move, ttl: int)
    requires Inv(w) && Enabled(w, m) && m.Enter? && w.keys[m.caller] !in w.cache.events
    requires Admitted(w.cache, w.keys[m.caller], m.pruneTime, m.claimTime, ttl).1.BecomeOwner?
    ensures EventsSound(Apply(w, m, ttl))
  {
    var x := Apply(w, m, ttl);
    forall c | c in x.callers && x.callers[c].Waiting?
      ensures WaitsProperly(x, c)
    {
      assert WaitsProperly(w, c);
    }
  }

  /** Settling ends the caller's ownership and no other, and its key loses its event. */
  lemma SettleEndsOwnership(w: World, m: Move, ttl: int, c: nat, k: Key)
    requires Inv(w) && Enabled(w, m) && (m.Finish? || m.Raise?)
    ensures Owns(Apply(w, m, ttl), c, k) <==> Owns(w, c, k) && c != m.caller
    ensures Owns(Apply(w, m, ttl), c, k) ==> k != w.keys[m.caller]
  {
    assert Owns(w, m.caller, w.keys[m.caller]);
  }

  lemma SettleKeepsOwnership(w: World, m: Move, ttl: int)
    requires Inv(w) && Enabled(w, m) && (m.Finish? || m.Raise?)
    ensures Ownership(Apply(w, m, ttl))
  {
    var x := Apply(w, m, ttl);
    assert Owns(w, m.caller, w.keys[m.caller]);
    forall c, k
      ensures Owns(x, c, k) <==> Owns(w, c, k) && c != m.caller
      ensures Owns(x, c, k) ==> k != w.keys[m.caller]
    {
      SettleEndsOwnership(w, m, ttl, c, k);
    }
    forall k | k in x.cache.events
      ensures exists c :: Owns(x, c, k)
    {
      var c :| Owns(w, c, k);
      assert Owns(x, c, k);
    }
  }

  lemma SettleKeepsEvents(w: World, m: Move, ttl: int)
    requires Inv(w) && Enabled(w, m) && (m.Finish? || m.Raise?)
    ensures EventsSound(Apply(w, m, ttl))
  {
    var x := Apply(w, m, ttl);
    forall c | c in x.callers && x.callers[c].Waiting?
      ensures WaitsProperly(x, c)
    {
      assert WaitsProperly(w, c);
    }
  }

  lemma CallOrWakeKeepsInv(w: World, m: Move, ttl: int)
    requires Inv(w) && Enabled(w, m) && (m.Call? || m.Wake? || m.Abandon?)
    ensures Inv(Apply(w, m, ttl))
  {
    var x := Apply(w, m, ttl);
    forall c, k
      ensures Owns(x, c, k) <==> Owns(w, c, k)
    {
    }
    forall k | k in x.cache.events
      ensures exists c :: Owns(x, c, k)
    {
      var c :| Owns(w, c, k);
      assert Owns(x, c, k);
    }
    forall c | c in x.callers && x.callers[c].Waiting?
      ensures WaitsProperly(x, c)
    {
      assert WaitsProperly(w, c);
    }
  }

  /** At every point of every interleaving a key has at most one owner; its event exists exactly
      while it is owned, and then the placeholder stands; and nobody waits for an event that
      neither fired nor has an owner. */
  lemma {:induction false} InterleavingsKeepInv(moves: seq<Move>, worlds: seq<World>, ttl: int, n: nat)
    requires IsRun(moves, worlds, ttl) && n <= |moves|
    ensures Inv(worlds[n])
  {
    if n > 0 {
      InterleavingsKeepInv(moves, worlds, ttl, n - 1);
      StepKeepsInv(worlds[n - 1], moves[n - 1], ttl);
    }
  }

  lemma StepKeepsInv(w: World, m: Move, ttl: int)
    requires Inv(w) && Enabled(w, m)
    ensures Inv(Apply(w, m, ttl))
  {
    if m.Enter? {
      if Admitted(w.cache, w.keys[m.caller], m.pruneTime, m.claimTime, ttl).1.BecomeOwner? {
        ClaimKeepsOwnership(w, m, ttl);
        ClaimKeepsEvents(w, m, ttl);
      } else {
        LookupKeepsOwnership(w, m, ttl);
        LookupKeepsEvents(w, m, ttl);
      }
    } else if m.Finish? || m.Raise? {
      SettleKeepsOwnership(w, m, ttl);
      SettleKeepsEvents(w, m, ttl);
    } else {
      CallOrWakeKeepsInv(w, m, ttl);
    }
  }

  /** Pruning, at any time whatsoever, never drops a running key. */
  lemma PruningSparesRunning(w: World, c: nat, k: Key, now: int, ttl: int)
    requires Inv(w) && Owns(w, c, k)
    ensures k in Pruned(w.cache.seen, now, ttl) && Pruned(w.cache.seen, now, ttl)[k] == w.cache.seen[k]
  {
  }

  // ----------------------------------------------------- who is left waiting

  /** The event has not fired and the claim it belongs to was abandoned. */
  ghost predicate Stranded(w: World, c: nat) {
    && c in w.callers && c in w.keys && w.callers[c].Waiting? && w.callers[c].event !in w.cache.fired
    && exists d :: Owns(w, d, w.keys[c]) && w.callers[d] == Gone
  }

  /** A run that goes on from `w`. */
  ghost predicate Continues(w: World, moves: seq<Move>, worlds: seq<World>, ttl: int) {
    && |worlds| == |moves| + 1 && worlds[0] == w
    && forall i :: 0 <= i < |moves| ==> Enabled(worlds[i], moves[i]) && worlds[i + 1] == Apply(worlds[i], moves[i], ttl)
  }

  ghost predicate CanWake(w: World, c: nat, ttl: int) {
    exists moves, worlds :: Continues(w, moves, worlds, ttl) && Enabled(worlds[|moves|], Wake(c))
  }

  /** A waiter that is not stranded can be woken now, or a running owner of its key can settle, and
      once it has settled, with a result or an exception, the waiter can be woken. */
  lemma WaitersAreServed(w: World, c: nat, ttl: int) returns (owner: nat)
    requires Inv(w) && c in w.callers && w.callers[c].Waiting?
    ensures !Enabled(w, Wake(c)) ==> Owns(w, owner, w.keys[c])
    ensures !Enabled(w, Wake(c)) && !Stranded(w, c) ==>
      forall v, now :: Enabled(w, Finish(owner, v, now)) && Enabled(Apply(w, Finish(owner, v, now), ttl), Wake(c))
    ensures !Enabled(w, Wake(c)) && !Stranded(w, c) ==>
      forall now :: Enabled(w, Raise(owner, now)) && Enabled(Apply(w, Raise(owner, now), ttl), Wake(c))
  {
    assert WaitsProperly(w, c);
    owner := 0;
    if w.callers[c].event !in w.cache.fired {
      owner :| Owns(w, owner, w.keys[c]);
    }
  }

  lemma StrandedStep(w: World, m: Move, c: nat, ttl: int)
    requires Inv(w) && Stranded(w, c) && Enabled(w, m)
    ensures Stranded(Apply(w, m, ttl), c)
  {
    var x := Apply(w, m, ttl);
    var d :| Owns(w, d, w.keys[c]) && w.callers[d] == Gone;
    assert WaitsProperly(w, c);
    assert m.caller != c && m.caller != d;
    if m.Finish? || m.Raise? {
      assert Owns(w, m.caller, w.keys[m.caller]);
    }
    assert Owns(x, d, x.keys[c]) && x.callers[d] == Gone;
  }

  lemma {:induction false} StrandedForGood(w: World, c: nat, moves: seq<Move>, worlds: seq<World>, ttl: int, n: nat)
    requires Inv(w) && Stranded(w, c) && Continues(w, moves, worlds, ttl) && n <= |moves|
    ensures Inv(worlds[n]) && Stranded(worlds[n], c)
  {
    if n > 0 {
      StrandedForGood(w, c, moves, worlds, ttl, n - 1);
      StepKeepsInv(worlds[n - 1], moves[n - 1], ttl);
      StrandedStep(worlds[n - 1], moves[n - 1], c, ttl);
    }
  }

  /** Who waits for good, exactly: a waiter can still be woken in some continuation if and only if it
      is not stranded. */
  lemma StrandedExactly(w: World, c: nat, ttl: int)
    requires Inv(w) && c in w.callers && w.callers[c].Waiting?
    ensures CanWake(w, c, ttl) <==> !Stranded(w, c)
  {
    if Stranded(w, c) {
      forall moves, worlds | Continues(w, moves, worlds, ttl)
        ensures !Enabled(worlds[|moves|], Wake(c))
      {
        StrandedForGood(w, c, moves, worlds, ttl, |moves|);
      }
    } else {
      var owner := WaitersAreServed(w, c, ttl);
      if Enabled(w, Wake(c)) {
        assert Continues(w, [], [w], ttl);
      } else {
        var m := Finish(owner, IN_PROGRESS, 0);
        var worlds := [w, Apply(w, m, ttl)];
        assert Continues(w, [m], worlds, ttl) && Enabled(worlds[1], Wake(c));
      }
    }
  }

  /** No execution for `k` returns the placeholder. */
  ghost predicate NeverPlaceholder(moves: seq<Move>, worlds: seq<World>, k: Key, ttl: int)
    requires IsRun(moves, worlds, ttl)
  {
    forall i :: 0 <= i < |moves| && moves[i].Finish? && worlds[i].keys[moves[i].caller] == k ==>
      moves[i].value != IN_PROGRESS
  }

  predicate PlaceholderHasEvent(w: World, k: Key) {
    k in w.cache.seen && w.cache.seen[k].result == IN_PROGRESS ==> k in w.cache.events
  }

  lemma PlaceholderStep(w: World, m: Move, k: Key, ttl: int)
    requires Inv(w) && Enabled(w, m) && PlaceholderHasEvent(w, k)
    requires m.Finish? && w.keys[m.caller] == k ==> m.value != IN_PROGRESS
    ensures PlaceholderHasEvent(Apply(w, m, ttl), k)
  {
  }

  lemma {:induction false} PlaceholderAlongRun(moves: seq<Move>, worlds: seq<World>, k: Key, ttl: int, n: nat)
    requires IsRun(moves, worlds, ttl) && NeverPlaceholder(moves, worlds, k, ttl) && n <= |moves|
    ensures PlaceholderHasEvent(worlds[n], k)
  {
    if n > 0 {
      PlaceholderAlongRun(moves, worlds, k, ttl, n - 1);
      InterleavingsKeepInv(moves, worlds, ttl, n - 1);
      PlaceholderStep(worlds[n - 1], moves[n - 1], k, ttl);
    }
  }

  /** Even when executions raise and entries expire: at every point of every interleaving in which
      no execution for the key returns the placeholder itself, the placeholder stands, the event
      exists and the key has an owner all at the same time, and that owner is the only one. */
  lemma PlaceholderIffOwned(moves: seq<Move>, worlds: seq<World>, k: Key, ttl: int, n: nat)
    requires IsRun(moves, worlds, ttl) && NeverPlaceholder(moves, worlds, k, ttl) && n <= |moves|
    ensures var w := worlds[n];
      && (k in w.cache.events <==> exists c :: Owns(w, c, k))
      && (k in w.cache.events <==> k in w.cache.seen && w.cache.seen[k].result == IN_PROGRESS)
      && (forall c, d :: Owns(w, c, k) && Owns(w, d, k) ==> c == d)
  {
    InterleavingsKeepInv(moves, worlds, ttl, n);
    PlaceholderAlongRun(moves, worlds, k, ttl, n);
  }

  /** What a woken waiter gets, in every interleaving in which no execution for its key returns the
      placeholder itself: the placeholder if and only if somebody owns the key again, a failed
      lookup if and only if the key is gone. */
  lemma WokenWaiterGets(moves: seq<Move>, worlds: seq<World>, ttl: int, n: nat, c: nat)
    requires IsRun(moves, worlds, ttl) && n < |moves| && moves[n] == Wake(c)
    requires NeverPlaceholder(moves, worlds, worlds[n].keys[c], ttl)
    ensures var k := worlds[n].keys[c];
      && (worlds[n + 1].callers[c] == Returned(IN_PROGRESS) <==> exists d :: Owns(worlds[n], d, k))
      && (worlds[n + 1].callers[c] == Failed <==> k !in worlds[n].cache.seen)
  {
    PlaceholderIffOwned(moves, worlds, worlds[n].keys[c], ttl, n);
  }

  // ------------------------------------------------------- one run, one value

  predicate At(w: World, c: nat, k: Key) {
    c in w.callers && c in w.keys && w.keys[c] == k
  }

  /** This move is made by a caller of `k`. */
  predicate IsFor(w: World, m: Move, k: Key) {
    m.caller in w.keys && w.keys[m.caller] == k
  }

  /** This move starts the execution of a function for `k`. */
  predicate Starts(w: World, x: World, m: Move, k: Key) {
    m.Enter? && Owns(x, m.caller, k)
  }

  function Executions(moves: seq<Move>, worlds: seq<World>, k: Key, n: nat): nat
    requires |worlds| == |moves| + 1 && n <= |moves|
  {
    if n == 0 then 0
    else Executions(moves, worlds, k, n - 1) + (if Starts(worlds[n - 1], worlds[n], moves[n - 1], k) then 1 else 0)
  }

  /** The last result stored for `k`, whether or not it is still in the cache. */
  function LastResult(moves: seq<Move>, worlds: seq<World>, k: Key, n: nat): Option<Value>
    requires |worlds| == |moves| + 1 && n <= |moves|
  {
    if n == 0 then None
    else if moves[n - 1].Finish? && IsFor(worlds[n - 1], moves[n - 1], k) then Some(moves[n - 1].value)
    else LastResult(moves, worlds, k, n - 1)
  }

  /** Nothing goes wrong for `k` in this move: its execution neither raises nor is abandoned nor
      returns the placeholder, nobody enters after its stored result has passed its time to
      live or was pruned, nobody wakes while it is gone. */
  predicate SmoothMove(w: World, m: Move, k: Key, ttl: int, result: Option<Value>) {
    IsFor(w, m, k) ==>
      && !m.Raise? && !m.Abandon?
      && (m.Finish? ==> m.value != IN_PROGRESS)
      && (m.Enter? && result.Some? ==>
            InProgress(w.cache.seen, k) || Served(w.cache.seen, k, m.pruneTime, ttl))
      && (m.Wake? ==> k in w.cache.seen)
  }

  ghost predicate Smooth(moves: seq<Move>, worlds: seq<World>, k: Key, ttl: int)
    requires |worlds| == |moves| + 1
  {
    forall i :: 0 <= i < |moves| ==> SmoothMove(worlds[i], moves[i], k, ttl, LastResult(moves, worlds, k, i))
  }

  /** The life of one key: untouched, running, finished; a finished entry may be pruned. */
  ghost predicate KeyLife(w: World, k: Key, executions: nat, result: Option<Value>) {
    if k in w.cache.events then
      && executions == 1 && result.None?
      && k in w.cache.seen && w.cache.seen[k].result == IN_PROGRESS
      && forall c :: At(w, c, k) ==>
           w.callers[c] == Idle || w.callers[c] == Owner || w.callers[c] == Waiting(w.cache.events[k])
    else if result.None? then
      executions == 0 && k !in w.cache.seen && forall c :: At(w, c, k) ==> w.callers[c] == Idle
    else
      && executions == 1 && result.value != IN_PROGRESS
      && (k in w.cache.seen ==> w.cache.seen[k].result == result.value)
      && forall c :: At(w, c, k) ==>
           w.callers[c] == Idle || w.callers[c].Waiting? || w.callers[c] == Returned(result.value)
  }

  /** Moves of callers of other keys leave the life of `k` alone. */
  lemma KeyLifeOther(w: World, m: Move, k: Key, ttl: int, executions: nat, result: Option<Value>)
    requires Inv(w) && Enabled(w, m) && KeyLife(w, k, executions, result)
    requires m.caller in w.keys && w.keys[m.caller] != k
    ensures KeyLife(Apply(w, m, ttl), k, executions, result) && !Starts(w, Apply(w, m, ttl), m, k)
  {
    var x := Apply(w, m, ttl);
    forall c | At(x, c, k)
      ensures At(w, c, k) && x.callers[c] == w.callers[c]
    {
    }
  }

  lemma KeyLifeCall(w: World, m: Move, k: Key, ttl: int, executions: nat, result: Option<Value>)
    requires Inv(w) && Enabled(w, m) && k != "" && KeyLife(w, k, executions, result) && m.Call?
    ensures KeyLife(Apply(w, m, ttl), k, executions, result)
  {
    var x := Apply(w, m, ttl);
    forall c | At(x, c, k)
      ensures At(w, c, k) || (c == m.caller && x.callers[c] == Idle)
    {
    }
  }

  lemma KeyLifeOwn(w: World, m: Move, k: Key, ttl: int, executions: nat, result: Option<Value>)
    requires Inv(w) && Enabled(w, m) && KeyLife(w, k, executions, result)
    requires SmoothMove(w, m, k, ttl, result) && IsFor(w, m, k) && !m.Call?
    ensures var x := Apply(w, m, ttl);
      KeyLife(x, k, executions + (if Starts(w, x, m, k) then 1 else 0), if m.Finish? then Some(m.value) else result)
  {
    var x := Apply(w, m, ttl);
    assert At(w, m.caller, k);
    forall c | At(x, c, k)
      ensures At(w, c, k) && (c != m.caller ==> x.callers[c] == w.callers[c])
    {
    }
    if m.Finish? {
      assert Owns(w, m.caller, k);
      forall c | At(w, c, k) && w.callers[c] == Owner
        ensures c == m.caller
      {
        assert Owns(w, c, k);
      }
    } else if m.Wake? {
      assert WaitsProperly(w, m.caller);
    }
  }

  lemma {:induction false} KeyLifeAlongRun(moves: seq<Move>, worlds: seq<World>, k: Key, ttl: int, n: nat)
    requires IsRun(moves, worlds, ttl) && Smooth(moves, worlds, k, ttl) && k != "" && n <= |moves|
    ensures KeyLife(worlds[n], k, Executions(moves, worlds, k, n), LastResult(moves, worlds, k, n))
  {
    if n > 0 {
      KeyLifeAlongRun(moves, worlds, k, ttl, n - 1);
      KeyLifeNext(moves, worlds, k, ttl, n - 1);
    }
  }

  lemma KeyLifeNext(moves: seq<Move>, worlds: seq<World>, k: Key, ttl: int, n: nat)
    requires IsRun(moves, worlds, ttl) && k != "" && n < |moves|
    requires KeyLife(worlds[n], k, Executions(moves, worlds, k, n), LastResult(moves, worlds, k, n))
    requires SmoothMove(worlds[n], moves[n], k, ttl, LastResult(moves, worlds, k, n))
    ensures KeyLife(worlds[n + 1], k, Executions(moves, worlds, k, n + 1), LastResult(moves, worlds, k, n + 1))
  {
    var w, m := worlds[n], moves[n];
    var executions, result := Executions(moves, worlds, k, n), LastResult(moves, worlds, k, n);
    InterleavingsKeepInv(moves, worlds, ttl, n);
    if m.Call? {
      KeyLifeCall(w, m, k, ttl, executions, result);
    } else if IsFor(w, m, k) {
      KeyLifeOwn(w, m, k, ttl, executions, result);
    } else {
      KeyLifeOther(w, m, k, ttl, executions, result);
    }
  }

  // ------------------------------------------------------------- and conversely

  /** A caller that has returned, failed or gone stays as it is. */
  predicate Done(s: Caller) {
    s.Returned? || s.Failed? || s.Gone?
  }

  lemma {:induction false} DoneStays(moves: seq<Move>, worlds: seq<World>, ttl: int, c: nat, k: Key, i: nat, n: nat)
    requires IsRun(moves, worlds, ttl) && i <= n <= |moves|
    requires At(worlds[i], c, k) && Done(worlds[i].callers[c])
    ensures At(worlds[n], c, k) && worlds[n].callers[c] == worlds[i].callers[c]
    decreases n - i
  {
    if i < n {
      DoneStays(moves, worlds, ttl, c, k, i, n - 1);
    }
  }

  lemma {:induction false} OwnerHasStarted(moves: seq<Move>, worlds: seq<World>, ttl: int, c: nat, k: Key, n: nat)
    requires IsRun(moves, worlds, ttl) && n <= |moves| && Owns(worlds[n], c, k)
    ensures Executions(moves, worlds, k, n) >= 1
  {
    if n > 0 && !Starts(worlds[n - 1], worlds[n], moves[n - 1], k) {
      OwnerHasStarted(moves, worlds, ttl, c, k, n - 1);
    }
  }

  lemma {:induction false} ResultWasExecuted(moves: seq<Move>, worlds: seq<World>, ttl: int, k: Key, n: nat)
    requires IsRun(moves, worlds, ttl) && n <= |moves| && LastResult(moves, worlds, k, n).Some?
    ensures Executions(moves, worlds, k, n) >= 1
  {
    var m := moves[n - 1];
    if m.Finish? && IsFor(worlds[n - 1], m, k) {
      OwnerHasStarted(moves, worlds, ttl, m.caller, k, n - 1);
    } else {
      ResultWasExecuted(moves, worlds, ttl, k, n - 1);
    }
  }

  lemma {:induction false} ExecutionsGrow(moves: seq<Move>, worlds: seq<World>, k: Key, i: nat, n: nat)
    requires |worlds| == |moves| + 1 && i <= n <= |moves|
    ensures Executions(moves, worlds, k, i) <= Executions(moves, worlds, k, n)
    decreases n - i
  {
    if i < n {
      ExecutionsGrow(moves, worlds, k, i, n - 1);
    }
  }

  /** What idempotency promises the callers of `k`: one execution at most, nobody fails, nobody is
      handed the placeholder, and all that return have the same value. */
  ghost predicate OnceForAll(moves: seq<Move>, worlds: seq<World>, k: Key)
    requires |worlds| == |moves| + 1
  {
    var w := worlds[|moves|];
    && Executions(moves, worlds, k, |moves|) <= 1
    && (forall c :: At(w, c, k) ==>
          !w.callers[c].Failed? && !w.callers[c].Gone? && w.callers[c] != Returned(IN_PROGRESS))
    && (forall c, d :: At(w, c, k) && At(w, d, k) && w.callers[c].Returned? && w.callers[d].Returned? ==>
          w.callers[c] == w.callers[d])
  }

  lemma RoughMoveShows(moves: seq<Move>, worlds: seq<World>, k: Key, ttl: int, i: nat)
    requires IsRun(moves, worlds, ttl) && i < |moves|
    requires !SmoothMove(worlds[i], moves[i], k, ttl, LastResult(moves, worlds, k, i))
    ensures !OnceForAll(moves, worlds, k)
  {
    var w, x, m := worlds[i], worlds[i + 1], moves[i];
    if m.Enter? {
      ResultWasExecuted(moves, worlds, ttl, k, i);
      assert Starts(w, x, m, k);
      ExecutionsGrow(moves, worlds, k, i + 1, |moves|);
    } else {
      var s := x.callers[m.caller];
      assert At(x, m.caller, k) && (s == Failed || s == Gone || s == Returned(IN_PROGRESS));
      DoneStays(moves, worlds, ttl, m.caller, k, i + 1, |moves|);
    }
  }

  /** In every interleaving the promise is kept for a key if and only if none of its executions
      raises, is abandoned or returns the placeholder, nobody enters for it after its stored
      result has passed its time to live or was pruned, and nobody wakes for it while it is
      gone from the cache. */
  lemma ExactlyOnce(moves: seq<Move>, worlds: seq<World>, k: Key, ttl: int)
    requires IsRun(moves, worlds, ttl) && k != ""
    ensures OnceForAll(moves, worlds, k) <==> Smooth(moves, worlds, k, ttl)
  {
    if Smooth(moves, worlds, k, ttl) {
      KeyLifeAlongRun(moves, worlds, k, ttl, |moves|);
    } else {
      var i :| 0 <= i < |moves| && !SmoothMove(worlds[i], moves[i], k, ttl, LastResult(moves, worlds, k, i));
      RoughMoveShows(moves, worlds, k, ttl, i);
    }
  }

  // --------------------------------------------------- without reference to states

  /** A key's entry outlives the prune of this move. */
  predicate KeepsEntry(w: World, m: Move, k: Key, ttl: int) {
    m.Enter? && k in w.cache.seen && w.cache.seen[k].result != Text("IN_PROGRESS") ==>
      m.pruneTime - w.cache.seen[k].stamp <= ttl
  }

  /** Executions for `k` neither raise nor are abandoned nor return the placeholder, and its entry
      never passes its time to live. Nothing is asked of other keys. */
  ghost predicate Benign(moves: seq<Move>, worlds: seq<World>, k: Key, ttl: int)
    requires |worlds| == |moves| + 1
  {
    forall i :: 0 <= i < |moves| ==>
      && KeepsEntry(worlds[i], moves[i], k, ttl)
      && (IsFor(worlds[i], moves[i], k) ==>
            !moves[i].Raise? && !moves[i].Abandon? && (moves[i].Finish? ==> moves[i].value != IN_PROGRESS))
  }

  lemma BenignMove(w: World, m: Move, k: Key, ttl: int, executions: nat, result: Option<Value>)
    requires Enabled(w, m) && KeepsEntry(w, m, k, ttl) && KeyLife(w, k, executions, result)
    requires IsFor(w, m, k) ==> !m.Raise? && !m.Abandon? && (m.Finish? ==> m.value != IN_PROGRESS)
    requires result.Some? ==> k in w.cache.seen
    ensures SmoothMove(w, m, k, ttl, result)
    ensures result.Some? ==> k in Apply(w, m, ttl).cache.seen
  {
    if m.Wake? && IsFor(w, m, k) {
      assert At(w, m.caller, k);
    }
  }

  lemma {:induction false} BenignLife(moves: seq<Move>, worlds: seq<World>, k: Key, ttl: int, n: nat)
    requires IsRun(moves, worlds, ttl) && Benign(moves, worlds, k, ttl) && k != "" && n <= |moves|
    ensures KeyLife(worlds[n], k, Executions(moves, worlds, k, n), LastResult(moves, worlds, k, n))
    ensures LastResult(moves, worlds, k, n).Some? ==> k in worlds[n].cache.seen
  {
    if n > 0 {
      BenignLife(moves, worlds, k, ttl, n - 1);
      BenignMove(worlds[n - 1], moves[n - 1], k, ttl,
                 Executions(moves, worlds, k, n - 1), LastResult(moves, worlds, k, n - 1));
      KeyLifeNext(moves, worlds, k, ttl, n - 1);
    }
  }

  /** If executions for a key never raise, stop short or return the placeholder and its entry never expires,
      the promise is kept. */
  lemma BenignRunsOnce(moves: seq<Move>, worlds: seq<World>, k: Key, ttl: int)
    requires IsRun(moves, worlds, ttl) && Benign(moves, worlds, k, ttl) && k != ""
    ensures OnceForAll(moves, worlds, k)
  {
    BenignLife(moves, worlds, k, ttl, |moves|);
  }

  // ---------------------------------------------------------- a run that is not

  ghost predicate Reachable(x: World, ttl: int) {
    exists moves, worlds :: IsRun(moves, worlds, ttl) && worlds[|moves|] == x
  }

  lemma StartIsReachable(ttl: int)
    ensures Reachable(START, ttl)
  {
    assert IsRun([], [START], ttl);
  }

  lemma ReachNext(w: World, m: Move, x: World, ttl: int)
    requires Reachable(w, ttl) && Enabled(w, m) && x == Apply(w, m, ttl)
    ensures Reachable(x, ttl)
  {
    var moves, worlds :| IsRun(moves, worlds, ttl) && worlds[|moves|] == w;
    var ms, ws := moves + [m], worlds + [x];
    forall i | 0 <= i < |ms|
      ensures Enabled(ws[i], ms[i]) && ws[i + 1] == Apply(ws[i], ms[i], ttl)
    {
      assert ws[i] == worlds[i];
    }
    assert IsRun(ms, ws, ttl) && ws[|ms|] == x;
  }

  /** Three callers of `k`, in the given positions. */
  function Three(k: Key, cache: Cache, a: Caller, b: Caller, c: Caller): World {
    World(cache, map[0 := k, 1 := k, 2 := k], map[0 := a, 1 := b, 2 := c])
  }

  /** The cache while the `n`th claim of `k` is running and the earlier ones have settled. */
  function Claimed(k: Key, n: nat, fired: set<EventId>): Cache {
    Cache(map[k := Entry(0, IN_PROGRESS)], map[k := n], fired, n + 1)
  }

  lemma ThreeCallers(k: Key, ttl: int)
    requires k != ""
    ensures Reachable(Three(k, START.cache, Idle, Idle, Idle), ttl)
  {
    var one := World(START.cache, map[0 := k], map[0 := Idle]);
    var two := World(START.cache, map[0 := k, 1 := k], map[0 := Idle, 1 := Idle]);
    StartIsReachable(ttl);
    ReachNext(START, Call(0, k), one, ttl);
    ReachNext(one, Call(1, k), two, ttl);
    ReachNext(two, Call(2, k), Three(k, START.cache, Idle, Idle, Idle), ttl);
  }

  /** One owner and one waiter of `k`, and a third caller about to enter. */
  lemma OwnerAndWaiterReachable(k: Key, ttl: int)
    requires k != ""
    ensures Reachable(Three(k, Claimed(k, 0, {}), Owner, Waiting(0), Idle), ttl)
  {
    var owned := Three(k, Claimed(k, 0, {}), Owner, Idle, Idle);
    var waited := Three(k, Claimed(k, 0, {}), Owner, Waiting(0), Idle);
    ThreeCallers(k, ttl);
    assert Pruned(map[], 0, ttl) == map[];
    ReachNext(Three(k, START.cache, Idle, Idle, Idle), Enter(0, 0, 0), owned, ttl);
    assert Pruned(owned.cache.seen, 0, ttl) == owned.cache.seen;
    ReachNext(owned, Enter(1, 0, 0), waited, ttl);
  }

  /** The owner leaves without settling: its waiter is stranded. */
  lemma StrandedReachable(k: Key, ttl: int)
    requires k != ""
    ensures var x := Three(k, Claimed(k, 0, {}), Gone, Waiting(0), Idle); Reachable(x, ttl) && Stranded(x, 1)
  {
    var x := Three(k, Claimed(k, 0, {}), Gone, Waiting(0), Idle);
    OwnerAndWaiterReachable(k, ttl);
    ReachNext(Three(k, Claimed(k, 0, {}), Owner, Waiting(0), Idle), Abandon(0), x, ttl);
    assert Owns(x, 0, x.keys[1]);
  }

  /** The owner raises and the third caller claims the key again, before the waiter has woken. */
  lemma ReclaimedReachable(k: Key, ttl: int)
    requires k != ""
    ensures Reachable(Three(k, Claimed(k, 1, {0}), Failed, Waiting(0), Owner), ttl)
  {
    var waited := Three(k, Claimed(k, 0, {}), Owner, Waiting(0), Idle);
    var raised := Three(k, Cache(map[], map[], {0}, 1), Failed, Waiting(0), Idle);
    OwnerAndWaiterReachable(k, ttl);
    ReachNext(waited, Raise(0, 0), raised, ttl);
    assert Pruned(map[], 0, ttl) == map[];
    ReachNext(raised, Enter(2, 0, 0), Three(k, Claimed(k, 1, {0}), Failed, Waiting(0), Owner), ttl);
  }

  /** Without the no-raise condition the promise fails: the waiter is handed the placeholder of the
      second claim as its result. */
  lemma WaiterMayReceivePlaceholder(k: Key, ttl: int)
    requires k != ""
    ensures Reachable(Three(k, Claimed(k, 1, {0}), Failed, Returned(IN_PROGRESS), Owner), ttl)
  {
    var before := Three(k, Claimed(k, 1, {0}), Failed, Waiting(0), Owner);
    ReclaimedReachable(k, ttl);
    ReachNext(before, Wake(1), Three(k, Claimed(k, 1, {0}), Failed, Returned(IN_PROGRESS), Owner), ttl);
  }
}
