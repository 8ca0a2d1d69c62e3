/**
 Primary and replica peers of cached shards, and voting among peers
 (DecentralizedShardFailover in runtime/dynamic_sharding.py).
 */
module ShardFailover {
  import opened Basics
  import opened StableSort
  import opened OffHeapCache
  import opened PeerVotes

  predicate Bad(corrupted: map<string, seq<string>>, chunk: string, p: string) {
    chunk in corrupted && p in corrupted[chunk]
  }

  /** A peer that may serve the chunk: heard of recently, not marked dead, not reported corrupted. */
  predicate Fit(peers: Peers, p: string, corrupted: map<string, seq<string>>, chunk: string, now: real, timeout: real) {
    p in peers && now - peers[p].last <= timeout && peers[p].active && !Bad(corrupted, chunk, p)
  }

  /** The lowest latency among the fit replicas, the first of them where several have it. */
  ghost predicate BestReplica(
    peers: Peers, list: seq<string>, i: int, corrupted: map<string, seq<string>>, chunk: string, now: real,
    timeout: real)
  {
    && 0 <= i < |list| && Fit(peers, list[i], corrupted, chunk, now, timeout)
    && forall j :: 0 <= j < |list| && Fit(peers, list[j], corrupted, chunk, now, timeout) ==>
         var a, b := peers[list[i]].latency, peers[list[j]].latency;
         a < b || (a == b && i <= j)
  }

  ghost predicate Promoted(
    peers: Peers, list: seq<string>, p: string, corrupted: map<string, seq<string>>, chunk: string, now: real,
    timeout: real)
  {
    exists i :: BestReplica(peers, list, i, corrupted, chunk, now, timeout) && list[i] == p
  }

  /** The peers once a primary that is neither fit nor corrupted is marked dead. */
  function MarkedDead(
    peers: Peers, p: string, corrupted: map<string, seq<string>>, chunk: string, now: real, timeout: real): Peers
  {
    if p in peers && !Fit(peers, p, corrupted, chunk, now, timeout) && !Bad(corrupted, chunk, p)
    then peers[p := Heartbeat(peers[p].last, peers[p].latency, false)]
    else peers
  }

  predicate Alive(peers: Peers, bad: seq<string>, now: real, timeout: real, p: string) {
    p !in bad && p in peers && now - peers[p].last <= timeout && peers[p].active
  }

  function AliveOf(peers: Peers, list: seq<string>, bad: seq<string>, now: real, timeout: real): seq<string> {
    Filter(list, p => Alive(peers, bad, now, timeout, p))
  }

  function ByLatency(peers: Peers, list: seq<string>): seq<string> {
    Sort(list, (a, b) => LatencyOf(peers, a) <= LatencyOf(peers, b))
  }

  function LatencyOf(peers: Peers, p: string): real {
    if p in peers then peers[p].latency else 0.0
  }

  function Ids(chunks: seq<Chunk>): set<string> {
    set c | c in chunks :: c.id
  }

  lemma {:induction false} IdsAreHeld(chunks: seq<Chunk>, id: string)
    ensures id in Ids(chunks) <==> Has(chunks, id)
  {
    if chunks != [] {
      assert chunks == [chunks[0]] + chunks[1..];
      IdsAreHeld(chunks[1..], id);
    }
  }

  class DecentralizedShardFailover {
    const cache: OffHeapCacheManager
    const timeout: real
    var peers: Peers
    var replicas: map<string, seq<string>>
    var primary: map<string, string>
    var corrupted: map<string, seq<string>>
    var votes: Votes
    /** Every vote so far, with the peers as they were when it was cast. */
    ghost var ballots: seq<Ballot>

    /** The chunks and the surplus bytes that the cache held before this object was made. */
    ghost const foreign: set<string>
    ghost const surplus: int

    /** Apart from what the cache held before, a chunk has a primary exactly when its bytes are
        held, and then it has a replica list. */
    ghost predicate Valid() reads this, cache {
      && UniqueIds(cache.chunks)
      && (forall id :: Has(cache.chunks, id) <==> id in primary || id in foreign)
      && primary.Keys !! foreign
      && replicas.Keys == primary.Keys
      && cache.used == Stored(cache.chunks) + surplus && cache.used <= Max(0, cache.maxQuota)
      && votes == Count(timeout, ballots).votes
    }

    /** The cache may be in use already. */
    constructor (cache: OffHeapCacheManager, timeout: real)
      requires UniqueIds(cache.chunks) && cache.used <= Max(0, cache.maxQuota)
      ensures this.cache == cache && this.timeout == timeout && Valid()
      ensures forall id :: id in foreign <==> Has(cache.chunks, id)
      ensures surplus == cache.used - Stored(cache.chunks)
      ensures peers == map[] && primary == map[] && replicas == map[] && corrupted == map[]
      ensures votes == map[] && ballots == []
    {
      this.cache, this.timeout := cache, timeout;
      foreign, surplus := Ids(cache.chunks), cache.used - Stored(cache.chunks);
      forall id: string
        ensures id in Ids(cache.chunks) <==> Has(cache.chunks, id)
      {
        IdsAreHeld(cache.chunks, id);
      }
      peers, replicas, primary, corrupted, votes, ballots := map[], map[], map[], map[], map[], [];
    }

    method RegisterHeartbeat(p: string, latency: real, now: real)
      requires Valid()
      modifies this`peers
      ensures Valid() && peers == old(peers)[p := Heartbeat(now, latency, true)]
    {
      peers := peers[p := Heartbeat(now, latency, true)];
    }

    method AllocateShardReplica(
      chunk: string, primaryPeer: string, data: seq<int>, replicaPeers: seq<string>, memoryWorks: bool)
      returns (ok: bool)
      requires Valid()
      modifies this, cache
      ensures Valid()
      ensures ok <==>
        && (forall c :: c in old(cache.chunks) ==> c.id != chunk)
        && old(cache.used) + |data| <= cache.maxQuota && memoryWorks && data != []
      ensures ok ==>
        && (forall c :: c in cache.chunks <==> c == Chunk(chunk, data) || c in old(cache.chunks))
        && chunk !in old(primary) && primary == old(primary)[chunk := primaryPeer]
        && replicas == old(replicas)[chunk := replicaPeers] && cache.used == old(cache.used) + |data|
      ensures !ok ==>
        && primary == old(primary) && replicas == old(replicas)
        && cache.chunks == old(cache.chunks) && cache.used == old(cache.used)
      ensures peers == old(peers) && corrupted == old(corrupted) && votes == old(votes) && ballots == old(ballots)
    {
      ghost var before := cache.chunks;
      HasExactly(before, chunk);
      ok := cache.AllocateChunk(chunk, data, memoryWorks);
      if ok {
        forall id: string
          ensures Has(cache.chunks, id) <==> id == chunk || Has(before, id)
        {
          PutSpec(before, chunk, data, id);
        }
        PutSpec(before, chunk, data, chunk);
        SizeBounds(before, chunk);
        primary := primary[chunk := primaryPeer];
        replicas := replicas[chunk := replicaPeers];
      }
    }

    /** One more ballot of the poll that all votes to this object make up. */
    method SubmitVote(voter: string, chunk: string, state: string, now: real) returns (decided: bool)
      requires Valid()
      modifies this`votes, this`ballots
      ensures Valid() && ballots == old(ballots) + [Ballot(voter, chunk, state, now, peers)]
      ensures decided == Count(timeout, ballots).decisions[|old(ballots)|]
    {
      ghost var b := Ballot(voter, chunk, state, now, peers);
      decided := CastVote(voter, chunk, state, now);
      CountSnoc(timeout, ballots, b);
      ballots := ballots + [b];
    }

    /** Records, counts, and clears the votes of a decided chunk. */
    method CastVote(voter: string, chunk: string, state: string, now: real) returns (decided: bool)
      modifies this`votes
      ensures (votes, decided) == Cast(timeout, old(votes), Ballot(voter, chunk, state, now, peers))
    {
      if voter !in peers || !peers[voter].active { return false; }
      RecordVote(Ballot(voter, chunk, state, now, peers));
      var activePeers := |set p | p in peers && now - peers[p].last <= timeout && peers[p].active|;
      CountsFresh(peers, now, timeout);
      if |votes[chunk][state]| >= 2 * activePeers / 3 + 1 {
        votes := votes[chunk := map[]];
        return true;
      }
      return false;
    }

    method RecordVote(b: Ballot)
      modifies this`votes
      ensures votes == Recorded(old(votes), b)
    {
      if b.chunk !in votes { votes := votes[b.chunk := map[]]; }
      if b.state !in votes[b.chunk] { votes := votes[b.chunk := votes[b.chunk][b.state := {}]]; }
      votes := votes[b.chunk := votes[b.chunk][b.state := votes[b.chunk][b.state] + {b.voter}]];
      assert votes[b.chunk] == Recorded(old(votes), b)[b.chunk];
    }

    method ReportCorruptedReplica(chunk: string, p: string)
      requires Valid()
      modifies this`corrupted
      ensures Valid()
      ensures forall c, q :: Bad(corrupted, c, q) <==> Bad(old(corrupted), c, q) || (c == chunk && q == p)
    {
      if chunk !in corrupted {
        corrupted := corrupted[chunk := []];
      }
      if p !in corrupted[chunk] {
        corrupted := corrupted[chunk := corrupted[chunk] + [p]];
      }
    }

    /** The loop over the replica list. */
    method AliveReplicas(list: seq<string>, bad: seq<string>, now: real) returns (alive: seq<string>)
      ensures alive == AliveOf(peers, list, bad, now, timeout)
    {
      alive := [];
      var i := 0;
      while i < |list|
        invariant 0 <= i <= |list|
        invariant alive == AliveOf(peers, list[..i], bad, now, timeout)
      {
        AliveSnoc(peers, list[..i], list[i], bad, now, timeout);
        PrefixSnoc(list, i);
        if list[i] !in bad && list[i] in peers && now - peers[list[i]].last <= timeout && peers[list[i]].active {
          alive := alive + [list[i]];
        }
        i := i + 1;
      }
      assert list[..i] == list;
    }

    /** Keeps a fit primary, promotes the best fit replica, or frees the chunk. */
    method CheckFailover(chunk: string, now: real) returns (result: Option<string>)
      requires Valid()
      modifies this, cache
      ensures Valid() && corrupted == old(corrupted) && votes == old(votes) && ballots == old(ballots)
      ensures peers == if chunk in old(primary)
                       then MarkedDead(old(peers), old(primary)[chunk], corrupted, chunk, now, timeout) else old(peers)
      ensures result.Some? ==>
        && chunk in old(primary) && primary == old(primary)[chunk := result.value]
        && replicas == old(replicas) && cache.chunks == old(cache.chunks) && cache.used == old(cache.used)
        && (if Fit(old(peers), old(primary)[chunk], corrupted, chunk, now, timeout)
            then result.value == old(primary)[chunk]
            else Promoted(old(peers), replicas[chunk], result.value, corrupted, chunk, now, timeout))
      ensures result.None? ==> primary == old(primary) - {chunk} && replicas == old(replicas) - {chunk}
      ensures chunk !in old(primary) ==>
        result.None? && cache.chunks == old(cache.chunks) && cache.used == old(cache.used)
      ensures result.None? && chunk in old(primary) ==>
        && (forall c :: c in cache.chunks <==> c in old(cache.chunks) && c.id != chunk)
        && (forall c :: c in old(cache.chunks) && c.id == chunk ==> cache.used == old(cache.used) - |c.data|)
        && !Fit(old(peers), old(primary)[chunk], corrupted, chunk, now, timeout)
        && forall j :: 0 <= j < |old(replicas)[chunk]| ==>
             !Fit(old(peers), old(replicas)[chunk][j], corrupted, chunk, now, timeout)
    {
      if chunk !in primary {
        assert primary - {chunk} == primary && replicas - {chunk} == replicas;
        return None;
      }
      var bad := if chunk in corrupted then corrupted[chunk] else [];
      var p := primary[chunk];
      if p in peers && now - peers[p].last <= timeout && peers[p].active && p !in bad {
        assert primary == primary[chunk := p];
        return Some(p);
      }
      result := ReplacePrimary(chunk, bad, now);
    }

    /** An unfit primary is marked dead unless it is corrupted, and then replaced or given up. */
    method ReplacePrimary(chunk: string, bad: seq<string>, now: real) returns (result: Option<string>)
      requires Valid() && chunk in primary && forall p :: p in bad <==> Bad(corrupted, chunk, p)
      requires !Fit(peers, primary[chunk], corrupted, chunk, now, timeout)
      modifies this`peers, this`primary, this`replicas, cache
      ensures Valid()
      ensures peers == MarkedDead(old(peers), old(primary)[chunk], corrupted, chunk, now, timeout)
      ensures result.Some? ==>
        && Promoted(old(peers), old(replicas)[chunk], result.value, corrupted, chunk, now, timeout)
        && primary == old(primary)[chunk := result.value]
        && replicas == old(replicas) && cache.chunks == old(cache.chunks) && cache.used == old(cache.used)
      ensures result.None? ==>
        && primary == old(primary) - {chunk} && replicas == old(replicas) - {chunk}
        && (forall c :: c in cache.chunks <==> c in old(cache.chunks) && c.id != chunk)
        && (forall c :: c in old(cache.chunks) && c.id == chunk ==> cache.used == old(cache.used) - |c.data|)
        && forall j :: 0 <= j < |old(replicas)[chunk]| ==>
             !Fit(old(peers), old(replicas)[chunk][j], corrupted, chunk, now, timeout)
    {
      var p := primary[chunk];
      if p in peers && p !in bad {
        peers := peers[p := peers[p].(active := false)];
      }
      var alive := AliveReplicas(replicas[chunk], bad, now);
      DeadIsUnfit(old(peers), p, corrupted, chunk, now, timeout, replicas[chunk]);
      result := Promote(chunk, alive, bad, now);
    }

    /** Second half of the failover: promote the first by latency, or give the chunk up. */
    method Promote(chunk: string, alive: seq<string>, bad: seq<string>, now: real) returns (result: Option<string>)
      requires Valid() && chunk in primary && forall p :: p in bad <==> Bad(corrupted, chunk, p)
      requires alive == AliveOf(peers, replicas[chunk], bad, now, timeout)
      modifies this`primary, this`replicas, cache
      ensures Valid()
      ensures result.Some? ==>
        && Promoted(peers, old(replicas)[chunk], result.value, corrupted, chunk, now, timeout)
        && primary == old(primary)[chunk := result.value]
        && replicas == old(replicas) && cache.chunks == old(cache.chunks) && cache.used == old(cache.used)
      ensures result.None? ==>
        && primary == old(primary) - {chunk} && replicas == old(replicas) - {chunk}
        && (forall c :: c in cache.chunks <==> c in old(cache.chunks) && c.id != chunk)
        && (forall c :: c in old(cache.chunks) && c.id == chunk ==> cache.used == old(cache.used) - |c.data|)
        && forall j :: 0 <= j < |old(replicas)[chunk]| ==>
             !Fit(peers, old(replicas)[chunk][j], corrupted, chunk, now, timeout)
    {
      FirstIsBest(peers, replicas[chunk], alive, bad, corrupted, chunk, now, timeout);
      if alive == [] {
        ghost var before := cache.chunks;
        primary := primary - {chunk};
        replicas := replicas - {chunk};
        cache.FreeChunk(chunk);
        forall id: string
          ensures Has(cache.chunks, id) <==> id != chunk && Has(before, id)
        {
          DropSpec(before, chunk, id);
        }
        DropSpec(before, chunk, chunk);
        SizeBounds(before, chunk);
        return None;
      }
      var sorted := ByLatency(peers, alive);
      primary := primary[chunk := sorted[0]];
      return Some(sorted[0]);
    }
  }

  lemma CountsFresh(peers: Peers, now: real, timeout: real)
    ensures (set p | p in peers && now - peers[p].last <= timeout && peers[p].active) == FreshPeers(peers, now, timeout)
  {
  }

  /** Marking the primary dead makes nobody fit or unfit, so the best replica is the same. */
  lemma DeadIsUnfit(
    peers: Peers, p: string, corrupted: map<string, seq<string>>, chunk: string, now: real, timeout: real,
    list: seq<string>)
    ensures var after := MarkedDead(peers, p, corrupted, chunk, now, timeout);
      && (forall q ::
            Fit(after, q, corrupted, chunk, now, timeout) <==> Fit(peers, q, corrupted, chunk, now, timeout))
      && (forall q ::
            Promoted(after, list, q, corrupted, chunk, now, timeout) ==>
            Promoted(peers, list, q, corrupted, chunk, now, timeout))
  {
    var after := MarkedDead(peers, p, corrupted, chunk, now, timeout);
    forall q | Promoted(after, list, q, corrupted, chunk, now, timeout)
      ensures Promoted(peers, list, q, corrupted, chunk, now, timeout)
    {
      var i :| BestReplica(after, list, i, corrupted, chunk, now, timeout) && list[i] == q;
      assert BestReplica(peers, list, i, corrupted, chunk, now, timeout);
    }
  }

  lemma AliveSnoc(peers: Peers, list: seq<string>, p: string, bad: seq<string>, now: real, timeout: real)
    ensures AliveOf(peers, list + [p], bad, now, timeout)
         == AliveOf(peers, list, bad, now, timeout) + if Alive(peers, bad, now, timeout, p) then [p] else []
  {
    FilterSnoc(list, p, q => Alive(peers, bad, now, timeout, q));
  }

  lemma LatencyIsTotal(peers: Peers)
    ensures TotalPreorder((a, b) => LatencyOf(peers, a) <= LatencyOf(peers, b))
  {
  }

  /** The head of the latency order is the best fit replica. */
  lemma FirstIsBest(
    peers: Peers, list: seq<string>, alive: seq<string>, bad: seq<string>, corrupted: map<string, seq<string>>,
    chunk: string, now: real, timeout: real)
    requires forall p :: p in bad <==> Bad(corrupted, chunk, p)
    requires alive == AliveOf(peers, list, bad, now, timeout)
    ensures |ByLatency(peers, alive)| == |alive|
    ensures alive == [] <==> forall j :: 0 <= j < |list| ==> !Fit(peers, list[j], corrupted, chunk, now, timeout)
    ensures alive != [] ==> Promoted(peers, list, ByLatency(peers, alive)[0], corrupted, chunk, now, timeout)
  {
    var keep := p => Alive(peers, bad, now, timeout, p);
    LatencyIsTotal(peers);
    var sorted := ByLatency(peers, alive);
    var at := FilterSortPlaces(list, keep, (a, b) => LatencyOf(peers, a) <= LatencyOf(peers, b));
    forall j | 0 <= j < |list| && Fit(peers, list[j], corrupted, chunk, now, timeout)
      ensures at != []
      ensures var a, b := peers[list[at[0]]].latency, peers[list[j]].latency; a < b || (a == b && at[0] <= j)
    {
      assert keep(list[j]);
      var k :| 0 <= k < |at| && at[k] == j;
      assert k > 0 ==> LatencyOf(peers, sorted[0]) <= LatencyOf(peers, sorted[k]);
    }
    if alive != [] {
      assert BestReplica(peers, list, at[0], corrupted, chunk, now, timeout);
    }
  }
}
