/**
 Heartbeats and two-thirds voting among peers (submit_vote of DecentralizedShardFailover in
 runtime/dynamic_sharding.py).

 Heartbeats arrive and peers are marked dead between votes, so every ballot carries the table
 of peers that it sees; nothing ties the tables of different ballots together.
 */
module PeerVotes {
  import opened Basics
  import opened StableSort

  datatype Heartbeat = Heartbeat(last: real, latency: real, active: bool)

  type Peers = map<string, Heartbeat>

  predicate Fresh(peers: Peers, p: string, now: real, timeout: real) {
    p in peers && now - peers[p].last <= timeout && peers[p].active
  }

  function FreshPeers(peers: Peers, now: real, timeout: real): set<string> {
    set p | p in peers && Fresh(peers, p, now, timeout)
  }

  /** The peers that may vote. */
  function Active(peers: Peers): set<string> {
    set p | p in peers && peers[p].active
  }

  /** chunk -> proposed state -> voters */
  type Votes = map<string, map<string, set<string>>>

  function VotersOf(votes: Votes, chunk: string, state: string): set<string> {
    if chunk in votes && state in votes[chunk] then votes[chunk][state] else {}
  }

  predicate Quorum(votesReceived: nat, activePeers: nat) {
    votesReceived >= 2 * activePeers / 3 + 1
  }

  /** The threshold is a strict two-thirds majority. */
  lemma QuorumIsTwoThirds(votesReceived: nat, activePeers: nat)
    ensures Quorum(votesReceived, activePeers) <==> 3 * votesReceived > 2 * activePeers
  {
  }

  /** A vote, when it is cast, and the peers as they are then. */
  datatype Ballot = Ballot(voter: string, chunk: string, state: string, now: real, peers: Peers)

  predicate MayVote(b: Ballot) {
    b.voter in Active(b.peers)
  }

  /** The number of peers that are counted for a ballot. */
  function Counted(b: Ballot, timeout: real): nat {
    |FreshPeers(b.peers, b.now, timeout)|
  }

  /** Enters the voter for the chunk and state; voting twice changes nothing. */
  function Recorded(votes: Votes, b: Ballot): Votes {
    var forChunk := if b.chunk in votes then votes[b.chunk] else map[];
    votes[b.chunk := forChunk[b.state := VotersOf(votes, b.chunk, b.state) + {b.voter}]]
  }

  function Cast(timeout: real, votes: Votes, b: Ballot): (Votes, bool) {
    if !MayVote(b) then (votes, false)
    else
      var after := Recorded(votes, b);
      if Quorum(|VotersOf(after, b.chunk, b.state)|, Counted(b, timeout)) then (after[b.chunk := map[]], true)
      else (after, false)
  }

  // -------------------------------------------------------------------- runs

  datatype Poll = Poll(votes: Votes, decisions: seq<bool>)

  function Count(timeout: real, ballots: seq<Ballot>): (r: Poll)
    ensures |r.decisions| == |ballots|
  {
    if ballots == [] then Poll(map[], [])
    else
      var before := Count(timeout, ballots[..|ballots| - 1]);
      var (votes, decided) := Cast(timeout, before.votes, ballots[|ballots| - 1]);
      Poll(votes, before.decisions + [decided])
  }

  lemma CountSnoc(timeout: real, ballots: seq<Ballot>, b: Ballot)
    ensures var before := Count(timeout, ballots);
      var (votes, decided) := Cast(timeout, before.votes, b);
      Count(timeout, ballots + [b]) == Poll(votes, before.decisions + [decided])
  {
    assert (ballots + [b])[..|ballots|] == ballots;
  }

  /** The ballot at `j` was admitted for this chunk and state, and the chunk was not decided since. */
  predicate Stands(ballots: seq<Ballot>, decisions: seq<bool>, chunk: string, state: string, j: int)
    requires |ballots| == |decisions|
  {
    && 0 <= j < |ballots| && ballots[j].chunk == chunk && ballots[j].state == state && MayVote(ballots[j])
    && forall k :: j <= k < |ballots| ==> !(ballots[k].chunk == chunk && decisions[k])
  }

  ghost predicate VotedSince(ballots: seq<Ballot>, decisions: seq<bool>, chunk: string, state: string, voter: string)
    requires |ballots| == |decisions|
  {
    exists j :: Stands(ballots, decisions, chunk, state, j) && ballots[j].voter == voter
  }

  lemma CastOther(timeout: real, votes: Votes, b: Ballot, chunk: string, state: string)
    ensures var (after, decided) := Cast(timeout, votes, b);
      VotersOf(after, chunk, state) ==
        if chunk == b.chunk && decided then {}
        else VotersOf(votes, chunk, state)
             + (if chunk == b.chunk && state == b.state && MayVote(b) then {b.voter} else {})
  {
  }

  /** The recorded voters are exactly those with a standing ballot. */
  lemma {:induction false} VotersStand(timeout: real, ballots: seq<Ballot>, chunk: string, state: string, voter: string)
    ensures voter in VotersOf(Count(timeout, ballots).votes, chunk, state)
       <==> VotedSince(ballots, Count(timeout, ballots).decisions, chunk, state, voter)
  {
    if ballots != [] {
      var n := |ballots| - 1;
      var init, b := ballots[..n], ballots[n];
      var before := Count(timeout, init);
      VotersStand(timeout, init, chunk, state, voter);
      CastOther(timeout, before.votes, b, chunk, state);
      StandsAppend(init, before.decisions, b, Cast(timeout, before.votes, b).1, chunk, state, voter);
      Unsnoc(ballots);
      CountSnoc(timeout, init, b);
    }
  }

  lemma StandsAppend(
    init: seq<Ballot>, decisions: seq<bool>, b: Ballot, decided: bool, chunk: string, state: string, voter: string)
    requires |init| == |decisions|
    ensures VotedSince(init + [b], decisions + [decided], chunk, state, voter) <==>
      && !(b.chunk == chunk && decided)
      && (VotedSince(init, decisions, chunk, state, voter)
          || (b.voter == voter && b.chunk == chunk && b.state == state && MayVote(b)))
  {
    var bs, ds := init + [b], decisions + [decided];
    if VotedSince(bs, ds, chunk, state, voter) {
      var j :| Stands(bs, ds, chunk, state, j) && bs[j].voter == voter;
      assert !(bs[|init|].chunk == chunk && ds[|init|]);
      if j < |init| {
        forall k | j <= k < |init|
          ensures !(init[k].chunk == chunk && decisions[k])
        {
          assert bs[k] == init[k] && ds[k] == decisions[k];
        }
        assert Stands(init, decisions, chunk, state, j) && init[j].voter == voter;
      }
    }
    if !(b.chunk == chunk && decided) {
      if VotedSince(init, decisions, chunk, state, voter) {
        var j :| Stands(init, decisions, chunk, state, j) && init[j].voter == voter;
        forall k | j <= k < |bs|
          ensures !(bs[k].chunk == chunk && ds[k])
        {
          if k < |init| {
            assert bs[k] == init[k] && ds[k] == decisions[k];
          }
        }
        assert Stands(bs, ds, chunk, state, j) && bs[j].voter == voter;
      }
      if b.voter == voter && b.chunk == chunk && b.state == state && MayVote(b) {
        assert Stands(bs, ds, chunk, state, |init|) && bs[|init|].voter == voter;
      }
    }
  }

  /** Those whose ballot for the chunk and state stands at the end of a poll. */
  ghost function Standing(timeout: real, ballots: seq<Ballot>, chunk: string, state: string): set<string> {
    var decisions := Count(timeout, ballots).decisions;
    set j | 0 <= j < |ballots| && Stands(ballots, decisions, chunk, state, j) :: ballots[j].voter
  }

  lemma StandingAreVoters(timeout: real, ballots: seq<Ballot>, chunk: string, state: string)
    ensures Standing(timeout, ballots, chunk, state) == VotersOf(Count(timeout, ballots).votes, chunk, state)
  {
    var decisions := Count(timeout, ballots).decisions;
    var standing := Standing(timeout, ballots, chunk, state);
    var voters := VotersOf(Count(timeout, ballots).votes, chunk, state);
    forall p: string
      ensures p in standing <==> p in voters
    {
      VotersStand(timeout, ballots, chunk, state, p);
      if VotedSince(ballots, decisions, chunk, state, p) {
        var j :| Stands(ballots, decisions, chunk, state, j) && ballots[j].voter == p;
      }
    }
    assert standing == voters;
  }

  /** Who supports ballot `i`: those with a standing ballot before it, and its own voter. */
  ghost function Supporters(timeout: real, ballots: seq<Ballot>, i: nat): set<string>
    requires i < |ballots|
  {
    Standing(timeout, ballots[..i], ballots[i].chunk, ballots[i].state) + {ballots[i].voter}
  }

  lemma {:induction false} CountPrefix(timeout: real, ballots: seq<Ballot>, i: nat)
    requires i < |ballots|
    ensures Count(timeout, ballots).decisions[i] == Cast(timeout, Count(timeout, ballots[..i]).votes, ballots[i]).1
  {
    var n := |ballots| - 1;
    var init := ballots[..n];
    Unsnoc(ballots);
    CountSnoc(timeout, init, ballots[n]);
    if i < n {
      CountPrefix(timeout, init, i);
      assert init[..i] == ballots[..i];
    }
  }

  /** In every poll, whatever happens to the peers between its ballots: a vote succeeds exactly when
      its voter may vote and its supporters are more than two thirds of the peers that are
      fresh at that moment. */
  lemma DecidesByFreshCount(timeout: real, ballots: seq<Ballot>, i: nat)
    requires i < |ballots|
    ensures Count(timeout, ballots).decisions[i] <==>
      MayVote(ballots[i]) && 3 * |Supporters(timeout, ballots, i)| > 2 * Counted(ballots[i], timeout)
  {
    CountPrefix(timeout, ballots, i);
    StandingAreVoters(timeout, ballots[..i], ballots[i].chunk, ballots[i].state);
    QuorumIsTwoThirds(|Supporters(timeout, ballots, i)|, Counted(ballots[i], timeout));
  }

  // ---------------------------------------- two thirds of whom, and exactly when

  /** More than two thirds of the peers that may vote now are among the supporters. */
  ghost predicate TwoThirds(peers: Peers, supporters: set<string>) {
    3 * |supporters * Active(peers)| > 2 * |Active(peers)|
  }

  /** Leaving the stale peers out of the count does not lower the threshold. */
  predicate FullThreshold(peers: Peers, now: real, timeout: real) {
    2 * |FreshPeers(peers, now, timeout)| / 3 == 2 * |Active(peers)| / 3
  }

  lemma FreshAreActive(peers: Peers, now: real, timeout: real)
    ensures FreshPeers(peers, now, timeout) <= Active(peers)
    ensures |FreshPeers(peers, now, timeout)| <= |Active(peers)|
  {
    SubsetSize(FreshPeers(peers, now, timeout), Active(peers));
  }

  /** A success whose supporters may all still vote, at a full threshold, carries two thirds. */
  lemma FullThresholdSuffices(timeout: real, ballots: seq<Ballot>, i: nat)
    requires i < |ballots| && Count(timeout, ballots).decisions[i]
    requires FullThreshold(ballots[i].peers, ballots[i].now, timeout)
    requires Supporters(timeout, ballots, i) <= Active(ballots[i].peers)
    ensures TwoThirds(ballots[i].peers, Supporters(timeout, ballots, i))
  {
    var s, peers := Supporters(timeout, ballots, i), ballots[i].peers;
    DecidesByFreshCount(timeout, ballots, i);
    assert s * Active(peers) == s;
    SameThreshold(|s|, Counted(ballots[i], timeout), |Active(peers)|);
  }

  lemma SameThreshold(received: nat, counted: nat, active: nat)
    requires 3 * received > 2 * counted && 2 * counted / 3 == 2 * active / 3
    ensures 3 * received > 2 * active
  {
  }

  /** A moment of the vote on one chunk and state. */
  datatype Moment = Moment(peers: Peers, now: real, chunk: string, state: string)

  function VoteOf(v: string, m: Moment): Ballot {
    Ballot(v, m.chunk, m.state, m.now, m.peers)
  }

  /** The record after some voters have voted in turn at one moment. */
  function After(timeout: real, votes: Votes, voters: seq<string>, m: Moment): Votes {
    if voters == [] then votes
    else Cast(timeout, After(timeout, votes, voters[..|voters| - 1], m), VoteOf(voters[|voters| - 1], m)).0
  }

  /** None of them succeeds. */
  predicate Undecided(timeout: real, votes: Votes, voters: seq<string>, m: Moment) {
    voters == [] ||
    (var init := voters[..|voters| - 1];
     && Undecided(timeout, votes, init, m)
     && !Cast(timeout, After(timeout, votes, init, m), VoteOf(voters[|voters| - 1], m)).1)
  }

  /** After some votes without success, `v` succeeds. */
  predicate Succeeds(timeout: real, votes: Votes, voters: seq<string>, v: string, m: Moment) {
    Undecided(timeout, votes, voters, m) && Cast(timeout, After(timeout, votes, voters, m), VoteOf(v, m)).1
  }

  function Backers(timeout: real, votes: Votes, voters: seq<string>, v: string, m: Moment): set<string> {
    VotersOf(After(timeout, votes, voters, m), m.chunk, m.state) + {v}
  }

  /** However the vote goes on at this moment, its next success carries two thirds. */
  ghost predicate NextCarriesTwoThirds(timeout: real, votes: Votes, m: Moment) {
    forall voters, v :: Succeeds(timeout, votes, voters, v, m) ==>
      TwoThirds(m.peers, Backers(timeout, votes, voters, v, m))
  }

  /** The exact condition on the standing voters and the peers at this moment: they may all still
      vote and the threshold is full; or they are two thirds already; or one peer is all there is. */
  ghost predicate SoundMoment(timeout: real, standing: set<string>, m: Moment) {
    || (standing <= Active(m.peers) && FullThreshold(m.peers, m.now, timeout))
    || TwoThirds(m.peers, standing)
    || |Active(m.peers)| <= 1
  }

  function Members(s: seq<string>): set<string> {
    set x | x in s
  }

  lemma MembersSnoc(s: seq<string>, x: string)
    ensures Members(s + [x]) == Members(s) + {x}
  {
  }

  /** While nothing is decided, those who may vote are only collected. */
  lemma {:induction false} Collects(timeout: real, votes: Votes, voters: seq<string>, m: Moment)
    requires Undecided(timeout, votes, voters, m)
    ensures VotersOf(After(timeout, votes, voters, m), m.chunk, m.state)
         == VotersOf(votes, m.chunk, m.state) + Members(voters) * Active(m.peers)
  {
    if voters != [] {
      var init, v := voters[..|voters| - 1], voters[|voters| - 1];
      Unsnoc(voters);
      MembersSnoc(init, v);
      Collects(timeout, votes, init, m);
      CastOther(timeout, After(timeout, votes, init, m), VoteOf(v, m), m.chunk, m.state);
    }
  }

  /** A vote succeeds exactly when it may be cast and brings the record to the threshold. */
  lemma CastDecides(timeout: real, votes: Votes, v: string, m: Moment)
    ensures Cast(timeout, votes, VoteOf(v, m)).1 <==>
      && v in Active(m.peers)
      && Quorum(|VotersOf(votes, m.chunk, m.state) + {v}|, |FreshPeers(m.peers, m.now, timeout)|)
  {
  }

  lemma SoundMomentSuffices(timeout: real, votes: Votes, voters: seq<string>, v: string, m: Moment)
    requires Succeeds(timeout, votes, voters, v, m)
    requires SoundMoment(timeout, VotersOf(votes, m.chunk, m.state), m)
    ensures TwoThirds(m.peers, Backers(timeout, votes, voters, v, m))
  {
    var standing, active := VotersOf(votes, m.chunk, m.state), Active(m.peers);
    var counted := |FreshPeers(m.peers, m.now, timeout)|;
    var added := Members(voters) * active + {v};
    Collects(timeout, votes, voters, m);
    CastDecides(timeout, After(timeout, votes, voters, m), v, m);
    assert Backers(timeout, votes, voters, v, m) == standing + added;
    QuorumIsTwoThirds(|standing + added|, counted);
    SoundSets(standing, added, active, counted);
  }

  lemma SoundSets(standing: set<string>, added: set<string>, active: set<string>, counted: nat)
    requires added != {} && added <= active && 3 * |standing + added| > 2 * counted
    requires || (standing <= active && 2 * counted / 3 == 2 * |active| / 3)
             || 3 * |standing * active| > 2 * |active|
             || |active| <= 1
    ensures 3 * |(standing + added) * active| > 2 * |active|
  {
    var s := standing + added;
    if 3 * |standing * active| > 2 * |active| {
      SubsetSize(standing * active, s * active);
    } else if |active| <= 1 {
      SubsetSize(added, s * active);
    } else {
      assert s * active == s;
      SameThreshold(|s|, counted, |active|);
    }
  }

  // ---------------------------------------------------- and otherwise it fails

  lemma {:induction false} MemberCount(s: seq<string>)
    requires Distinct(s)
    ensures |Members(s)| == |s|
  {
    if s != [] {
      Unsnoc(s);
      MemberCount(s[..|s| - 1]);
      MembersSnoc(s[..|s| - 1], s[|s| - 1]);
    }
  }

  lemma {:induction false} Listed(all: set<string>, n: nat) returns (s: seq<string>)
    requires n <= |all|
    ensures |s| == n && Distinct(s) && Members(s) <= all
  {
    s := [];
    if n > 0 {
      var x :| x in all;
      s := Listed(all - {x}, n - 1);
      MembersSnoc(s, x);
      s := s + [x];
    }
  }

  lemma Grown(had: set<string>, init: seq<string>, v: string, active: set<string>)
    requires Distinct(init + [v]) && Members(init + [v]) <= active - had
    ensures |had + Members(init) * active + {v}| == |had| + |init| + 1
  {
    MembersSnoc(init, v);
    MemberCount(init + [v]);
    var all := Members(init + [v]);
    assert had + Members(init) * active + {v} == had + all;
    assert had !! all;
  }

  /** New voters below the threshold decide nothing. */
  lemma {:induction false} BelowThreshold(timeout: real, votes: Votes, voters: seq<string>, m: Moment)
    requires Distinct(voters) && Members(voters) <= Active(m.peers)
    requires voters != [] ==>
      && Members(voters) !! VotersOf(votes, m.chunk, m.state)
      && !Quorum(|VotersOf(votes, m.chunk, m.state)| + |voters|, |FreshPeers(m.peers, m.now, timeout)|)
    ensures Undecided(timeout, votes, voters, m)
  {
    if voters != [] {
      var init, v := voters[..|voters| - 1], voters[|voters| - 1];
      Unsnoc(voters);
      MembersSnoc(init, v);
      BelowThreshold(timeout, votes, init, m);
      Collects(timeout, votes, init, m);
      Grown(VotersOf(votes, m.chunk, m.state), init, v, Active(m.peers));
      CastDecides(timeout, After(timeout, votes, init, m), v, m);
    }
  }

  /** At a moment that is not sound, some voters in turn succeed with at most two thirds. */
  lemma TooFewDecide(timeout: real, votes: Votes, m: Moment) returns (voters: seq<string>, v: string)
    requires !SoundMoment(timeout, VotersOf(votes, m.chunk, m.state), m)
    ensures Succeeds(timeout, votes, voters, v, m)
    ensures !TwoThirds(m.peers, Backers(timeout, votes, voters, v, m))
  {
    var standing, active := VotersOf(votes, m.chunk, m.state), Active(m.peers);
    FreshAreActive(m.peers, m.now, timeout);
    voters, v := Tipping(standing, active, |FreshPeers(m.peers, m.now, timeout)|);
    BelowThreshold(timeout, votes, voters, m);
    Collects(timeout, votes, voters, m);
    CastDecides(timeout, After(timeout, votes, voters, m), v, m);
    Regroup(standing, voters, v, active);
  }

  /** Voters that bring the standing ones just to the threshold, with as few active ones as possible. */
  lemma Tipping(standing: set<string>, active: set<string>, counted: nat) returns (init: seq<string>, v: string)
    requires counted <= |active| && |active| > 1 && 3 * |standing * active| <= 2 * |active|
    requires !(standing <= active && 2 * counted / 3 == 2 * |active| / 3)
    ensures v in active && Distinct(init) && Members(init) <= active && Members(init + [v]) <= active
    ensures init != [] ==> Members(init) !! standing && !Quorum(|standing| + |init|, counted)
    ensures Quorum(|standing + Members(init) * active + {v}|, counted)
    ensures 3 * |(standing + Members(init + [v])) * active| <= 2 * |active|
  {
    var need := 2 * counted / 3 + 1;
    SplitSizes(standing, active);
    if |standing| >= need {
      v := OneVoter(standing, active);
      init := [];
      SubsetSize(standing, standing + Members(init) * active + {v});
    } else {
      TipArithmetic(counted, |active|, |standing - active|);
      init, v := JustEnough(standing, active, need);
    }
    MembersSnoc(init, v);
    Regroup(standing, init, v, active);
  }

  lemma TipArithmetic(counted: nat, active: nat, gone: nat)
    requires counted <= active && active > 1 && (gone > 0 || 2 * counted / 3 != 2 * active / 3)
    ensures 2 * counted / 3 + 1 <= active && 3 * (2 * counted / 3 + 1 - gone) <= 2 * active
  {
  }

  lemma Regroup(standing: set<string>, init: seq<string>, v: string, active: set<string>)
    requires Members(init) <= active
    ensures standing + Members(init) * active + {v} == standing + Members(init + [v])
  {
    assert Members(init) * active == Members(init);
    MembersSnoc(init, v);
  }

  lemma DisjointSize(a: set<string>, b: set<string>)
    requires a !! b
    ensures |a + b| == |a| + |b|
  {
  }

  lemma SplitSizes(standing: set<string>, active: set<string>)
    ensures |standing| == |standing * active| + |standing - active|
    ensures |active| == |standing * active| + |active - standing|
    ensures standing <= active || |standing - active| > 0
  {
    DisjointSize(standing * active, standing - active);
    assert standing == standing * active + (standing - active);
    DisjointSize(standing * active, active - standing);
    assert active == standing * active + (active - standing);
  }

  lemma Completed(standing: set<string>, active: set<string>, added: set<string>)
    requires added <= active - standing
    ensures |standing + added| == |standing| + |added|
    ensures |(standing + added) * active| == |standing * active| + |added|
  {
    DisjointSize(standing, added);
    DisjointSize(standing * active, added);
    assert (standing + added) * active == standing * active + added;
  }

  /** New active voters that complete the standing ones to `need`. */
  lemma JustEnough(standing: set<string>, active: set<string>, need: nat) returns (init: seq<string>, v: string)
    requires |standing| < need <= |active| + |standing - active|
    ensures v in active && Distinct(init) && Members(init) <= active && Members(init + [v]) <= active
    ensures Members(init) !! standing && |standing| + |init| + 1 == need
    ensures |standing + Members(init + [v])| == need
    ensures |(standing + Members(init + [v])) * active| == need - |standing - active|
  {
    SplitSizes(standing, active);
    var voters := Listed(active - standing, need - |standing|);
    MemberCount(voters);
    Completed(standing, active, Members(voters));
    init, v := LastApart(voters);
  }

  lemma LastApart(voters: seq<string>) returns (init: seq<string>, v: string)
    requires voters != [] && Distinct(voters)
    ensures voters == init + [v] && Distinct(init) && Members(init) <= Members(voters) && v in Members(voters)
  {
    Unsnoc(voters);
    init, v := voters[..|voters| - 1], voters[|voters| - 1];
    MembersSnoc(init, v);
  }

  lemma OneVoter(standing: set<string>, active: set<string>) returns (v: string)
    requires |active| > 1 && 3 * |standing * active| <= 2 * |active|
    ensures v in active && 3 * |(standing + {v}) * active| <= 2 * |active|
  {
    if standing * active != {} {
      v :| v in standing * active;
      assert (standing + {v}) * active == standing * active;
    } else {
      v :| v in active;
      assert (standing + {v}) * active == {v};
    }
  }

  /** The documented quorum, exactly. For every record of votes and at every moment, whatever
      happened to the peers before: the next success carries more than two thirds of the peers
      that may vote, however the vote goes on, if and only if the moment is sound. */
  lemma QuorumHoldsExactly(timeout: real, votes: Votes, m: Moment)
    ensures NextCarriesTwoThirds(timeout, votes, m) <==>
      SoundMoment(timeout, VotersOf(votes, m.chunk, m.state), m)
  {
    if SoundMoment(timeout, VotersOf(votes, m.chunk, m.state), m) {
      forall voters, v | Succeeds(timeout, votes, voters, v, m)
        ensures TwoThirds(m.peers, Backers(timeout, votes, voters, v, m))
      {
        SoundMomentSuffices(timeout, votes, voters, v, m);
      }
    } else {
      var voters, v := TooFewDecide(timeout, votes, m);
    }
  }

  /** Voting in turn continues the poll that led to the record. */
  lemma {:induction false} AfterContinues(timeout: real, ballots: seq<Ballot>, voters: seq<string>, m: Moment)
    ensures Count(timeout, ballots + seq(|voters|, k requires 0 <= k < |voters| => VoteOf(voters[k], m))).votes
         == After(timeout, Count(timeout, ballots).votes, voters, m)
  {
    var cast := seq(|voters|, k requires 0 <= k < |voters| => VoteOf(voters[k], m));
    if voters == [] {
      assert ballots + cast == ballots;
    } else {
      var init, v := voters[..|voters| - 1], voters[|voters| - 1];
      AfterContinues(timeout, ballots, init, m);
      AppendUnsnoc(ballots, cast);
      assert cast[..|voters| - 1] == seq(|init|, k requires 0 <= k < |init| => VoteOf(init[k], m));
      CountSnoc(timeout, ballots + cast[..|voters| - 1], VoteOf(v, m));
    }
  }

  // ------------------------------------------------------------------ overlap

  /** Two successes, at whatever times, with the same peers to vote: if each has a full threshold
      and supporters that may all vote, they share more than a third of these peers. */
  lemma FullDecisionsOverlap(timeout: real, ballots: seq<Ballot>, i: nat, j: nat, active: set<string>)
    requires i < |ballots| && j < |ballots|
    requires Count(timeout, ballots).decisions[i] && Count(timeout, ballots).decisions[j]
    requires Active(ballots[i].peers) == active && Active(ballots[j].peers) == active
    requires FullThreshold(ballots[i].peers, ballots[i].now, timeout)
    requires FullThreshold(ballots[j].peers, ballots[j].now, timeout)
    requires Supporters(timeout, ballots, i) <= active && Supporters(timeout, ballots, j) <= active
    ensures 3 * |Supporters(timeout, ballots, i) * Supporters(timeout, ballots, j)| > |active|
  {
    var a, b := Supporters(timeout, ballots, i), Supporters(timeout, ballots, j);
    FullThresholdSuffices(timeout, ballots, i);
    FullThresholdSuffices(timeout, ballots, j);
    assert a * active == a && b * active == b;
    assert |a + b| == |a| + |b| - |a * b|;
    SubsetSize(a + b, active);
  }

  // ---------------------------------------------- a fixed set of fresh peers

  /** Every ballot sees the same peers, all active and fresh at that time; their heartbeats keep
      being refreshed in between. */
  ghost predicate AllFresh(names: set<string>, timeout: real, ballots: seq<Ballot>) {
    forall i :: 0 <= i < |ballots| ==>
      ballots[i].peers.Keys == names && FreshPeers(ballots[i].peers, ballots[i].now, timeout) == names
  }

  lemma AllFreshCounts(names: set<string>, timeout: real, ballots: seq<Ballot>, i: nat)
    requires i < |ballots| && AllFresh(names, timeout, ballots)
    ensures Counted(ballots[i], timeout) == |names| && Active(ballots[i].peers) == names
    ensures FullThreshold(ballots[i].peers, ballots[i].now, timeout)
  {
    FreshAreActive(ballots[i].peers, ballots[i].now, timeout);
    assert Active(ballots[i].peers) <= ballots[i].peers.Keys;
  }

  lemma AllFreshSupporters(names: set<string>, timeout: real, ballots: seq<Ballot>, i: nat)
    requires i < |ballots| && AllFresh(names, timeout, ballots) && ballots[i].voter in names
    ensures Supporters(timeout, ballots, i) <= names
  {
    forall p | p in Supporters(timeout, ballots, i)
      ensures p in names
    {
      if p != ballots[i].voter {
        var init := ballots[..i];
        var j :| 0 <= j < i && MayVote(init[j]) && init[j].voter == p;
        AllFreshCounts(names, timeout, ballots, j);
      }
    }
  }

  /** With a fixed set of peers that stay fresh, a vote succeeds exactly when it comes from one of
      them and more than two thirds of the distinct peers voted for that chunk and state
      since the chunk's last decision. */
  lemma DecidesByTwoThirds(names: set<string>, timeout: real, ballots: seq<Ballot>, i: nat)
    requires i < |ballots| && AllFresh(names, timeout, ballots)
    ensures Count(timeout, ballots).decisions[i] <==>
      ballots[i].voter in names && 3 * |Supporters(timeout, ballots, i)| > 2 * |names|
  {
    AllFreshCounts(names, timeout, ballots, i);
    DecidesByFreshCount(timeout, ballots, i);
  }

  /** Any two of these successes share more than a third of the peers. */
  lemma DecisionsOverlap(names: set<string>, timeout: real, ballots: seq<Ballot>, i: nat, j: nat)
    requires i < |ballots| && j < |ballots| && AllFresh(names, timeout, ballots)
    requires Count(timeout, ballots).decisions[i] && Count(timeout, ballots).decisions[j]
    ensures 3 * |Supporters(timeout, ballots, i) * Supporters(timeout, ballots, j)| > |names|
  {
    AllFreshCounts(names, timeout, ballots, i);
    AllFreshCounts(names, timeout, ballots, j);
    DecidesByTwoThirds(names, timeout, ballots, i);
    DecidesByTwoThirds(names, timeout, ballots, j);
    AllFreshSupporters(names, timeout, ballots, i);
    AllFreshSupporters(names, timeout, ballots, j);
    FullDecisionsOverlap(timeout, ballots, i, j, names);
  }

  // ----------------------------------------------------------- two failing runs

  /** A lone peer whose heartbeat is long overdue decides by itself, since it may still vote but is
      not among the peers that are counted. */
  lemma StaleVoterDecides(chunk: string, state: string)
    ensures var peers := map["p" := Heartbeat(0.0, 1.0, true), "q" := Heartbeat(0.0, 1.0, true)];
      Count(5.0, [Ballot("p", chunk, state, 100.0, peers)]).decisions == [true]
  {
    var peers := map["p" := Heartbeat(0.0, 1.0, true), "q" := Heartbeat(0.0, 1.0, true)];
    var b := Ballot("p", chunk, state, 100.0, peers);
    assert FreshPeers(peers, 100.0, 5.0) == {};
    assert "p" in Active(peers) && Cast(5.0, map[], b).1;
    assert [b][..0] == [];
  }

  /** Three fresh peers; later "p" has timed out and is marked dead. */
  const EARLIER: Peers :=
    map["p" := Heartbeat(0.0, 1.0, true), "q" := Heartbeat(0.0, 1.0, true), "r" := Heartbeat(0.0, 1.0, true)]

  const LATER: Peers :=
    map["p" := Heartbeat(0.0, 1.0, false), "q" := Heartbeat(9.0, 1.0, true), "r" := Heartbeat(9.0, 1.0, true)]

  lemma TablesCount()
    ensures FreshPeers(EARLIER, 1.0, 5.0) == Active(EARLIER) == {"p", "q", "r"}
    ensures FreshPeers(LATER, 10.0, 5.0) == Active(LATER) == {"q", "r"}
  {
  }

  /** The vote of a peer that is marked dead goes on counting: "p" votes at time 1 and is dead at
      time 10, when the vote of "q" succeeds. Fresh and active peers are the same at both
      times, and yet only one of the two peers that may vote supports the decision. */
  lemma DeadVoterCounts(chunk: string, state: string)
    ensures var ballots := [Ballot("p", chunk, state, 1.0, EARLIER), Ballot("q", chunk, state, 10.0, LATER)];
      && Count(5.0, ballots).decisions == [false, true]
      && FullThreshold(EARLIER, 1.0, 5.0) && FullThreshold(LATER, 10.0, 5.0)
      && !TwoThirds(LATER, Supporters(5.0, ballots, 1))
  {
    var first, second := Ballot("p", chunk, state, 1.0, EARLIER), Ballot("q", chunk, state, 10.0, LATER);
    var ballots := [first, second];
    TablesCount();
    FirstIsKept(5.0, first);
    assert ballots == [first] + [second];
    CountSnoc(5.0, [first], second);
    var votes := Count(5.0, [first]).votes;
    assert VotersOf(votes, chunk, state) + {"q"} == {"p", "q"};
    StandingAreVoters(5.0, [first], chunk, state);
    assert ballots[..1] == [first];
    assert Supporters(5.0, ballots, 1) * Active(LATER) == {"q"};
  }

  lemma FirstIsKept(timeout: real, first: Ballot)
    requires MayVote(first) && !Quorum(1, Counted(first, timeout))
    ensures Count(timeout, [first]).decisions == [false]
    ensures VotersOf(Count(timeout, [first]).votes, first.chunk, first.state) == {first.voter}
  {
    CountSnoc(timeout, [], first);
    assert [] + [first] == [first];
    FirstCast(timeout, first);
  }

  lemma FirstCast(timeout: real, first: Ballot)
    requires MayVote(first) && !Quorum(1, Counted(first, timeout))
    ensures var (votes, decided) := Cast(timeout, map[], first);
      !decided && VotersOf(votes, first.chunk, first.state) == {first.voter}
  {
    var after := Recorded(map[], first);
    assert VotersOf(after, first.chunk, first.state) == {} + {first.voter} == {first.voter};
  }
}
