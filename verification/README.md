# ComputeMesh in Dafny

A model of the parts of ComputeMesh that carry its guarantees, with proofs that hold for every
input, every run and every interleaving. `dafny verify dfyconfig.toml` checks all of it.

| file | what it models |
|---|---|
| `Basics.dfy` | results, options, and a stable sort like Python's `sorted` |
| `NodeSession.dfy`, `SessionWire.dfy` | the readiness ladder of a node session and the envelope handler in front of it |
| `SessionAnswers.dfy` | the answer to every message, told in fields |
| `SessionRuns.dfy` | whole runs of a handler: retries, refusals, terminations, the ladder, the replay table |
| `ProviderHandshake.dfy` | the provider as the other party, and what both sides agree on |
| `Apportionment.dfy`, `ShardPlanner.dfy` | largest-remainder layer counts and the sharding plan built on them |
| `PeerVotes.dfy`, `ShardFailover.dfy` | two-thirds voting, primaries and replicas of cached shards |
| `ShardInterleaving.dfy` | shard allocation and failover by several threads |
| `Idempotency.dfy` | the idempotency cache under concurrent callers |
| `Merkle.dfy`, `OffHeapCache.dfy` | the Merkle root of chunk hashes and the off-heap byte quota |
| `CapacityGuard.dfy`, `CapacityAnswers.dfy` | TTL leases on slots and memory with lazy pruning, and its answers told in fields |
| `FailoverMesh.dfy` | connection failover and job execution over alternative routes |
| `ProvenanceScan.dfy`, `ProvenanceAnswers.dfy` | the windowed search for the provenance line of a release image, and its answers told in bytes |
| `NodeIdentity.dfy` | the byte string a node signs |
| `InferenceStream.dfy`, `InferenceAnswers.dfy` | assembly of a streamed inference response, and its answers told in fields |
| `EvidenceTransfer.dfy`, `EvidenceExport.dfy`, `EvidenceImport.dfy` | rules, export and import of lab evidence |
| `EvidenceAnswers.dfy` | what export and import accept and produce, told in fields |
| `EvidenceLaws.dfy`, `EvidenceWitness.dfy` | the laws of the transfer, and inputs that meet their hypotheses |

How it is built:

- Objects that the program updates in place are classes. Each method is proved against a function
  of the old state, and the protocol laws are lemmas about runs of those functions. What such a
  function answers is told a second time in plain fields and numbers, in both directions, without
  the functions that compute it (`SessionAnswers`, `CapacityAnswers`, `EvidenceAnswers`,
  `InferenceAnswers`, `ProvenanceAnswers`; elsewhere in the contracts themselves).
- What a lock makes atomic is one step; interleavings are arbitrary sequences of enabled steps.
- Clocks, random tokens, key material, verifier and policy replies, sockets, shared memory and
  handshakes are inputs that may take any value at any time, failures included.
- Quotas and byte shares are exact integer ratios, times are integers, latencies are reals.

Some plain claims about the code are false. Each has a failing input and the exact condition
under which the code meets it:

- One execution and one value per key: `Idempotency.WaiterMayReceivePlaceholder` is a run in which a
  waiter of an execution that raises is handed the text `IN_PROGRESS` of a later claim.
  `Idempotency.ExactlyOnce` is the exact condition on a run, `Idempotency.WokenWaiterGets` the one
  for a single waiter.
- Every waiter is served: `Idempotency.StrandedReachable` is a run in which one is not, since only
  ordinary exceptions settle a claim; `Idempotency.StrandedExactly` says who is stranded.
- Two thirds of the peers decide (documented by `submit_vote`): in `PeerVotes.StaleVoterDecides` a
  peer with an overdue heartbeat may vote while it is not counted, in `PeerVotes.DeadVoterCounts`
  the vote of a peer that is marked dead goes on counting. `PeerVotes.QuorumHoldsExactly` says
  at which moments the documented quorum holds for the next success.
- Used quota is stored plus in-flight bytes: `OffHeapCache.LeakIsReachable` loses bytes by two
  concurrent allocations of one id. `OffHeapCache.AccountIsExact` says when none are lost.
- A primary has its bytes: `ShardInterleaving.PrimaryOutlivesBytes` is a run after which it does
  not. `ShardInterleaving.BackedExactly` is the exact condition on a run,
  `ShardInterleaving.SafeExactly` the one on a state.
- The scan finds the provenance line: `ProvenanceScan.LineOfOneReadIsMissed` is a file it misses,
  `ProvenanceScan.ReadsExactLine` the exact condition for every file and reads of any fixed size.
- What is exported can be imported: `EvidenceWitness.LongPathIsNeverImported` is an export that no
  root accepts, since import checks the path together with its nine-character prefix.
  `EvidenceLaws.RoundTrip` is the exact condition.

## Model

| member | source | states |
|---|---|---|
| `NodeSessions.NodeSession.Create` | protocol/node_session.py:171-178 | Refuses exactly an ill-formed session id or challenge, takes the random token for a missing challenge, and otherwise makes a fresh session. |
| `NodeSessions.NodeSession.constructor` | protocol/node_session.py:153-169 | A new session is CONNECTED at revision 0 with every later field unset. |
| `NodeSessions.NodeSession.ReceiveHello` | protocol/node_session.py:209-218 | Only CONNECTED and the supported major version advance; the minor version is the smaller of the two; any error leaves every field alone. |
| `NodeSessions.NodeSession.Authenticate` | protocol/node_session.py:220-255 | Method advertised, verifier grants, credential unexpired, node id equal to the hello's and, if an actor is given, to the actor, in that order; otherwise nothing changes. |
| `NodeSessions.NodeSession.EnsureAuthValid` | protocol/node_session.py:257-264 | Answers exactly for which states and times a credential may be used, and reads only. |
| `NodeSessions.NodeSession.NegotiateCapabilities` | protocol/node_session.py:266-289 | The negotiated set is the intersection of both offers, accepted only if it covers the required set. |
| `NodeSessions.NodeSession.SyncProfile` | protocol/node_session.py:291-297 | Stores a non-negative profile revision in state CAPABILITIES_NEGOTIATED only. |
| `NodeSessions.NodeSession.AcceptBenchmarkStatus` | protocol/node_session.py:299-314 | READY is reached only for an accepted status of the synced profile revision with a valid credential. |
| `NodeSessions.NodeSession.Drain` | protocol/node_session.py:316-322 | READY to DRAINING with a bounded reason. |
| `NodeSessions.NodeSession.Terminate` | protocol/node_session.py:324-330 | Closing from any state once; a closed session is returned unchanged. |
| `SessionWire.NodeSessionWireHandler.Create` | protocol/session_wire.py:99-122 | Refuses exactly ill-formed capability sets; otherwise a handler starts with an empty replay table around its session. |
| `SessionWire.NodeSessionWireHandler.Handle` | protocol/session_wire.py:177-315 | Session, replay table and answer after any envelope: contract, replay, revision, then the message, with no effect on any refusal. |
| `SessionWire.NodeSessionWireHandler.CheckBinding` | protocol/session_wire.py:158-175 | Version before actor, against the live session. |
| `SessionAnswers.HelloExactly` | protocol/session_wire.py:197-215 | A first hello: the condition on session and envelope fields for each refusal, and the session it leaves. |
| `SessionAnswers.AuthenticateExactly` | protocol/session_wire.py:217-227 | A proof: the condition on session, envelope and verifier reply for each refusal, and acceptance if and only if none applies. |
| `SessionAnswers.NegotiationExactly` | protocol/session_wire.py:229-245 | A capability message is accepted if and only if it is bound, in time, within both offers and covers the required set; it leaves exactly the accepted set. |
| `SessionAnswers.ProfileExactly` | protocol/session_wire.py:247-254 | A profile is accepted if and only if it is bound, of the node itself, in time and in CAPABILITIES_NEGOTIATED; it leaves its revision. |
| `SessionAnswers.CatalogueExactly` | protocol/session_wire.py:256-274 | A catalogue is accepted if and only if it is bound, in time, of the synced profile and in PROFILE_SYNCED or READY; it leaves the session as it was. |
| `SessionAnswers.BenchmarkExactly` | protocol/session_wire.py:276-304 | READY if and only if the reply is ready; unchanged if and only if it is pending; a rejected report or a raising policy is always refused. |
| `SessionAnswers.DrainExactly` | protocol/session_wire.py:306-309 | A drain is accepted if and only if it is bound, in time, in READY and its reason has 1 to 512 characters; it leaves the reason. |
| `SessionAnswers.FingerprintExactly` | protocol/session_wire.py:124-140 | Which fields make two envelopes the same request, one by one. |
| `SessionAnswers.AnswerExactly` | protocol/session_wire.py:177-315 | The answer to any envelope in the fields of envelope, session and replay table: contract, replay, conflict, stale revision, then the law of its type; what is accepted is on record and nothing else changes. |
| `SessionAnswers.SpecDetermines` | protocol/session_wire.py:177-315 | These conditions leave one answer to every message: no two of them hold at once. |
| `SessionAnswers.TerminationExactly` | protocol/node_session.py:324-330 | What closing does to every field. |
| `SessionAnswers.DirectCallsExactly` | protocol/node_session.py:220-314 | What the handler never asks of a session: authentication without an actor, and a status that is not accepted. |
| `SessionRuns.RefusalIsAtomic` | protocol/session_wire.py:177-315 | Whatever is refused leaves session and replay table exactly as they were. |
| `SessionRuns.RefusalsLeaveNoTrace` | protocol/session_wire.py:142-156 | A whole run with all refused events removed ends in the same state with the same positive answers. |
| `SessionRuns.ReplaysOnlyGrow` | protocol/session_wire.py:142-150 | A replay record is never dropped or rewritten by any event. |
| `SessionRuns.AcceptedIsRecorded` | protocol/session_wire.py:142-156 | Every positive answer of a run is found in the final replay table under its request id, with its fingerprint. |
| `SessionRuns.ConflictingReuseRefused` | protocol/session_wire.py:142-150 | At any later point of any run, a reused request id with other semantics is refused without effect. |
| `SessionRuns.RetriesAreTransparent` | protocol/session_wire.py:142-156 | Inserting retries of accepted messages anywhere, among refusals and terminations, changes neither the final session and table nor any other answer. |
| `SessionRuns.RetryAnswer` | protocol/session_wire.py:142-150 | A retry gets the very snapshot of the message it repeats and leaves the state alone. |
| `SessionRuns.RetryRepeatsItsAnswer` | protocol/session_wire.py:142-150 | The same for the retry at any position of a run that contains other retries. |
| `SessionRuns.FreshSatisfiesInvariant` | protocol/node_session.py:153-178 | The invariant holds of a new session. |
| `SessionRuns.StepKeepsInvariant` | protocol/node_session.py:198-333 | Every event keeps: revision equals ladder rank while unclosed; which fields are set in which state; required within negotiated within both offers. |
| `SessionRuns.RunsClimbTheLadder` | protocol/node_session.py:198-333 | Between any two points of any run ranks and revisions never fall, CLOSED is final, and hello, identity, credential, capabilities and profile never change once set. |
| `SessionRuns.AcceptedMessagesAreBound` | protocol/session_wire.py:158-175 | Every newly accepted message from NodeAuthenticate on carries the session's node as actor, the negotiated version, an unexpired credential and the current revision. |
| `SessionRuns.NewRecordIsSound` | protocol/session_wire.py:197-315 | Which state, profile revision, drain reason and capabilities each accepted message type leads to, in terms of the message itself. |
| `SessionRuns.RunsKeepTableSound` | protocol/session_wire.py:87-90 | Every record of the replay table, at the end of any run, describes an acceptance of that kind. |
| `ProviderHandshake.RunsKeepTableCurrent` | protocol/session_wire.py:142-156 | Along every run, what a record says about identity, version and capabilities is still true of the live session. |
| `ProviderHandshake.TwoPartyAgreement` | runtime/provider_control_client.py:45-115 | A provider holding acknowledgements 1, 2 and 3, whatever else reached the handler, agrees with it on state, revision, version, node id and capabilities. |
| `ProviderHandshake.MessageHandledOnce` | protocol/session_wire.py:177-315 | One message moves the revision by at most one, never closes a session and keeps all earlier records. |
| `ProviderHandshake.Exchange` | runtime/provider_control_client.py:78-101 | The handler moves as for any message; the provider goes on exactly when the acknowledgement arrived with the expected revision. |
| `ProviderHandshake.PerformProviderHandshake` | runtime/provider_control_client.py:45-115 | Success if and only if hello, proof and offer are each accepted and acknowledged, then both parties agree in every field; each failure if and only if its step failed, with what the handler holds then. |
| `ProviderHandshake.HelloStep` | runtime/provider_control_client.py:61-82 | When the handler takes the provider's hello, and the session it then holds. |
| `ProviderHandshake.ProofStep` | runtime/provider_control_client.py:84-95 | When it takes the proof after the hello, and the session it then holds. |
| `ProviderHandshake.CapabilitiesStep` | runtime/provider_control_client.py:97-100 | When it takes the offer after the proof, and the session it then holds. |
| `ProviderHandshake.SnapshotExactly` | runtime/provider_control_client.py:101-115 | What the provider keeps of a finished handshake, field by field. |
| `ProviderHandshake.HandlingKeepsConsistent` | protocol/session_wire.py:177-315 | Any message keeps the handler's records consistent with its session. |
| `Apportionment.RemaindersAddUp` | runtime/dynamic_sharding.py:128-133 | The remainders sum exactly to the leftover layers (times the total weight). |
| `Apportionment.LeftoverBounds` | runtime/dynamic_sharding.py:130-137 | The leftover count lies between 0 and the number of nodes less one, so the remainder index stays in bounds, and only nodes with a positive remainder are raised. |
| `Apportionment.ExchangeBound` | runtime/dynamic_sharding.py:124-137 | For one node: moving from its share to any other costs at least the slope of the remainder threshold. |
| `Apportionment.ThresholdSplitOptimal` | runtime/dynamic_sharding.py:124-137 | Any split along a remainder threshold has the least total absolute deviation of all integer splits of the same total. |
| `Apportionment.RaisedIsThreshold` | runtime/dynamic_sharding.py:132-137 | The raised nodes are a top segment of the remainder order. |
| `Apportionment.ApportionmentSound` | runtime/dynamic_sharding.py:124-137 | Floors plus one for the largest remainders, of equal ones the first: optimal, and floor or ceiling of the exact quota for each node. |
| `Apportionment.Apportion` | runtime/dynamic_sharding.py:124-137 | The loop returns that split for every layer count, sums to it, and gives nothing for a negative count. |
| `Apportionment.BestSplitUnique` | runtime/dynamic_sharding.py:124-137 | The promise leaves nothing open: quota, sum, largest remainders first and ties in node order determine the split. |
| `Apportionment.NegativeLayers` | runtime/dynamic_sharding.py:128-137 | A negative layer count leaves no layer to distribute. |
| `ShardPlanner.ChainPartitions` | runtime/dynamic_sharding.py:139-176 | Every layer 0..L-1 is held by exactly one assignment and no other layer by any. |
| `ShardPlanner.OrderedRanks` | runtime/dynamic_sharding.py:90-121 | The nodes used are exactly the healthy, not timed-out ones with headroom and bandwidth: local first, then more compute, then more memory, then as given; their weights are their free bytes. |
| `ShardPlanner.PositiveSpec` | runtime/dynamic_sharding.py:144-147 | The nodes that get a range are those with a positive count, each once and in order. |
| `ShardPlanner.ChainBytes` | runtime/dynamic_sharding.py:141-151 | The bytes of consecutive ranges are at most their share of the model, and less than one byte per range is missing. |
| `ShardPlanner.ShareBound` | runtime/dynamic_sharding.py:141-151 | No node exceeds its free bytes by as much as one layer's share of the model. |
| `ShardPlanner.BuildAssignments` | runtime/dynamic_sharding.py:139-176 | The loop over nodes gives each node with a positive count, in order, consecutive layers and its whole-byte share of the model. |
| `ShardPlanner.CalculateShardingPlan` | runtime/dynamic_sharding.py:69-192 | When each refusal is given; otherwise the one best split over the ranked nodes, laid out as a partition of the layers, with the model's bytes but for a fraction of a byte per node, and no node over its free memory by a layer's share. |
| `Idempotency.IdempotencyEnforcer.PruneExpired` | runtime/architecture_hardening.py:146-151 | A key stays if and only if it is in progress or its result is at most ttl old, with its entry unchanged. |
| `Idempotency.IdempotencyEnforcer.Admit` | runtime/architecture_hardening.py:112-124 | Cached exactly for a finished result at most ttl old, waiting exactly for one in progress with its event, owner exactly if neither is there; and the whole new cache. |
| `Idempotency.IdempotencyEnforcer.Settle` | runtime/architecture_hardening.py:131-143 | The owner's last region: stores the result or drops the claim, and fires its event. |
| `Idempotency.PrunedExactly` | runtime/architecture_hardening.py:146-151 | Pruning in terms of stamps and the time to live. |
| `Idempotency.AdmittedExactly` | runtime/architecture_hardening.py:112-124 | Which admission is given, in terms of stamps, the time to live and the table of events. |
| `Idempotency.InterleavingsKeepInv` | runtime/architecture_hardening.py:102-144 | At every point of every interleaving at most one caller owns a key, its event and placeholder stand until it settles, and every waiter's event has fired or has an owner. |
| `Idempotency.PlaceholderIffOwned` | runtime/architecture_hardening.py:112-143 | Placeholder, event and owner exist at exactly the same times, also with exceptions and expiry, as long as no execution returns the placeholder itself. |
| `Idempotency.PruningSparesRunning` | runtime/architecture_hardening.py:146-151 | Pruning at any time never drops a running key. |
| `Idempotency.WaitersAreServed` | runtime/architecture_hardening.py:123-127 | A waiter that is not stranded can wake now, or its key's running owner can settle, with a result or an exception, and then it can wake. |
| `Idempotency.StrandedExactly` | runtime/architecture_hardening.py:125-143 | A waiter can still be woken in some continuation if and only if its event has fired or its claim was not abandoned. |
| `Idempotency.StrandedReachable` | runtime/architecture_hardening.py:129-137 | An execution that leaves other than by an ordinary exception settles nothing and strands its waiter. |
| `Idempotency.WokenWaiterGets` | runtime/architecture_hardening.py:125-129 | A woken waiter is handed the placeholder if and only if somebody owns its key at that moment, and its lookup fails if and only if the key is gone. |
| `Idempotency.KeyLifeAlongRun` | runtime/architecture_hardening.py:102-144 | A key's life along a smooth run: untouched, running once, finished with one value, possibly pruned. |
| `Idempotency.ExactlyOnce` | runtime/architecture_hardening.py:102-144 | At most one execution, no failed caller, no placeholder and one value for all, if and only if no execution for the key raises, is abandoned or returns the placeholder, nobody enters for it more than ttl after its result was stored, and nobody wakes for it while it is gone. |
| `Idempotency.BenignRunsOnce` | runtime/architecture_hardening.py:102-151 | If executions for a key neither raise nor are abandoned nor return the placeholder and everybody enters within ttl of its result, that promise is kept. |
| `Idempotency.OwnerAndWaiterReachable` | runtime/architecture_hardening.py:112-124 | A run from the empty cache reaches one owner, one waiter and a third caller of a key. |
| `Idempotency.WaiterMayReceivePlaceholder` | runtime/architecture_hardening.py:123-137 | A run from the empty cache in which the owner raises and the waiter is handed a later claim's placeholder. |
| `Merkle.NextLevel` | runtime/distributed_model_cache.py:49-59 | Pairs neighbours and the last of an odd level with itself. |
| `Merkle.ComputeMerkleRoot` | runtime/distributed_model_cache.py:44-60 | The level-by-level loop ends and computes the root of the recursively defined tree. |
| `Merkle.RootBindsPadding` | runtime/distributed_model_cache.py:44-60 | Lists of one height and fixed-width hashes, whatever their lengths, have one root if and only if they agree once padded to a full tree, or the proof names two colliding hash inputs. |
| `Merkle.PaddedHolds` | runtime/distributed_model_cache.py:52-57 | The padded list starts with the list itself. |
| `Merkle.RootBinds` | runtime/distributed_model_cache.py:44-60 | Lists of one length and fixed-width hashes with one root are the same list, or the proof names two colliding hash inputs. |
| `Merkle.RepeatedLastLeafKeepsRoot` | runtime/distributed_model_cache.py:52-55 | Equal length is needed: repeating the last of an odd number of leaves keeps the root for every hash. |
| `OffHeapCache.OffHeapCacheManager.Reserve` | runtime/distributed_model_cache.py:293-300 | Refuses a held id or an overdrawn quota; otherwise takes exactly the bytes; it is the reserve step of the interleavings. |
| `OffHeapCache.OffHeapCacheManager.Publish` | runtime/distributed_model_cache.py:302-308 | Stores the chunk and is the publish step of the interleavings. |
| `OffHeapCache.OffHeapCacheManager.RollBack` | runtime/distributed_model_cache.py:309-313 | Returns the bytes and is the roll-back step of the interleavings. |
| `OffHeapCache.OffHeapCacheManager.AllocateChunk` | runtime/distributed_model_cache.py:293-313 | Succeeds if and only if the id is free, the bytes fit the quota, the data are not empty and the shared memory works; then exactly this chunk is added, otherwise the quota is what it was. |
| `OffHeapCache.OffHeapCacheManager.FreeChunk` | runtime/distributed_model_cache.py:335-354 | Returns exactly the chunk's bytes to the quota and drops only that chunk; it is the free step of the interleavings. |
| `OffHeapCache.PutExactly` | runtime/distributed_model_cache.py:302-308 | An assignment replaces what the key held and nothing else, with the very bytes. |
| `OffHeapCache.DropExactly` | runtime/distributed_model_cache.py:335-354 | A deletion removes what the key held and nothing else. |
| `OffHeapCache.MoveKeepsAccounts` | runtime/distributed_model_cache.py:293-354 | Every step keeps: used is stored plus in flight plus overwritten, within the quota. |
| `OffHeapCache.MoveKeepsDisjoint` | runtime/distributed_model_cache.py:293-354 | While no two allocations in flight share an id, nothing in flight is already stored and nothing is overwritten. |
| `OffHeapCache.AccountIsExact` | runtime/distributed_model_cache.py:293-354 | In every interleaving, used is exactly stored plus in-flight bytes if and only if no publish so far found its id stored already. |
| `OffHeapCache.QuotaAlongRun` | runtime/distributed_model_cache.py:293-354 | In every interleaving the quota holds; if in-flight ids stay distinct, used is exactly stored plus in-flight bytes. |
| `OffHeapCache.SharedIdLeaks` | runtime/distributed_model_cache.py:293-308 | Whenever two allocations in flight share an id and both publish, at least one byte stays on the books that is stored nowhere. |
| `OffHeapCache.SharedIdReachable` | runtime/distributed_model_cache.py:293-300 | Two callers that reserve one id before either publishes reach such a state from the empty manager, for any data that fit twice. |
| `OffHeapCache.LeakIsReachable` | runtime/distributed_model_cache.py:293-308 | The run on which both publish, and as many bytes are lost as are stored. |
| `PeerVotes.QuorumIsTwoThirds` | runtime/dynamic_sharding.py:250-253 | The integer threshold is a strict two-thirds majority. |
| `PeerVotes.VotersStand` | runtime/dynamic_sharding.py:236-241 | In every poll the recorded voters are exactly those who voted since the chunk's last decision, as the peers were then; repeats count once. |
| `PeerVotes.DecidesByFreshCount` | runtime/dynamic_sharding.py:230-258 | In every poll, whatever heartbeats arrive and whoever is marked dead between its ballots, a vote succeeds if and only if its voter may vote and its supporters since the last decision are more than two thirds of the peers fresh at that moment. |
| `PeerVotes.FullThresholdSuffices` | runtime/dynamic_sharding.py:243-253 | A success whose supporters may all still vote, at a threshold that stale peers do not lower, carries more than two thirds of the peers that may vote. |
| `PeerVotes.SoundMomentSuffices` | runtime/dynamic_sharding.py:230-258 | At a sound moment the next success carries more than two thirds of the peers that may vote, however the vote goes on. |
| `PeerVotes.TooFewDecide` | runtime/dynamic_sharding.py:233-257 | At any other moment some voters in turn succeed with at most two thirds. |
| `PeerVotes.QuorumHoldsExactly` | runtime/dynamic_sharding.py:230-258 | For every record of votes and every moment: the next success always carries two thirds of the peers that may vote, if and only if all standing voters may still vote and 2*fresh/3 and 2*active/3 are the same integer, or the standing voters are two thirds already, or at most one peer may vote. |
| `PeerVotes.AfterContinues` | runtime/dynamic_sharding.py:236-241 | Voting on at one moment continues the poll that led to the record. |
| `PeerVotes.FullDecisionsOverlap` | runtime/dynamic_sharding.py:249-257 | Two such successes with the same peers to vote, at whatever times, share more than a third of these peers. |
| `PeerVotes.DecidesByTwoThirds` | runtime/dynamic_sharding.py:230-258 | With a fixed set of peers whose heartbeats keep being refreshed, a vote succeeds if and only if it comes from one of them and more than two thirds of the distinct peers support it. |
| `PeerVotes.DecisionsOverlap` | runtime/dynamic_sharding.py:249-257 | Any two deciding voter sets of such a poll share more than a third of the peers. |
| `PeerVotes.StaleVoterDecides` | runtime/dynamic_sharding.py:233-251 | A stale peer may vote but is not counted, so it can decide alone. |
| `PeerVotes.DeadVoterCounts` | runtime/dynamic_sharding.py:285-289 | The vote of a peer that is marked dead goes on counting: a run in which one of two peers that may vote decides. |
| `ShardFailover.DecentralizedShardFailover.constructor` | runtime/dynamic_sharding.py:198-206 | Starts with no peers, primaries, reports or votes on a cache that may hold chunks already. |
| `ShardFailover.DecentralizedShardFailover.RegisterHeartbeat` | runtime/dynamic_sharding.py:208-217 | Refreshes one peer and nothing else. |
| `ShardFailover.DecentralizedShardFailover.AllocateShardReplica` | runtime/dynamic_sharding.py:219-228 | Succeeds if and only if the id is free, the bytes fit the quota, the data are not empty and the shared memory works; then exactly this chunk, its primary and its replicas are recorded. |
| `ShardFailover.DecentralizedShardFailover.SubmitVote` | runtime/dynamic_sharding.py:230-258 | Each call is the next ballot, with the peers as they are, of the one poll that all votes to the object make up, so the laws about polls hold of every run of the class. |
| `ShardFailover.DecentralizedShardFailover.ReportCorruptedReplica` | runtime/dynamic_sharding.py:260-267 | Adds exactly one report. |
| `ShardFailover.DecentralizedShardFailover.CheckFailover` | runtime/dynamic_sharding.py:269-316 | Keeps a fit primary, else promotes the first of the fit replicas with the lowest latency, else frees the chunk and its quota; exactly a primary that is neither fit nor corrupted is marked dead. |
| `ShardInterleaving.BackedExactly` | runtime/dynamic_sharding.py:219-228 | Over every interleaving of the locked regions: all primaries are backed by held bytes at every point, if and only if no free found its chunk with a primary and no primary was recorded after its bytes were gone. |
| `ShardInterleaving.SafeExactly` | runtime/dynamic_sharding.py:219-228 | The exact law on the present state: every continuation without new reservations keeps primaries backed, if and only if each id has at most one claim (allocation in flight, unrecorded or primary) and nobody about to free what is claimed. |
| `ShardInterleaving.ReservingExactly` | runtime/dynamic_sharding.py:221-222 | The only step that ends such a state is a reservation, exactly one granted while somebody claims its id or is about to free it. |
| `ShardInterleaving.DistinctFlightsAreBacked` | runtime/dynamic_sharding.py:219-228 | If in-flight ids stay distinct, held bytes have a primary or exactly one thread about to record it or to free them, and every primary is backed. |
| `ShardInterleaving.PrimaryOutlivesBytes` | runtime/dynamic_sharding.py:300-316 | A run with two in-flight allocations of one id after which a primary has no bytes. |
| `ShardFailover.FirstIsBest` | runtime/dynamic_sharding.py:306-309 | The head of the latency order is the first of the fit replicas with the lowest latency; none is there only if none is fit. |
| `CapacityGuard.LiveLive` | runtime/capacity_guard.py:84-92 | Pruning twice with a clock that does not go back is pruning once. |
| `CapacityGuard.StepInvisible` | runtime/capacity_guard.py:84-187 | One operation answers alike on the pruned table and on a log that never deletes, and keeps both equal where it counts. |
| `CapacityGuard.PruningIsInvisible` | runtime/capacity_guard.py:84-280 | Over every run with a non-decreasing clock, acquire, renew, require_active_lease and get_status answer as if expired leases were only ignored. |
| `CapacityGuard.StepWithinLimits` | runtime/capacity_guard.py:125-236 | Every operation keeps the job, total-memory and per-device limits and known devices. |
| `CapacityGuard.RunsStayWithinLimits` | runtime/capacity_guard.py:125-236 | No run at any clock readings stores more than the limits allow. |
| `CapacityGuard.RenewOnlyExtends` | runtime/capacity_guard.py:211-236 | Renewing lengthens the one live lease of the job and touches nothing else. |
| `CapacityGuard.ReleaseSparesOthers` | runtime/capacity_guard.py:189-196 | Releasing drops exactly the job's entry, and with a lease id only that lease's. |
| `CapacityGuard.LocalCapacityGuard.Create` | runtime/capacity_guard.py:49-82 | Refuses exactly ill-formed arguments; otherwise the guard has the stripped device ids, the last limit of a repeated one, and no reservations. |
| `CapacityGuard.NormalizedDevices` | runtime/capacity_guard.py:64-73 | The loop over device limits accepts exactly well-formed ones and collects them by stripped id. |
| `CapacityGuard.LocalCapacityGuard.PruneExpiredLocked` | runtime/capacity_guard.py:84-92 | Keeps exactly the unexpired entries in order and counts the others. |
| `CapacityGuard.LocalCapacityGuard.Acquire` | runtime/capacity_guard.py:100-187 | Table and answer of the specification that CapacityAnswers.AcquireExactly tells in fields. |
| `CapacityGuard.LocalCapacityGuard.Release` | runtime/capacity_guard.py:189-196 | Removes the matching entry and says whether there was one. |
| `CapacityGuard.LocalCapacityGuard.RequireActiveLease` | runtime/capacity_guard.py:198-209 | Finds a live lease by id or refuses. |
| `CapacityGuard.LocalCapacityGuard.Renew` | runtime/capacity_guard.py:211-236 | Replaces one entry by its extension. |
| `CapacityGuard.LocalCapacityGuard.GetStatus` | runtime/capacity_guard.py:245-280 | Totals and per-device use of the live entries, as CapacityAnswers.StatusExactly tells them. |
| `CapacityAnswers.AcquireExactly` | runtime/capacity_guard.py:100-187 | The held reservation exactly when a live entry of the job has the lease; a new one exactly when none has the job and slot, total and device memory suffice, with the requested job, lease, device, memory and expiry; otherwise the refusal. |
| `CapacityAnswers.ResolveExactly` | runtime/capacity_guard.py:128-138 | Which device is meant: the only profiled one for the default, otherwise a profiled one by name, and when neither is there. |
| `CapacityAnswers.RenewExactly` | runtime/capacity_guard.py:211-236 | Renewal succeeds exactly for a live entry of the job and a good extension, and what the table then holds. |
| `CapacityAnswers.LeaseExactly` | runtime/capacity_guard.py:198-209 | A lease is found exactly when a live entry has it. |
| `CapacityAnswers.StatusExactly` | runtime/capacity_guard.py:245-280 | Job count, memory and per-device figures as sums over the live entries. |
| `CapacityAnswers.PruneExactly` | runtime/capacity_guard.py:84-92 | An entry survives pruning exactly when its expiry is later than now. |
| `CapacityAnswers.StripExactly` | runtime/capacity_guard.py:114-114 | Stripping removes the white space at both ends and nothing else. |
| `FailoverMesh.OptimalRouteIsBest` | runtime/autonomous_failover_mesh.py:89-100 | The chosen route is eligible and the first that none beats on latency, then bandwidth; none is chosen only if none is eligible. |
| `FailoverMesh.RouteLost` | runtime/autonomous_failover_mesh.py:228-240 | A failed route that is switched off leaves strictly fewer candidates. |
| `FailoverMesh.SoundAfter` | runtime/autonomous_failover_mesh.py:322-332 | Each attempt keeps: accepted jobs are never sent again, processed jobs were accepted, failed routes are off. |
| `FailoverMesh.OnlyFailedAreOff` | runtime/autonomous_failover_mesh.py:228-254 | In every exchange exactly the routes that failed an attempt are switched off; every other route is as it was. |
| `FailoverMesh.ExchangeIsBounded` | runtime/autonomous_failover_mesh.py:236-332 | Every failure costs an eligible route, so sends of a job are bounded by the eligible routes at the start, and no other job is sent. |
| `FailoverMesh.ExchangeProcesses` | runtime/autonomous_failover_mesh.py:322-323 | A job becomes processed exactly by an accepted response, the last attempt of its exchange. |
| `FailoverMesh.ExchangeKeepsSound` | runtime/autonomous_failover_mesh.py:265-332 | Every exchange keeps what SoundAfter says of one attempt. |
| `FailoverMesh.ExchangeIsDetermined` | runtime/autonomous_failover_mesh.py:208-332 | State and network leave no choice: there is one complete exchange, so the contract of the class fixes every attempt, every answer and the state after it. |
| `FailoverMesh.SentAtOnce` | runtime/autonomous_failover_mesh.py:277-300 | A job for a connected node with an eligible route is sent, and sent first. |
| `FailoverMesh.AnswerMeans` | runtime/autonomous_failover_mesh.py:265-332 | Why each answer is given: the last attempt was an accepted, a badly signed or a crashed response, or a crashed handshake, or no eligible route is left. |
| `FailoverMesh.Fabric.FindReplacement` | runtime/autonomous_failover_mesh.py:236-262 | The retry loop makes the due handshakes until the best remaining route passes, one crashes, or no eligible route is left. |
| `FailoverMesh.Fabric.HandleConnectionFailure` | runtime/autonomous_failover_mesh.py:228-263 | The failed route is off; then the best route that passes is connected, unauthenticated, and entered in the history, or no eligible route is left and the connection is gone, or a handshake crashed and nothing was recorded. |
| `FailoverMesh.Fabric.ConnectToNode` | runtime/autonomous_failover_mesh.py:208-226 | Connected over the best route, authenticated exactly if that first handshake was; after a failure as by failover; not connected means no eligible route. |
| `FailoverMesh.Fabric.TryOnce` | runtime/autonomous_failover_mesh.py:281-332 | One pass sends the job on the best route and then ends the exchange with its answer, or fails over and may go on. |
| `FailoverMesh.Fabric.SendUntilAnswered` | runtime/autonomous_failover_mesh.py:281-332 | The loop ends with a complete exchange and its answer. |
| `FailoverMesh.Fabric.ExecuteWork` | runtime/autonomous_failover_mesh.py:265-332 | A processed job is answered as duplicate without any effect. Any other gets the answer of the complete exchange: sent first if connected and a route is eligible, never again after an accepted response, at most once per eligible route, and an exception only after a crashed handshake or response. |
| `ProvenanceScan.NewlineAfterPrefix` | tools/build_all_releases.py:99-103 | A newline after the marker's start lies behind the marker. |
| `ProvenanceScan.WindowShowsLine` | tools/build_all_releases.py:95-103 | A window from before the first marker to past its newline yields the payload of the whole file. |
| `ProvenanceScan.ScanRefinesSearch` | tools/build_all_releases.py:87-110 | For every file and every way reads cut it, a first marker line of at most 8192 bytes before its newline is extracted exactly as from the whole file. |
| `ProvenanceScan.ScanFailsWithoutLine` | tools/build_all_releases.py:87-110 | Without a complete marker line the scan finds nothing, however the file is cut. |
| `ProvenanceScan.ScanIsHonest` | tools/build_all_releases.py:93-109 | However the file is cut, what the scan returns is the payload of a marker line of the file, never of bytes across lines. |
| `ProvenanceScan.ReadsExactLine` | tools/build_all_releases.py:93-109 | For every file and reads of any fixed size n: the scan stops at the first marker line if and only if end / n * n <= start + 8192; otherwise it finds nothing or the line of a later marker. |
| `ProvenanceScan.ReadsFindLine` | tools/build_all_releases.py:93-109 | In the first case the payload is that of the whole-file search. |
| `ProvenanceScan.ReadsExact` | tools/build_all_releases.py:93-109 | For a file with one marker the same condition is exact for the payload. |
| `ProvenanceScan.LineOfOneReadIsMissed` | tools/build_all_releases.py:93-109 | A file that 1 MiB reads miss: one marker at its start, a line of exactly one read. |
| `ProvenanceScan.WindowIsExact` | tools/build_all_releases.py:109-109 | Over all ways of cutting any file: all stop at the first marker line if and only if it fits the window. |
| `ProvenanceScan.ReadProvenanceMarker` | tools/build_all_releases.py:87-110 | The loop over 1 MiB reads gives the verdict on the whole-file payload under the condition of ReadsFindLine, fails without a complete line, and reports undecodable and non-object payloads. |
| `ProvenanceAnswers.AnswerExactly` | tools/build_all_releases.py:87-110 | The reader's answer in the bytes of the file: the marker text, the first newline, the text between them without white space at its ends, what it is parsed to, and when a line decides. |
| `ProvenanceAnswers.PayloadExactly` | tools/build_all_releases.py:101-101 | The payload is the text behind the marker without the white space at its ends. |
| `NodeIdentity.PointRoundTrip` | protocol/node_identity.py:158-158 | The first byte tells the width of an encoded code point, and its bytes give the point back, whatever follows. |
| `NodeIdentity.Utf8Injective` | protocol/node_identity.py:158-158 | UTF-8 encoding loses nothing. |
| `NodeIdentity.Pack` | protocol/node_identity.py:157-161 | Fails exactly for unencodable text or more than 65535 bytes. |
| `NodeIdentity.PackSelfDelimiting` | protocol/node_identity.py:157-161 | Packed fields are told apart whatever bytes follow. |
| `NodeIdentity.IntegersInjective` | protocol/node_identity.py:201-201 | The four fixed-width integers, two of them signed, determine their values. |
| `NodeIdentity.SigningMessage` | protocol/node_identity.py:180-204 | A message exists exactly for in-range fields, and starts with the domain tag. |
| `NodeIdentity.SigningMessageInjective` | protocol/node_identity.py:180-204 | Equal signed bytes if and only if equal session, challenge, node, key, versions, times and digest. |
| `NodeIdentity.MessageReadsBack` | protocol/node_identity.py:180-204 | A reader of the format finds the tag, the four texts, the four numbers and the digest in the signed bytes, in this order and nothing else. |
| `NodeIdentity.DomainExactly` | protocol/node_identity.py:30-30 | The tag is the ASCII text and a zero byte. |
| `InferenceStream.AssembleInferenceStream` | protocol/inference_wire.py:50-104 | The loops compute the meaning of the stream, given by projections, including which refusal comes first. |
| `InferenceStream.AbsorbAll` | protocol/inference_wire.py:79-95 | The dictionary of calls holds, for each index, what its own fragments carry. |
| `InferenceStream.EveryCallOfTheStream` | protocol/inference_wire.py:79-101 | Each index with fragments has exactly its own names and arguments joined in arrival order, at the place its rank gives, and there are no other calls. |
| `InferenceStream.FragmentationIsInvisible` | protocol/inference_wire.py:50-104 | Cutting text, names and arguments into pieces, spreading them over chunks and interleaving indexes differently leaves the response unchanged. |
| `InferenceStream.CutInTwo` | protocol/inference_wire.py:91-95 | Cutting a fragment's name and arguments anywhere is such a cut. |
| `InferenceStream.NeighboursCommute` | protocol/inference_wire.py:79-95 | Neighbouring fragments of different calls may arrive in either order. |
| `InferenceStream.ChunkCutInTwo` | protocol/inference_wire.py:62-97 | Sending a chunk as two gives the same answer, response or refusal. |
| `InferenceStream.AcceptedIff` | protocol/inference_wire.py:62-99 | A response exactly when every chunk keeps the contract and the first binding and one is final. |
| `InferenceAnswers.AnswerExactly` | protocol/inference_wire.py:50-104 | The answer in the fields of the chunks: which chunk is refused and why; otherwise all text in order, the last usage, and for each index with fragments, in ascending order, its names and arguments in order and its last id. |
| `InferenceStream.ValidateChunk` | protocol/inference_wire.py:39-47 | Accepts exactly the chunks within the limits of the contract. |
| `EvidenceTransfer.PrefixedPathSafe` | setup/evidence_transfer.py:110-124 | The archive name of a path is safe if and only if the path is safe and at most 4087 characters long. |
| `EvidenceTransfer.OrderedUnique` | setup/evidence_transfer.py:276-276 | There is one way to order a set of file records. |
| `EvidenceTransfer.CheckRecords` | setup/evidence_transfer.py:390-409 | The loop accepts exactly safe, distinct, bounded records within the total size. |
| `EvidenceTransfer.ValidateManifest` | setup/evidence_transfer.py:363-421 | Accepts exactly the manifests of the contract, in both directions. |
| `EvidenceExport.DiscoverLocalEvidence` | setup/evidence_transfer.py:154-200 | Succeeds exactly on a scannable tree and lists exactly its profiles and its benchmarks. |
| `EvidenceExport.CheckProfiles` | setup/evidence_transfer.py:226-237 | All profiles are of the node and the newest has the configured revision. |
| `EvidenceExport.DescribeDocuments` | setup/evidence_transfer.py:245-275 | Describes every document or refuses for an unsafe path or the total size, and for nothing else. |
| `EvidenceExport.CollectExportFiles` | setup/evidence_transfer.py:212-277 | Succeeds exactly on a collectable tree, with the sorted list of its evidence, true hashes and sizes. |
| `EvidenceExport.WriteMembers` | setup/evidence_transfer.py:328-346 | The loop writes the manifest and each file under its prefixed name. |
| `EvidenceExport.ExportNodeEvidence` | setup/evidence_transfer.py:287-360 | Yields the archive of the tree whenever there is one. |
| `EvidenceImport.ReadArchiveManifest` | setup/evidence_transfer.py:429-447 | Reads a manifest only from a plain, bounded, consistent entry with a valid document. |
| `EvidenceImport.ValidateArchiveMembers` | setup/evidence_transfer.py:450-485 | Accepts exactly distinct, safe, plain entries that match the manifest's names and sizes within the total. |
| `EvidenceImport.CopyMember` | setup/evidence_transfer.py:563-576 | The copy loop yields the entry's bytes exactly when their number is the manifest's. |
| `EvidenceImport.ExtractEvidence` | setup/evidence_transfer.py:555-578 | Accepts exactly contents with the manifest's sizes and hashes and no file below another, and yields those files. |
| `EvidenceImport.VerifyImportTree` | setup/evidence_transfer.py:488-515 | An existing directory passes exactly when its manifest has the same identity and its files are the manifest's. |
| `EvidenceImport.ImportRoot.ImportNodeExport` | setup/evidence_transfer.py:518-594 | A refusal changes nothing; an acceptance adds at most the archive's own directory. |
| `EvidenceAnswers.PathExactly` | setup/evidence_transfer.py:110-124 | Safe paths are those of at most 4096 characters made of safe parts joined by slashes. |
| `EvidenceAnswers.ManifestExactly` | setup/evidence_transfer.py:363-421 | The contract of a manifest in its fields and in numbers. |
| `EvidenceAnswers.MembersExactly` | setup/evidence_transfer.py:450-485 | Which entries an archive may and must have, by name, size and flag. |
| `EvidenceAnswers.ImportExactly` | setup/evidence_transfer.py:518-594 | An archive is accepted exactly when it is readable, its entries are those of its manifest and its contents, or the directory that is there, are the manifest's; the receipt and every file of the new directory. |
| `EvidenceAnswers.ExportExactly` | setup/evidence_transfer.py:212-360 | A node is exported exactly when its files can be loaded, its profiles agree and all limits hold; every field of the manifest and every entry of the archive. |
| `EvidenceLaws.AcceptedIsExact` | setup/evidence_transfer.py:518-594 | Any accepted archive leaves exactly its manifest's paths, sizes and hashes; other directories and existing ones are untouched. |
| `EvidenceLaws.RunsKeepImports` | setup/evidence_transfer.py:518-594 | Over every run of imports the root stays sound and an imported directory keeps its contents. |
| `EvidenceLaws.ImportAgain` | setup/evidence_transfer.py:543-551 | Importing an accepted archive again gives the same receipt and changes nothing. |
| `EvidenceLaws.ExportedMembersOk` | setup/evidence_transfer.py:450-485 | The entries of an export pass the import checks if and only if all paths are short enough. |
| `EvidenceLaws.LongPathsAreRefused` | setup/evidence_transfer.py:450-485 | An export with an evidence path of more than 4087 characters is refused by every import root. |
| `EvidenceLaws.RoundTrip` | setup/evidence_transfer.py:287-594 | For every root, export then import succeeds if and only if every evidence path has at most 4087 characters and a directory that is there already matches; a new directory holds exactly the recognised evidence byte for byte. |
| `EvidenceWitness.SimpleIsFaithful` | setup/evidence_transfer.py:98-132 | A library exists that meets the hypotheses about hashing, JSON and characters. |
| `EvidenceWitness.OneExport` | setup/evidence_transfer.py:287-360 | Every safe JSON path is exported by some library and tree that meet all hypotheses of the laws. |
| `EvidenceWitness.LongPathIsNeverImported` | setup/evidence_transfer.py:110-124 | The failing input: a path of 4090 characters whose export is written and which no root accepts. |
| `EvidenceLaws.LaterExportChangesNothing` | setup/evidence_transfer.py:203-209 | Importing a later export of the same evidence gives the same receipt and changes nothing. |

## Left out

- Cryptography (Ed25519, X25519, AES-GCM, HMAC, SHA-256), base64url, JSON and JSON-schema libraries: functions or replies that are inputs of the model. The fingerprint of an envelope is the tuple of hashed fields, and the contract validator of the session is any function of the payload.
- Floating-point rounding in the planner: the model is exact. Latency, throughput and tensor-parallel estimates of a plan are not modelled.
- ShardPlanner.CalculateShardingPlan: the nodes whose heartbeat timed out are a set in the request; that the call also writes `healthy = False` into the caller's node objects is not captured.
- ProviderHandshake.PerformProviderHandshake: an acknowledgement may be lost or garbled, but one that arrives is the handler's own; forged acknowledgements and lost or altered envelopes are not modelled.
- Merkle.RootBinds: is stated by extracting a collision, because no hash of fixed width can be injective on pairs of its own outputs.
- CapacityGuard.PruningIsInvisible: hides the boolean of release and the count of prune, which can see unpruned entries.
- FailoverMesh.Fabric.ExecuteWork: sessions, request and result MACs are inside the outcome of a send; the optimizer's aggregate metrics and route registration are not modelled; a connection is the route's id and a flag instead of the text with its suffix.
- ProvenanceScan.ReadProvenanceMarker: what JSON decoding makes of a payload is an input; opening and decompressing the file are not modelled.
- NodeIdentity.SigningMessage: the hello digest is an input; type errors for non-integer times are excluded by the types.
- InferenceStream.AssembleInferenceStream: chunks are typed records; documents with unknown keys or wrong JSON types are not represented.
- EvidenceExport.DiscoverLocalEvidence: whether a file's content is a profile, a benchmark, neither or malformed is an input; directories named `*.json` and links to directories are not modelled.
- EvidenceExport.ExportNodeEvidence: files do not change while an export runs, so its re-checks never fail; writing the ZIP file to disk is not modelled.
- EvidenceImport.ImportRoot.ImportNodeExport: ZIP parsing, read errors and file-system limits are not modelled; confinement is claimed for evidence paths, not for the node-id directory.
- `DistributedModelCache` registration, eviction and `clear_all`, which call a method that takes the same non-reentrant lock again.
- `MeshCircuitBreaker`, `WorkloadAdmissionGate`, federation, worker trust, streaming and video modules: easier relatives of what is here, or metric bookkeeping.
- Confidential-computing messages, portal, installers, setup menus, payment checks, Android relay: field validation, user interface or I/O.
