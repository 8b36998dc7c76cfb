# Quantos: a verified model of locks, committees, proofs, bridge and limiters

This project models the parts of Quantos whose correctness is not visible from one function, and proves
what they promise over every input, every run or every reachable state.

- **Cross-shard locks.** `LockTable` is one validator's lock table and its message handlers. `LockCluster`
  is a committee of such validators exchanging prepares, votes, commits, acknowledgements and aborts in any
  order, with some members misbehaving and a node's commit handlers overlapping. `ShardAcquisition` is a
  coordinator taking several shards. The result is mutual exclusion of a shard over every interleaving, with
  the exact acknowledgement levels it needs, and freedom from deadlock. `ClusterRuns` has the runs that show
  each condition is needed; `CoordinatorRuns` says when two coordinators can both come away with a shard.
- **Aggregate Merkle trees.** `Merkle` has the two tree loops of the aggregator, over an arbitrary pair
  hash. A collision is produced, not assumed away.
- **Committees.** `Committee` has the rejection sampling, the weighted walk, rotation and the quorum
  threshold. Draws are exactly proportional to stake, and quorums of every rotated committee overlap.
- **Signed layouts.** `Layout`, `FinalityProof` and `TxSigning` are the hand-written byte layouts that
  validators and wallets sign. For each: what the bytes determine, and exactly when they do not.
  `StakeTally` says what the stake in a verification report stands for, and `HeaderBinding` what a final
  report says about its header.
- **Bridge.** `Relayer` is the relayer as a state machine over its awaited calls, with any number of
  processes, crashes and retries; `RelayerProgress` says what one process makes of a row. `Rewards` is the
  bridge points limiter, and `RewardsOverlap` the same with calls that overlap. `RelayVerifier` is the ink!
  contract, and `RelayHistory` reads its whole storage off the calls made. `Hexadecimal`, `BridgeCalldata`
  and `TokenAmount` carry hashes, addresses and amounts from the wallet to the relayer and to the screen and
  back; `BridgeEndToEnd` joins them to the relayer's runs.
- **Limiters.** `PinLockout`, over interleaved requests, and `RateLimiter` bound what any stretch of time can
  hold, and show that the bounds are met.

SHA3 and the pair hash are arbitrary functions, ML-DSA-65 verification (FIPS 204) is an arbitrary
predicate, clocks are the times written in the calls, and the network is the order in which steps happen.
Map tables shared between tasks are maps with atomic operations.

Where the code and its promise part ways, the code is kept and the exact condition is proved:

- Two acknowledgement levels exclude two owners exactly when together they exceed the committee plus its
  faulty members (`Exclusion`, `ExclusionIsSharp`). A coordinator that counts only the votes it received
  can go below it (`BothObtainTheShard`, `LevelExcludes`), and lists count entries, not signers
  (`OneMemberFillsBothLists`).
- Applying a lock is a lookup and then an insert. Exclusion counts on members whose commit handlers for
  one shard do not overlap, and without them fails with every member correct (`OverlapBreaksExclusion`).
- The chain name in the signing preimage has no length, so two external proofs agree on everything covered
  exactly when their names are equally long (`SigningLayoutBinds`, `NamesCollide`).
- The aggregate root binds lists of one length; across lengths `RootsAcrossLengths` says what it binds.
- Reported stake counts entries; `ReportedStakeIff` and `SnapshotStakeIff` say when it is the stake of the
  snapshot's signers.
- A final report binds its header exactly when the proof does not sign a checkpoint (`FinalBindsHeaderIff`,
  `CheckpointFinality`).
- For a text the node resolves, the deposit id is the transaction's hash unless the prefix is in lower case; then
  it is no hex and cannot be sent (`IdOfResolved`, `IdIsHexIff`).
- The relay deadline is a 64-bit sum; a relay is early exactly when that sum wraps
  (`AuthorizedOnTimeUnlessWrapped`, `EarlyRelay`).
- A thrown insert loses a bonus for good; `HasBonusIff` says exactly who has one (`ThrownInsertLosesBonus`).
- Calls that overlap weaken the reward limits by one reward for each call more than one; the bounds are exact
  (`OverlapLimits`, `BoundsAreMet`, `OverlapBreaksCooldown`).
- The daily points cap of the rewards is never reached (`DailyPointsNeverReached`).
- Requests that overlap weaken the PIN lockout by a factor, not by a term (`FailuresAreLimited`, `BoundIsMet`).
- A displayed amount parses back exactly under `RoundTripIff`.

## Model

| member | source | states |
|---|---|---|
| LockTable.CommitRefusal | L1/src/consensus/cross_shard_atomic.rs:174-203 | a commit that passes names a shard with a committee and meets no conflicting lock; `CommitRefusedIff` has the rest |
| LockTable.CountIsApprovals | L1/src/consensus/cross_shard_atomic.rs:188-188 | the count is the number of approving entries |
| LockTable.CommitRefusedIff | L1/src/consensus/cross_shard_atomic.rs:174-196 | a commit passes exactly when its shard has a committee, every voter is in it, over two thirds of the committee's number of entries approve and no other operation holds the shard; the error says which test failed first |
| LockTable.TooFewApprovals | L1/src/consensus/cross_shard_atomic.rs:187-192 | with too few approvals the error names their number and the least number that would do |
| LockTable.CommitApplied | L1/src/consensus/cross_shard_atomic.rs:194-203 | an acknowledgement comes from the node itself, with the lock in its table |
| LockTable.Commit | L1/src/consensus/cross_shard_atomic.rs:174-215 | an acknowledgement is sent only by a node that then holds the lock, and no commit takes away any lock |
| LockTable.CommitAnswers | L1/src/consensus/cross_shard_atomic.rs:174-215 | the handler acknowledges exactly the commits that pass, when signing succeeds; those take the lock, signed or not; all others change nothing |
| LockTable.PrepareVote | L1/src/consensus/cross_shard_atomic.rs:127-162 | a vote is the node's own and approves exactly when no other operation holds the shard |
| LockTable.PrepareAnswers | L1/src/consensus/cross_shard_atomic.rs:127-162 | a vote is given exactly between members when signing succeeds, names the request, and says whether no other operation holds the shard; the errors in order |
| LockTable.SignerRefusedIff | L1/src/consensus/cross_shard_atomic.rs:164-221 | which of the four things wrong with a signer is reported, and nothing only for a member with a valid signature |
| LockTable.VoteRecordedIff | L1/src/consensus/cross_shard_atomic.rs:164-172 | a vote is appended to its list exactly when it is a member's and its signature verifies, and nothing else changes |
| LockTable.AckRecordedIff | L1/src/consensus/cross_shard_atomic.rs:217-221 | the same for an acknowledgement |
| LockTable.ReleaseFrame | L1/src/consensus/cross_shard_atomic.rs:669-677 | a release ends exactly the releasing operation's hold on that shard and empties exactly its two lists; no other holder, list or registered lock changes |
| LockTable.DistributedLockManager.constructor | L1/src/consensus/cross_shard_atomic.rs:613-624 | a new manager has empty tables |
| LockTable.DistributedLockManager.HasConflictingLock | L1/src/consensus/cross_shard_atomic.rs:636-641 | answers yes exactly when a different operation holds the shard |
| LockTable.DistributedLockManager.RecordVote | L1/src/consensus/cross_shard_atomic.rs:644-649 | appends the vote to its operation's and shard's list and changes nothing else |
| LockTable.DistributedLockManager.RecordAck | L1/src/consensus/cross_shard_atomic.rs:652-657 | appends the acknowledgement to its operation's and shard's list and changes nothing else |
| LockTable.DistributedLockManager.ApplyLock | L1/src/consensus/cross_shard_atomic.rs:660-666 | fails exactly on a conflict, and then changes nothing |
| LockTable.DistributedLockManager.ReleaseLock | L1/src/consensus/cross_shard_atomic.rs:669-677 | releases only for the holder and drops the operation's votes and acknowledgements for the shard |
| LockTable.CrossShardAtomicProtocol.constructor | L1/src/consensus/cross_shard_atomic.rs:75-95 | a node starts with empty lock tables of its own |
| LockTable.CrossShardAtomicProtocol.HandleLockPrepare | L1/src/consensus/cross_shard_atomic.rs:127-162 | votes yes exactly when no other operation holds the shard, only between committee members, locking nothing; a refusal between members comes only from signing |
| LockTable.CrossShardAtomicProtocol.HandleLockVote | L1/src/consensus/cross_shard_atomic.rs:164-172 | records a vote exactly when its signer is a member and the signature verifies, and says which check failed, an erroring verification included |
| LockTable.CrossShardAtomicProtocol.HandleLockCommit | L1/src/consensus/cross_shard_atomic.rs:174-215 | does what `Commit` specifies, whose answers `CommitAnswers` decides: the loop over the votes, all refusals in order, the lock kept when signing fails |
| LockTable.CrossShardAtomicProtocol.HandleLockAck | L1/src/consensus/cross_shard_atomic.rs:217-221 | records an acknowledgement exactly when its signer is a member and the signature verifies, and says which check failed, an erroring verification included |
| LockTable.CrossShardAtomicProtocol.HandleLockAbort | L1/src/consensus/cross_shard_atomic.rs:223-235 | both branches amount to the guarded release |
| LockCluster.LocksOnlyReleasedByOwner | L1/src/consensus/cross_shard_atomic.rs:174-235 | on a node whose handlers are in order, no step other than its own release for exactly that operation and shard removes or replaces a lock |
| LockCluster.StepKeepsAckersHold | L1/src/consensus/cross_shard_atomic.rs:174-235 | every step on such a node keeps: it holds what it acknowledged and has not released |
| LockCluster.StepKeepsOrder | L1/src/consensus/cross_shard_atomic.rs:174-215 | every step that starts no commit handler beside one for another operation on the shard keeps a node in order: locks held as acknowledged, and a pending insert meets no other lock |
| LockCluster.StepKeepsAcksGenuine | L1/src/consensus/cross_shard_atomic.rs:217-221 | every step keeps: recorded acknowledgements come from committee members, and from correct ones only if sent |
| LockCluster.StepKeepsVotesGenuine | L1/src/consensus/cross_shard_atomic.rs:164-172 | every step keeps: recorded votes come from committee members, and from correct ones only if cast |
| LockCluster.EveryRun | L1/src/consensus/cross_shard_atomic.rs:127-235 | in every cluster reachable by any interleaving, handlers overlapping or not, recorded votes and acknowledgements are genuine |
| LockCluster.SteadyNodesHold | L1/src/consensus/cross_shard_atomic.rs:174-235 | over every run a correct node whose commit handlers for one shard and different operations did not overlap holds every lock it acknowledged and did not release |
| LockCluster.LocksAnswerCommits | L1/src/consensus/cross_shard_atomic.rs:174-215 | over every run, handlers overlapping or not, a correct node holds or has acknowledged a shard for an operation only if it was sent a commit with over two thirds approving entries, all from members |
| LockCluster.VotesAnswerPrepares | L1/src/consensus/cross_shard_atomic.rs:127-162 | over every run a correct node's vote answers a member's request and says whether another operation held the shard there at that moment |
| LockCluster.CommonCorrect | L1/src/consensus/cross_shard_atomic.rs:853-891 | two groups that together outnumber committee plus faulty members share a correct member |
| LockCluster.ThresholdIsQuorum | L1/src/consensus/adversarial_tests.rs:338-352 | 2n/3 + 1 is n minus the tolerated faulty members, and two such groups overlap in more than can be faulty |
| LockCluster.Exclusion | L1/src/consensus/cross_shard_atomic.rs:174-235 | over every run, two operations with unreleased distinct acknowledgers for a shard that together outnumber the committee plus its members that are faulty or had overlapping handlers are one |
| LockCluster.CoordinatorExclusion | L1/src/consensus/cross_shard_atomic.rs:764-806 | the same read off coordinators' collected lists: with at most a third faulty or overlapping, committee-sized lists of distinct signers serve one operation |
| ClusterRuns.ExclusionIsSharp | L1/src/consensus/cross_shard_atomic.rs:174-215 | for every committee, number of faulty members and two levels that together do not exceed the bound, a run without overlapping handlers gives one shard to two operations |
| ClusterRuns.OverlapBreaksExclusion | L1/src/consensus/cross_shard_atomic.rs:660-666 | with every member correct, a run in which two commit handlers overlap on each node gives all members' acknowledgements to two operations |
| ClusterRuns.SerialIsSteady | L1/src/consensus/cross_shard_atomic.rs:174-215 | runs with one commit handler at a time meet the condition of the exclusion theorem on every node |
| CoordinatorRuns.LevelFromFewestVotes | L1/src/consensus/cross_shard_atomic.rs:764-787 | for every committee of five or more with a third faulty, two correct coordinators that received just ceil(2n/3) votes both pass the round tests and the lock check for different operations |
| CoordinatorRuns.BothObtainTheShard | L1/src/consensus/cross_shard_atomic.rs:746-806 | for any two numbers of votes the lock check accepts whose levels together do not exceed committee plus faulty, a run of prepares, votes, commits and acknowledgements gives two coordinators distinct cast votes and acknowledgements that pass |
| CoordinatorRuns.LevelExcludes | L1/src/consensus/cross_shard_atomic.rs:746-806 | and only then: above that bound two coordinators with such lists serve one operation, over every run, for members that are correct and not overlapping |
| CoordinatorRuns.CastVotes | L1/src/consensus/cross_shard_atomic.rs:127-162 | members that find the shard free all approve, with every table as before |
| CoordinatorRuns.DeliverVotes | L1/src/consensus/cross_shard_atomic.rs:164-172 | delivering votes that were cast appends exactly them to one coordinator's list and changes no other list |
| CoordinatorRuns.DeliverAcks | L1/src/consensus/cross_shard_atomic.rs:217-221 | delivering acknowledgements that were sent appends exactly them to one coordinator's list and changes no other list |
| CoordinatorRuns.OneMemberFillsBothLists | L1/src/consensus/cross_shard_atomic.rs:652-657 | one faulty member's repeated acknowledgements fill two operations' lists to any length with nothing locked |
| ShardAcquisition.AcquisitionOrder | L1/src/consensus/cross_shard_atomic.rs:694-701 | sorting and deduplicating gives a strictly increasing list of exactly the requested shards |
| ShardAcquisition.OrderIsCanonical | L1/src/consensus/cross_shard_atomic.rs:694-701 | requests for the same shards, in any order and repetition, are taken in one order |
| ShardAcquisition.NoWaitCycle | L1/src/consensus/cross_shard_atomic.rs:686-737 | in any ring of waiting operations some operation wants a shard the next does not hold |
| ShardAcquisition.Interfere | L1/src/consensus/cross_shard_atomic.rs:107-125 | messages and other operations handled while a coordinator waits change the tables one by one, the registry only by other operations' registrations |
| ShardAcquisition.OwnEntryStays | L1/src/consensus/cross_shard_atomic.rs:686-737 | whatever others register or release, the operation's own registry entry stays |
| ShardAcquisition.LocksSurvive | L1/src/consensus/cross_shard_atomic.rs:107-125 | whatever is handled meanwhile, a locked shard stays locked for its operation until that operation releases it |
| ShardAcquisition.SignaturesAreApprovals | L1/src/consensus/cross_shard_atomic.rs:799-803 | the signatures in a lock are those of the approving votes, each once, in order |
| ShardAcquisition.VerifiedIff | L1/src/consensus/cross_shard_atomic.rs:943-974 | a lock verifies exactly when it has the signatures of two thirds of its shard's committee and a proof, and is not stale |
| ShardAcquisition.RoundSucceedsIff | L1/src/consensus/cross_shard_atomic.rs:764-793 | over two thirds of the votes that arrived approve, and as many acknowledgements arrived |
| ShardAcquisition.AttemptSucceedsIff | L1/src/consensus/cross_shard_atomic.rs:746-806 | a round obtains the lock exactly when the shard has a committee, both messages serialise and both counts suffice; what each error means, and that the last releases |
| ShardAcquisition.TryAcquireShardLock | L1/src/consensus/cross_shard_atomic.rs:746-806 | leaves the tables and gives the answer of the round as specified, interference and serialisation failures included |
| ShardAcquisition.ReleaseEach | L1/src/consensus/cross_shard_atomic.rs:714-737 | afterwards the operation holds none of the listed shards and other operations' locks are as before |
| ShardAcquisition.AcquireAll | L1/src/consensus/cross_shard_atomic.rs:686-737 | succeeds exactly when every round is in time, obtains its lock and the lock verifies; then registers the rounds' locks for exactly the requested shards in order, each with two thirds of its committee's signatures; otherwise gives the error of the first round that fails and holds no earlier shard |
| ShardAcquisition.ReleaseAll | L1/src/consensus/cross_shard_atomic.rs:977-983 | the operation is unregistered and holds none of its shards; others are untouched |
| Merkle.OneBitIsPow2 | L1/src/consensus/cross_shard_atomic.rs:1117-1128 | the population-count test recognises exactly the powers of two |
| Merkle.PadToPowerOfTwo | L1/src/consensus/cross_shard_atomic.rs:1122-1129 | pads with zeros to the least power of two, keeping the roots in front |
| Merkle.HashPairs | L1/src/consensus/cross_shard_atomic.rs:1131-1139 | one pass turns a row of the tree into the next row up |
| Merkle.ComputeAggregateMerkleRoot | L1/src/consensus/cross_shard_atomic.rs:1117-1142 | terminates, indexes no missing chunk element and returns the root of the perfect tree over the zero-padded state roots |
| Merkle.RootBindsStateRoots | L1/src/consensus/cross_shard_atomic.rs:1117-1142 | equal roots of equally long lists mean equal state roots in order, or exhibit a collision of the pair hash |
| Merkle.PairCollisionIsHashCollision | L1/src/consensus/cross_shard_atomic.rs:1131-1139 | a pair-hash collision on 32-byte digests is a collision of the underlying hash |
| Merkle.RootsAcrossLengths | L1/src/consensus/cross_shard_atomic.rs:1117-1142 | for lists of different lengths, short of a collision, roots agree exactly when the shorter padded list is a row of the longer one's tree |
| Merkle.PaddingIsInvisible | L1/src/consensus/cross_shard_atomic.rs:1122-1129 | a zero state root appended into the padding does not change the root |
| Merkle.InnerNodeIsALeaf | L1/src/consensus/cross_shard_atomic.rs:1131-1139 | a pair's hash as a single state root has the pair's root |
| Merkle.HashChunks | L1/src/consensus/cross_shard_atomic.rs:1096-1110 | one pass halves a level rounding up, carrying an odd last hash |
| Merkle.CarryKeepsRoot | L1/src/consensus/cross_shard_atomic.rs:1096-1110 | carrying up one level keeps the carry-up root of every aligned stretch |
| Merkle.TreesAgree | L1/src/consensus/cross_shard_atomic.rs:1096-1139 | over a whole power of two the carry-up tree and the padded tree are the same |
| Merkle.LevelHead | L1/src/consensus/cross_shard_atomic.rs:1096-1110 | the first hash of level j is the carry-up root of the first min(2^j, n) hashes |
| Merkle.GenerateMerkleProof | L1/src/consensus/cross_shard_atomic.rs:1082-1114 | terminates; entry k is the carry-up root of the first min(2^k, n) hashes, ceil(log2 n) entries, then the state root; an empty list gives the state root alone |
| Committee.OwnerIsRange | L1/src/consensus/committee.rs:385-394 | the cumulative walk lands on validator j exactly for weights in j's stake range |
| Committee.ExactShare | L1/src/consensus/committee.rs:347-397 | among all u128 values the number accepted and mapped to validator j is its stake times u128::MAX / total |
| Committee.AcceptanceRate | L1/src/consensus/committee.rs:365-383 | at least half of all u128 values are accepted |
| Committee.SeedValueReads | L1/src/consensus/committee.rs:179-181 | a seed is read as the value its first sixteen bytes write |
| Committee.Draw | L1/src/consensus/committee.rs:174-189 | the rejection loop returns the first acceptable value of its hash stream, reduced |
| Committee.DrawnOwner | L1/src/consensus/committee.rs:174-189 | the validator a draw gives owns the first accepted value of its stream, so its chance is the share of `ExactShare` |
| Committee.FirstInputsDiffer | L1/src/consensus/committee.rs:359-364 | no two draws of a selection, committee or super-committee, and no two selections hash the same bytes first |
| Committee.DrawsCanDiffer | L1/src/consensus/committee.rs:167-171 | for any two different draws some hash gives different first seeds |
| Committee.RehashBinds | L1/src/consensus/committee.rs:185-188 | what is hashed after a rejection tells the seed before and the draw's number, of which a committee keeps the last byte only |
| Committee.DrawsBind | L1/src/consensus/committee.rs:167-189 | two draws that reach one seed after the same number of rejections are one draw, or exhibit a collision |
| Committee.PickFrom | L1/src/consensus/committee.rs:191-204 | the walk picks the least unused validator at or after the owner of the weight, or none when all are used |
| Committee.PicksAreSelection | L1/src/consensus/committee.rs:152-212 | whatever the weights, the chosen validators are distinct, no more than drawn or than exist, and the first has stake |
| Committee.DrawAdds | L1/src/consensus/committee.rs:191-204 | a draw adds the first unused validator at or after its owner, nothing exactly when there is none |
| Committee.OwnersAreChosen | L1/src/consensus/committee.rs:191-204 | whoever owns a drawn weight is chosen |
| Committee.SelectionStake | L1/src/consensus/committee.rs:152-212 | the members' stake is the stake of distinct validators and at most the total |
| Committee.AddMember | L1/src/consensus/committee.rs:191-210 | one draw adds the next pick and its member and keeps the used set exact |
| Committee.SelectCommitteeMembers | L1/src/consensus/committee.rs:152-212 | the members are the validators the seed's draws choose, in order |
| Committee.QuorumThreshold | L1/src/consensus/committee.rs:47-59 | succeeds exactly when twice the stake fits in u128, gives the least integer above two thirds, and the second overflow branch is never taken |
| Committee.SelectionDistinct | L1/src/consensus/committee.rs:152-212 | with distinct addresses members are pairwise different and are active validators with their own stake |
| Committee.BuildCommittee | L1/src/consensus/committee.rs:118-139 | a committee has its identifiers, is well formed and comes from its own seed's draws |
| Committee.CommitteeSeedBinds | L1/src/consensus/committee.rs:143-150 | committees of different epoch, slot, identifier or randomness have different seeds, short of a collision |
| Committee.CommitteesCanDiffer | L1/src/consensus/committee.rs:143-150 | and for any two some hash gives different seeds |
| Committee.CommitteeManager.constructor | L1/src/consensus/committee.rs:75-106 | starts with no committees |
| Committee.CommitteeManager.RotateCommittees | L1/src/consensus/committee.rs:108-141 | one well-formed committee per identifier from that identifier's draws; other epochs stay; without validators nothing changes |
| Committee.CommitteeManager.GetCommitteeForShard | L1/src/consensus/committee.rs:218-221 | finds the committee of the shard number modulo the committee count, if stored |
| Committee.QuorumsOverlap | L1/src/consensus/committee.rs:47-59 | for every rotated committee whose threshold computes: two groups meeting it share over a third of the stake; the whole committee meets it exactly when its stake is positive, which rotation from positive stake gives |
| Committee.FirstDrawsNext | L1/src/consensus/committee.rs:347-397 | a draw adds its owner at the end exactly if no earlier draw had it |
| Committee.SelectSuperCommittee | L1/src/consensus/committee.rs:347-397 | the addresses are the owners of one hundred draws, each once, in the order of first draw; none without stake |
| Committee.OwnerOf | L1/src/consensus/committee.rs:385-394 | the loop finds the owner of a weight |
| Layout.BuildWithDomain | quantos-l0-sdk/src/types.rs:20-26 | writes length, tag and message |
| Layout.TagsBind | quantos-wallet-core/src/lib.rs:30-36 | equal tagged messages have equal tags and messages, for tags below 2^16 bytes |
| Layout.TagUnambiguousIff | quantos-wallet-core/src/lib.rs:30-36 | a tag is kept apart from every other tag exactly when its length fits the two-byte prefix |
| Layout.ParseWritten | quantos-l0-sdk/src/types.rs:106-111 | reading a written list of length-prefixed records gives the list |
| Layout.WriteParsed | quantos-l0-sdk/src/types.rs:106-111 | whatever the reader accepts is a written list |
| Layout.ItemsBind | quantos-l0-sdk/src/types.rs:132-137 | two record lists with the same bytes are equal |
| FinalityProof.ComputeRoot | quantos-l0-sdk/src/error.rs:49-61 | hashes exactly the records' bytes |
| FinalityProof.AbsorbValidators | quantos-l0-sdk/src/types.rs:106-111 | the loop appends the validator list's layout |
| FinalityProof.AbsorbSignatures | quantos-l0-sdk/src/types.rs:132-137 | the loop appends the signature list's layout |
| FinalityProof.ComputeSigningDigest | quantos-l0-sdk/src/types.rs:85-115 | hashes exactly the signing preimage |
| FinalityProof.ComputeProofHash | quantos-l0-sdk/src/types.rs:128-142 | hashes the signing digest, the signatures and the STARK commitment |
| FinalityProof.ValidatorsBind | quantos-l0-sdk/src/error.rs:49-61 | validator lists with the same bytes are equal, whatever their lengths |
| FinalityProof.SignaturesBind | quantos-l0-sdk/src/types.rs:132-137 | signature lists with the same bytes are equal |
| FinalityProof.FixedFieldsBind | quantos-l0-sdk/src/types.rs:85-105 | equal header bytes mean equal covered fields |
| FinalityProof.SigningLayoutBinds | quantos-l0-sdk/src/types.rs:85-115 | proofs with one signing preimage are both native or both external, and agree on all covered fields and validators exactly when their chain names are equally long |
| FinalityProof.NamesCollide | quantos-l0-sdk/src/types.rs:88-94 | for every name and eight more bytes two different external headers share a signing preimage |
| FinalityProof.ProofHashBinds | quantos-l0-sdk/src/types.rs:128-142 | equal proof hashes mean equal signatures, STARK commitments and signing preimages, or exhibit a collision |
| FinalityProof.MessageIs | quantos-l0-sdk/src/types.rs:118-126 | a native proof with a checkpoint hash that is not all zeros signs that hash under its tag, every other proof its digest |
| FinalityProof.SignedMessagesAgreeIff | quantos-l0-sdk/src/types.rs:120-126 | checkpoint and digest messages never coincide; within a kind messages agree exactly when the hash or digest does |
| FinalityProof.SaturationIsOneCut | quantos-l0-sdk/src/types.rs:144-149 | saturating step by step is the exact sum cut once at u128::MAX, in any order |
| FinalityProof.TotalIsOneCut | quantos-l0-sdk/src/error.rs:39-43 | the snapshot's total is the exact sum cut once at u128::MAX |
| FinalityProof.RefusedIff | quantos-l0-sdk/src/verifier.rs:23-42 | signatures are looked at exactly for version one, the snapshot's root, as many validators and the snapshot's stake; the error says what was wrong first |
| FinalityProof.VerifyProof | quantos-l0-sdk/src/verifier.rs:19-76 | refuses in the source's order or returns the tally of the verifying signatures |
| FinalityProof.VerifiedStakeBounded | quantos-l0-sdk/src/verifier.rs:44-75 | verifying signatures never carry more stake than all |
| FinalityProof.AllVerified | quantos-l0-sdk/src/verifier.rs:44-75 | the tally keeps every signature exactly when each verifies |
| FinalityProof.ReportIsFinalIff | quantos-l0-sdk/src/error.rs:72-76 | valid and invalid add up, reported stake is at most the signed stake and equal when none is invalid, and a report is final exactly when all verify, each under the key of the validator it names, and the threshold is met |
| StakeTally.EntriesAgainstSigners | quantos-l0-sdk/src/types.rs:144-149 | counting entries gives at least the signers' stake, and exactly it when and only when no validator with stake is named twice |
| StakeTally.ReportedStakeIff | quantos-l0-sdk/src/verifier.rs:44-75 | the reported stake is the verifying signers' stake, each once and cut at u128::MAX, exactly when none with stake signs twice or their stake reaches the cut |
| StakeTally.FinalIffSignerStake | quantos-l0-sdk/src/verifier.rs:44-75 | a proof that names no validator with stake twice is final exactly when every signature verifies and its signers' stake meets the threshold |
| StakeTally.RepeatedSignatureIsFinal | quantos-l0-sdk/src/verifier.rs:44-75 | without that it need not be so: one validator of stake one, its signature repeated, is final at every threshold |
| StakeTally.SnapshotStakeIff | quantos-l0-sdk/src/verifier.rs:26-43 | for a proof not refused, its validators are the snapshot's exactly when they hash to the root in its header, short of a collision |
| StakeTally.SnapshotStakeBounded | quantos-l0-sdk/src/verifier.rs:26-43 | then the signers' stake, cut at u128::MAX, is at most the total in the header |
| StakeTally.OtherValidatorsNotRefused | quantos-l0-sdk/src/verifier.rs:26-43 | the condition is needed: any list of the snapshot's length is let through |
| HeaderBinding.CheckpointFinality | quantos-l0-sdk/src/types.rs:118-126 | a final native proof that signs a checkpoint is final under every native header with that checkpoint hash and no higher threshold, whatever else it says |
| HeaderBinding.FinalUnderIff | quantos-l0-sdk/src/verifier.rs:44-75 | with one signature good for its own message only, final evidence is final under another header exactly when that gives the same message and its threshold is met |
| HeaderBinding.DigestFinality | quantos-l0-sdk/src/verifier.rs:44-75 | evidence that signs the digest is final under no header with other covered fields, short of a collision |
| HeaderBinding.FinalBindsHeaderIff | quantos-l0-sdk/src/types.rs:118-126 | a final report binds every covered header field exactly when the proof does not sign a checkpoint |
| TxSigning.CoreSigningData | quantos-wallet-core/src/lib.rs:145-166 | writes the signing layout of the covered fields |
| TxSigning.ServerSigningData | quantos-wallet-server/src/crypto.rs:398-436 | writes the same bytes as the wallet core for every transaction |
| TxSigning.SameBytesIff | quantos-wallet-core/src/lib.rs:145-166 | transactions sign the same bytes exactly when they differ at most in signature, public key and absent against zero boost |
| TxSigning.OtherDomainsDiffer | quantos-wallet-core/src/lib.rs:30-36 | no message under another domain tag is a transaction's signing bytes |
| TxSigning.WriteDecoded | quantos-wallet-core/src/lib.rs:145-166 | what the reader accepts is the signing bytes of what it returns |
| TxSigning.DecodeWritten | quantos-wallet-core/src/lib.rs:145-166 | reading the signing bytes recovers every covered field |
| TxSigning.DecodeAccepts | quantos-wallet-core/src/lib.rs:145-166 | the reader accepts all signing bytes |
| Relayer.SameDepositIdIff | bridge-relayer/src/relayer.ts:10-15 | hashes of up to 64 digits share a deposit id exactly when they agree up to case and leading zeros |
| Relayer.CanonicalIdsDiffer | bridge-relayer/src/relayer.ts:10-15 | canonical hashes share a deposit id only if they are the same hash |
| Relayer.IdIsHexIff | bridge-relayer/src/relayer.ts:10-15 | for a text the node resolves, the deposit id is hex exactly unless its prefix is in lower case |
| Relayer.IdOfResolved | L1/src/rpc/server.rs:2091-2098 | for a text the node resolves, a deposit id in hex is the 32-byte transaction hash |
| Relayer.SameIdIffSameTransaction | bridge-relayer/src/relayer.ts:10-15 | two such texts share a deposit id exactly when the node resolves them to one transaction |
| Relayer.StepGrows | bridge-relayer/src/relayer.ts:187-323 | no step forgets a mint, a sent transaction or a processed id |
| Relayer.MintKeepsGateway | base-bridge/contracts/BaseBridgeGateway.sol:73-95 | a mint attempt keeps: processed ids are exactly the minted ones, each minted once and genuine |
| Relayer.MintedIff | base-bridge/contracts/BaseBridgeGateway.sol:73-95 | the gateway mints exactly for its relayer, while not paused, for a new identifier, recipient, sender and amount that are not zero; anything else changes nothing |
| Relayer.StepKeepsGateway | bridge-relayer/src/relayer.ts:187-323 | every step keeps the gateway's and the in-flight transactions' invariants |
| Relayer.StepKeepsRows | bridge-relayer/src/relayer.ts:138-323 | every step keeps: a completed row's id is processed and retries stay within the limit |
| Relayer.StepKeepsProcs | bridge-relayer/src/relayer.ts:187-323 | every step keeps each process's knowledge true, whatever the others do |
| Relayer.EveryRun | bridge-relayer/src/relayer.ts:138-323 | the invariant holds in every world reachable by polls, errors, crashes, retries and interleaved processes |
| Relayer.BridgeSafety | bridge-relayer/src/relayer.ts:138-323 | over every run no 32-byte transaction hash is minted twice, however many rows spell it; each mint is its transaction's amount and named recipient, and a completed row's transaction has been minted |
| Relayer.MintsNameTheirRow | bridge-relayer/src/relayer.ts:243-281 | over every run each mint is made for a row of its transaction, with that row's sender and, when the deposit names no recipient, that row's recipient |
| Relayer.SupplyIsBacked | bridge-relayer/src/relayer.ts:187-323 | over every run the minted total never exceeds the deposited total, each transaction counted once however it is spelled |
| RelayerProgress.PolledIff | bridge-relayer/src/db.ts:29-62 | a poll takes a row exactly if it is neither failed nor completed and has attempts left |
| RelayerProgress.NewRow | bridge-relayer/src/db.ts:29-37 | a new row, pending or confirmed, can be polled and has what was handed in |
| RelayerProgress.DealWithNext | bridge-relayer/src/relayer.ts:187-323 | an undisturbed process mints a deposit that is real, not empty and new, to the chain's recipient or else the row's, and completes the row; completes one minted before; fails anything else; changes nothing else and goes on to the rest |
| RelayerProgress.Undisturbed | bridge-relayer/src/relayer.ts:138-323 | the same from one poll to the next |
| RelayerProgress.SecondMintReverts | bridge-relayer/src/base.ts:123-130 | a check that is not answered cannot lead to a second mint: Base turns it away and the attempt counts |
| RelayerProgress.CatchWrites | bridge-relayer/src/relayer.ts:169-179 | a failed attempt counts; the row can be polled again exactly while attempts are left and has failed otherwise |
| RelayerProgress.ThrownAttempt | bridge-relayer/src/relayer.ts:154-179 | a call that throws, wherever the process is with a row, costs that attempt and no more, and it goes on to the next row |
| Rewards.AwardTable.GetRewardContext | bridge-relayer/src/rewards.ts:52-129 | the queries and the accumulation loop give the counts, sums and latest time of the specification |
| Rewards.AwardTable.InsertAward | bridge-relayer/src/rewards.ts:131-168 | inserts exactly when the idempotency key is new, and says so |
| Rewards.AwardTable.AwardBridgePoints | bridge-relayer/src/rewards.ts:170-244 | considers, judges, rewards and adds a bonus as `Awarded` specifies, stopping where an insert throws |
| Rewards.LastRewardIsLatest | bridge-relayer/src/rewards.ts:81-89 | the time used for the cooldown is the latest reward of the user for another deposit |
| Rewards.CompleteIsLegal | bridge-relayer/src/rewards.ts:183-213 | a reward that passes the checks respects all limits at its insert time, though clock and day may have moved on |
| Rewards.AwardKeepsInv | bridge-relayer/src/rewards.ts:170-244 | every call keeps: each row was legal for the rows before it |
| Rewards.EveryRun | bridge-relayer/src/rewards.ts:170-244 | the invariant holds after every sequential run on a clock that does not go back |
| Rewards.RewardLimits | bridge-relayer/src/rewards.ts:170-244 | over every run any seven days hold at most 300 capped points of a user, any UTC day at most three rewarded bridges, rewards of a user are thirty minutes apart, no deposit is rewarded twice and no bonus given twice |
| Rewards.RowPoints | bridge-relayer/src/rewards.ts:205-243 | a reward is twenty-five capped points; the bonuses are 200, 100 and 150 besides the cap |
| Rewards.RewardedIff | bridge-relayer/src/rewards.ts:171-213 | a deposit gets its reward exactly when it goes from Quantos to Base, has a user and at least twenty-five tokens, cooldown, daily count and weekly points allow it and the insert goes through |
| Rewards.OthersEarnNothing | bridge-relayer/src/rewards.ts:171-178 | any other deposit changes nothing |
| Rewards.DailyPointsNeverReached | bridge-relayer/src/rewards.ts:194-197 | in no reachable state does the daily points cap decide |
| Rewards.IndexIsCount | bridge-relayer/src/rewards.ts:205-213 | after the reward the bridge index is the number of the user's rewarded bridges, new or repeated, if the deposit is nobody else's |
| Rewards.HasBonusIff | bridge-relayer/src/rewards.ts:205-243 | over every run, inserts thrown or not, a user has a bonus exactly if some call for them proceeded, both its inserts went through and its index was the threshold |
| Rewards.BonusNeverEarly | bridge-relayer/src/rewards.ts:205-243 | over every run no bonus comes before its bridge |
| Rewards.ThrownInsertLosesBonus | bridge-relayer/src/rewards.ts:215-223 | one thrown bonus insert on the first bridge leaves a user with two rewarded bridges and no first bonus |
| Rewards.RepeatsGoOn | bridge-relayer/src/rewards.ts:183-205 | a deposit that has its reward is never held up by the limits when handed in again |
| Rewards.RepeatRecoversBonus | bridge-relayer/src/rewards.ts:183-223 | so a thrown first bonus is given when the same deposit is handed in again before the next reward, cooldown or not |
| Rewards.MissedForGood | bridge-relayer/src/rewards.ts:205-243 | a bonus missed when the count passes its threshold is never given later |
| Rewards.BonusesAreDue | bridge-relayer/src/rewards.ts:205-243 | a user whose own bonus inserts go through has the first, fifth and tenth bonus exactly from the first, fifth and tenth rewarded bridge on, whatever happens to other calls |
| RewardsOverlap.AloneIsAwarded | bridge-relayer/src/rewards.ts:170-244 | a call whose steps nothing comes between does what the sequential model says, whatever the order of its queries |
| RewardsOverlap.FavouredSeesRoom | bridge-relayer/src/rewards.ts:64-128 | a query answered in favour of a call saw every reward of the stretch its limit is about, and there was room |
| RewardsOverlap.StepKeepsBound | bridge-relayer/src/rewards.ts:52-244 | every step keeps: rewards in a stretch and calls that may still add one are at most the room and k |
| RewardsOverlap.OverlapLimits | bridge-relayer/src/rewards.ts:52-244 | over every interleaving with at most k calls of a user under way, queries answered at moments of their own: any seven days hold at most 300 + 25 (k - 1) capped points, any UTC day at most k + 2 rewarded bridges, any thirty minutes at most k |
| RewardsOverlap.OverlapPaysOnce | bridge-relayer/src/rewards.ts:131-168 | however many calls overlap, no deposit is rewarded twice and no bonus given twice |
| RewardsOverlap.OverlapBreaksCooldown | bridge-relayer/src/rewards.ts:183-213 | two calls judged together are both rewarded at the same moment |
| RewardsOverlap.BoundsAreMet | bridge-relayer/src/rewards.ts:52-244 | for every k one interleaving reaches all three bounds |
| RelayVerifier.QuantosL0Verifier.constructor | base-bridge/polkadot/lib.rs:123-128 | a zero window becomes 300 and all tables are empty |
| RelayVerifier.QuantosL0Verifier.Default | base-bridge/polkadot/lib.rs:131-136 | the caller becomes admin with a window of 300 |
| RelayVerifier.QuantosL0Verifier.AssertAdmin | base-bridge/polkadot/lib.rs:308-313 | accepts exactly the admin |
| RelayVerifier.QuantosL0Verifier.RegisterValidatorSet | base-bridge/polkadot/lib.rs:142-159 | for the admin only, stores the set as active with the block time and logs it; anyone else changes nothing |
| RelayVerifier.QuantosL0Verifier.RevokeValidatorSet | base-bridge/polkadot/lib.rs:162-169 | for the admin only, a known set becomes inactive and keeps its stake and threshold; an unknown set is an error |
| RelayVerifier.QuantosL0Verifier.SetChallengeWindow | base-bridge/polkadot/lib.rs:172-176 | only the admin changes the window, and nothing else changes |
| RelayVerifier.QuantosL0Verifier.TransferAdmin | base-bridge/polkadot/lib.rs:179-183 | only the admin passes the role on, and nothing else changes |
| RelayVerifier.QuantosL0Verifier.VerifyProof | base-bridge/polkadot/lib.rs:189-223 | a missing or inactive set, a repeated proof and too little stake are refused in that order; otherwise the record with the block time and the event are added |
| RelayVerifier.QuantosL0Verifier.AuthorizeRelay | base-bridge/polkadot/lib.rs:229-258 | an unverified proof, a marked deposit, an overflowing deadline and an open window are refused in that order; otherwise the mark and the event are added |
| RelayVerifier.QuantosL0Verifier.ForceMarkRelayed | base-bridge/polkadot/lib.rs:261-274 | for the admin only, marks the deposit, also over an earlier mark, without an event |
| RelayVerifier.RecordsNeverChange | base-bridge/polkadot/lib.rs:142-274 | between any two points of any run proof records are unchanged, marks stay and the log only grows |
| RelayVerifier.StoredProofsWereAccepted | base-bridge/polkadot/lib.rs:189-223 | every stored proof was accepted by an earlier call under an active set whose stored threshold was met, and holds that call's data |
| RelayVerifier.AcceptedProofsAreStored | base-bridge/polkadot/lib.rs:189-223 | an accepted proof keeps its record at every later point |
| RelayVerifier.MarkedDepositsWereRelayed | base-bridge/polkadot/lib.rs:229-274 | a deposit is marked only by an authorising call or an admin's |
| RelayVerifier.AuthorizedOnce | base-bridge/polkadot/lib.rs:229-274 | nothing authorises a deposit that was authorised or admin-marked before |
| RelayVerifier.AuthorizesIff | base-bridge/polkadot/lib.rs:229-258 | over every run a relay is authorised exactly when an earlier call accepted its proof, the window in force has passed since, and no earlier call marked the deposit |
| RelayVerifier.AuthorizedOnTimeUnlessWrapped | base-bridge/polkadot/lib.rs:242-245 | in every run an authorised relay has a call that accepted its proof, and comes before acceptance plus the window in force exactly when that sum does not fit in 64 bits; with overflow checks never |
| RelayVerifier.EarlyRelay | base-bridge/polkadot/lib.rs:242-245 | it happens in an unchecked build: at any time but zero, four calls authorise a relay in the block that accepted its proof |
| RelayVerifier.EveryRunKeepsLog | base-bridge/polkadot/lib.rs:142-274 | in every run each deposit id has at most one RelayAuthorized event, after a ProofVerified event for its proof |
| RelayHistory.OthersChangeNothing | base-bridge/polkadot/lib.rs:142-183 | an admin message from anyone else is refused and leaves the whole storage as it was |
| RelayHistory.AdminIff | base-bridge/polkadot/lib.rs:178-183 | over every run the admin is the deployer's choice or the target of the last transfer by the admin of its moment |
| RelayHistory.WindowIff | base-bridge/polkadot/lib.rs:171-176 | over every run the window is the deployer's choice, five minutes for none, or what the admin of its moment set last |
| RelayHistory.StoredSetIff | base-bridge/polkadot/lib.rs:142-169 | over every run a set is stored exactly as the last registration by the admin of its moment said, and is active exactly if no admin of its moment has revoked it since |
| RelayHistory.AdminCallSucceedsIff | base-bridge/polkadot/lib.rs:142-183 | an admin message succeeds exactly for the admin; a revocation needs a registered set besides |
| RelayHistory.AcceptsIff | base-bridge/polkadot/lib.rs:189-223 | over every run a proof is accepted exactly when an admin registered its set, none revoked it since, the stake meets that registration's threshold and no earlier call accepted the proof |
| RelayHistory.ProofRefusedFor | base-bridge/polkadot/lib.rs:189-223 | and which error it gets otherwise |
| RelayHistory.RelayRefusedFor | base-bridge/polkadot/lib.rs:229-258 | which error a relay gets that is not authorised, in terms of earlier calls |
| RelayHistory.RecordedIff | base-bridge/polkadot/lib.rs:229-274 | a deposit's record is what the last call that relayed or marked it said |
| RelayHistory.LogIsCalls | base-bridge/polkadot/lib.rs:142-274 | the log is the events of the calls that succeeded, in order |
| PinLockout.UnlockGuard.constructor | quantos-wallet-server/src/main.rs:113-113 | no attempts are recorded at the start |
| PinLockout.UnlockGuard.UnlockWallet | quantos-wallet-server/src/routes.rs:183-221 | one request on its own: a bad PIN, a lock, a success that forgets, a failure that counts and locks from the third on |
| PinLockout.UnlockGuard.CheckLock | quantos-wallet-server/src/routes.rs:189-199 | answers whether the key is locked now, changing nothing |
| PinLockout.UnlockGuard.Record | quantos-wallet-server/src/routes.rs:201-221 | success removes the entry; failure counts one more and sets the lock from the third on |
| PinLockout.EveryStretch | quantos-wallet-server/src/routes.rs:183-221 | over every interleaving the failures of a stretch without success are accounted for in rounds of at most k, one lockout apart |
| PinLockout.FailuresAreLimited | quantos-wallet-server/src/routes.rs:180-221 | over every interleaving any stretch of T without a successful unlock of a key holds at most 2 + k (1 + T / 900 s) failed decryptions, k being how many of its requests decrypt at once |
| PinLockout.SequentialFailures | quantos-wallet-server/src/routes.rs:180-221 | one request at a time: at most 3 + T / 900 s |
| PinLockout.BoundIsMet | quantos-wallet-server/src/routes.rs:180-221 | for every T and every k an interleaving reaches the bound |
| PinLockout.TableIsStreak | quantos-wallet-server/src/routes.rs:201-221 | over every interleaving the table holds exactly the failures since the last success, locked from the latest if three or more |
| PinLockout.RateLimitedIff | quantos-wallet-server/src/routes.rs:183-199 | over every interleaving a request goes on to decrypt exactly if its PIN is six digits and its key has not failed three times or more since its last success, the latest less than 900 s ago |
| RateLimiter.Limiter.constructor | explorer-api/src/middleware.ts:70-72 | starts with no entries and the configured limits |
| RateLimiter.Limiter.RateLimitMiddleware | explorer-api/src/middleware.ts:84-114 | admits the master key always and others within the window's limit, and counts every request of the latter |
| RateLimiter.Limiter.CleanUp | explorer-api/src/middleware.ts:75-82 | the loop removes exactly the entries whose window started more than two minutes ago |
| RateLimiter.TablesAgree | explorer-api/src/middleware.ts:75-114 | with and without cleanup the tables differ only in entries stale at some reading |
| RateLimiter.CleanupIsInvisible | explorer-api/src/middleware.ts:75-114 | on every trace whose clock falls back by at most a minute, cleanup changes no answer |
| RateLimiter.MinuteIsSharp | explorer-api/src/middleware.ts:75-114 | one millisecond more and an answer differs |
| RateLimiter.OthersDoNotCount | explorer-api/src/middleware.ts:84-114 | what a caller is answered depends on the requests of callers with their key alone, those without one and those whose key is the word anonymous counting together; the master is always let in and counts for nobody |
| RateLimiter.MinuteIsLimited | explorer-api/src/middleware.ts:84-114 | with cleanup, any closed 60-second interval admits fewer than 2 (perMinute + burst) requests of a non-master key |
| RateLimiter.BoundIsMet | explorer-api/src/middleware.ts:84-114 | for every limit some interval admits 2 (perMinute + burst) - 1 |
| Hexadecimal.HexRoundTrip | bridge-relayer/src/quantos.ts:66-68 | both decoders read encoded bytes back |
| Hexadecimal.DecodesIff | L1/src/rpc/server.rs:2091-2098 | decoding succeeds exactly on an even number of hex digits |
| Hexadecimal.HexOfDecoded | L1/src/rpc/server.rs:2091-2098 | encoding again gives the digits in lower case |
| Hexadecimal.CaseDoesNotMatter | bridge-relayer/src/quantos.ts:66-68 | both decoders read digits of either case alike |
| Hexadecimal.CleanedSpellings | L1/src/rpc/server.rs:2091-2098 | each of the three prefixes is dropped once, and hex text without one is kept |
| Hexadecimal.SpellingsResolve | L1/src/rpc/server.rs:2091-2098 | every transaction hash is found under each of its four spellings |
| BridgeCalldata.ParseBytes32Hex | quantos-wallet-server/src/routes.rs:2114-2133 | accepts exactly 20 or 32 bytes of hex after one prefix, right-aligning an address |
| BridgeCalldata.EncodeUint256Le32 | quantos-wallet-server/src/routes.rs:2108-2112 | the word reads back, little-endian, as the amount |
| BridgeCalldata.DepositCalldata | quantos-wallet-server/src/routes.rs:1020-1023 | 68 bytes with the recipient at 4 and the amount at 36 |
| BridgeCalldata.LeHexToBigInt | bridge-relayer/src/quantos.ts:65-73 | the shifting loop computes the little-endian value |
| BridgeCalldata.AmountSpellings | bridge-relayer/src/quantos.ts:65-73 | the amount's digits are read alike after either prefix in either case |
| BridgeCalldata.DepositIsDecoded | bridge-relayer/src/quantos.ts:182-218 | for every recipient and u128 amount the relayer reads back exactly both, and rejects exactly the zero recipient |
| BridgeCalldata.EvmAddressOfPadded | bridge-relayer/src/relayer.ts:30-33 | the last twenty bytes of a padded address are the address |
| BridgeCalldata.AddressArrives | quantos-wallet-server/src/routes.rs:1018-1023 | every non-zero 20-byte address in any accepted spelling and every u128 amount arrive unchanged; the zero address is refused |
| BridgeCalldata.AcceptedIff | bridge-relayer/src/quantos.ts:112-232 | a transaction is a deposit only with a successful receipt and known to the node: as a transfer exactly when it goes to the token and pays the vault, as a vault deposit exactly when it goes to the vault with the selector and a recipient not all zeros |
| BridgeCalldata.RejectedFor | bridge-relayer/src/quantos.ts:134-232 | which fault a known, successful transaction is turned away for |
| BridgeCalldata.AcceptedIsCalldata | bridge-relayer/src/quantos.ts:182-218 | any accepted text belongs to a transaction that succeeded, went to the vault and spells a deposit call for the recipient and amount reported; in hex digits of either case it is the calldata of the two and names the recipient's last twenty bytes |
| BridgeCalldata.TransferIsDecoded | bridge-relayer/src/quantos.ts:142-179 | a token transfer is a deposit exactly when it pays the vault, for the amount written |
| BridgeEndToEnd.EveryMintIsRead | bridge-relayer/src/relayer.ts:187-323 | over every run each mint is for a transaction with a successful receipt, has the amount its calldata gives, and its address for a vault deposit |
| BridgeEndToEnd.MintIsWhatWasTyped | quantos-wallet-server/src/routes.rs:976-1023 | over every run, spellings of the hash included, a mint for a deposit made in the wallet goes to the address typed, for the number typed in units of the last of eighteen places, and is the only one for that transaction |
| TokenAmount.DecimalRoundTrip | quantos-wallet-server/src/crypto.rs:462-476 | printed decimals are digits with the printed value |
| TokenAmount.ShownLength | quantos-wallet-server/src/crypto.rs:462-476 | with at most the token's places shown, the fraction fills exactly that many digits |
| TokenAmount.DisplayRoundsDown | quantos-wallet-server/src/routes.rs:811-829 | parsing an amount displayed with d of D places gives it rounded down to a multiple of 10^(D-d) |
| TokenAmount.TooManyPlaces | quantos-wallet-server/src/crypto.rs:462-476 | with more places than the token has the amount comes back exactly when its fraction is zero |
| TokenAmount.RoundTripIff | quantos-wallet-server/src/routes.rs:811-829 | for all places, the displayed amount parses to itself rounded down exactly when the token has places and either no more are shown or the fraction is zero |
| TokenAmount.ParseIsExact | quantos-wallet-server/src/routes.rs:811-829 | digits around the point are read as one number in units of the last place, answered exactly when the raw amount fits u128 |
| TokenAmount.PlainIsScaled | quantos-wallet-server/src/routes.rs:811-829 | digits without a point are a whole number of tokens, answered exactly when the raw amount fits |
| TokenAmount.WrittenIsParsed | quantos-wallet-server/src/routes.rs:811-829 | text that writes a number of raw units, with a point or without, is parsed to that number unless it is too big |
| TokenAmount.LongFraction | quantos-wallet-server/src/routes.rs:811-829 | more digits than places are accepted exactly when those that fit are zeros, and dropped |
| TokenAmount.TwoPointsRefused | quantos-wallet-server/src/routes.rs:811-829 | two points are an invalid amount |
| TokenAmount.NumeralIff | quantos-wallet-server/src/routes.rs:811-829 | the integer parser takes digits after a plus sign or none, if the value fits |
| TokenAmount.AmountsAreNumerals | quantos-wallet-server/src/routes.rs:811-829 | nothing but numerals around at most one point is an amount, digits beyond the places aside |

## Left out

- `execute_atomic` as a whole: speculative execution is a stub and rollback looks for a checkpoint the shown path does not create, so all-or-nothing is not decided by the code.
- Release of the current shard when a fresh lock fails verification: that branch releases only earlier shards, so only those are claimed.
- Changes of epoch and of a committee's membership during a lock run: the committee is fixed in each run.
- Scheduling, channels, polling sleeps and guard lifetimes: only their effect as atomic steps is kept.
- AcquireAll: does not state what happens to votes and acknowledgements still in flight after an error.
- TryAcquireShardLock: what happens meanwhile is a list of steps given beforehand, not tasks that run.
- Draw: needs a hash stream that has an acceptable value; a stream without one makes the source loop for ever.
- FinalityProof lengths: keys and signatures of 2^32 bytes or more do not fit their four-byte prefixes and are not covered.
- Relayer rows: a row's recipient and sender are taken as the values their texts write.
- Relayer form: it is modelled on values as steps between awaited calls; in-memory counters, logging, stored transaction hashes and the poll's row limit are not modelled.
- Relayer setup checks and the direction from Base to Quantos: they would only add easy members.
- Rewards: award metadata and the parsing of stored amounts are not modelled; which user gets which bonus is decided for sequential calls only.
- BonusesAreDue: needs the user's own bonus inserts to go through and the user's deposits to be handed in for nobody else; `HasBonusIff` has neither condition.
- RelayVerifier stake evidence: the contract takes the signed stake from its caller, so only what it compares is proved.
- UnlockWallet: the 32-bit failure counter is unbounded here; one request at a time, it takes over 100,000 years without a success to wrap.
- RateLimiter response headers: they would only add easy members.
- BridgeCalldata checksummed address text and the nonce field: not modelled.
- ParseIsExact: text is ASCII; signs accepted by the integer parser are in the model, and fractions longer than the token's places are `Overflow` or dropped zeros as the code has it.
- SHA3, ML-DSA-65, VRF, STARK, PBKDF2 and AES internals, base32 address text, the randomness beacon, command-line tools and user interfaces.
