# Governance service model

A Dafny model of the governance service: a NestJS application that reads governance contracts, caches
what it finds, and prepares vote transactions. It covers the parts of the service that carry an
algorithm or shared state, and proves what they promise over all inputs, all runs and all
interleavings.

| module | what it models |
|---|---|
| `Encoding`, `MerkleTree`, `SnapshotVoting` | Snapshot trees over address balances, their proofs, the trees cached by root hash, and the power and proof that a pulse vote attaches |
| `Rounding`, `VotingPower` | Decimal arithmetic to 20 places and the smoothing of a quorum into voting power |
| `VoteTally`, `VoteHandler`, `VoteLists` | Tallies, percentages and per-user vote lists, the handler that keeps them up to date event by event, and a user's list over several nodes with their own copies |
| `Text`, `CacheKey`, `CacheCoherence` | Cache keys, and the protocol by which writers set shared values and nodes drop their local copies |
| `PendingExecutor` | Single-flight execution of identical requests |
| `CacheWarmer` | The warm pass over on-chain governance |
| `OnChainVote` | Power from direct and delegated stake, and the transactions of a vote |
| `ProposalFile`, `ProposalScan` | The proposal file format and the scan that collects proposals from pull requests and commits |
| `Pagination`, `GlobalIndex` | Pages cut from the end of a list, sorting, and one numbering over several contracts |
| `GuestCounter` | The batched hit counter of guest requests |
| `Energy` | Depletion of a user's energy |
| `Wrappers` | Optional values and outcomes |

Objects whose methods change fields are classes; their methods are proved against functions on
values, and the lemmas are about those functions. Code that waits between two steps is a state
machine whose steps interleave freely (`CacheCoherence`, `PendingExecutor`), or a method for each
uninterrupted handler (`VoteHandler`, `CacheWarmer`, `GuestCounter`, `SnapshotVoting`).

## Assumptions

- The hash is a parameter from byte strings to 32 bytes. No such function is injective on all byte
  strings, so lemmas that need injectivity ask for it on the finite set of byte strings hashed in the
  computation they are about.
- An odd last node of a layer moves up unchanged, and an empty tree has an empty root. Of several equal
  leaves, `VerifiesExactly` and `ProofFoldsToRoot` take any one as the one the proof is of; where one
  has to be named it is the last. These are assumptions about the tree library under `sortPairs`.
- Division and square root keep 20 decimal places and round half up, and `integerValue` and
  `toFixed` round half up: the defaults of the number library.
- `set` on the cache client writes the shared value and the writer's own local copy; a deletion that
  fails has deleted nothing; a value that is missing in both places is computed and stored in one
  step; nothing expires.
- A vote event is handled without another one in between, which a prefetch count of 1
  (`src/modules/rabbitmq/rabbitmq.module.ts:44`) provides, and the runs of events in `VoteHandler` take
  every read to see the previous write. `FillMeetsSharedExactly` and `EventMeetsSharedExactly` say when a
  reader and an event do; `VoteLists` has every node read its own copy, and takes an event as done when
  its invalidation has reached every node.
- The warm pass asks for the current epoch anew for each open proposal, so any one of these reads may
  fail or give another answer; all other answers stay the same during a pass.
- No delegation provider is configured twice (`PowerIsConserved`, `OneTransactionPerSource`).
- The JavaScript sort is stable and calls the comparator; it is modelled as stable insertion.

## Where the code falls short of what one might expect

- `VerifiesExactly`: with no bound on balances, `verifyProof` also accepts a leaf that serializes to
  the 64 bytes the root is hashed from. There is one such leaf if the 33rd of these bytes is not zero,
  and none otherwise (`RootLeafExists`). For a leaf whose balance does not take 32 bytes the answer is
  exactly membership.
- `BallotAuthenticatesExactly`: on a quadratic contract the claimed power is the rounded root while
  the leaf holds the balance, so the proof authenticates the claim only for a balance of 1. The shipped
  configurations list pulse contracts under `linear` alone, so `votePoll` meets the linear case today.
- `SmoothIsNearestRootExactly`: rounding twice misses the nearest integer root just below
  half-integers; the first miss is at about 6.25e38 (`FirstWrongRoot`).
- `IncrementalIsRecomputed`: at a total of 0 the incremental tally holds percentages that are no
  numbers. `DefaultNeverRecovers`: a tally that starts from the default never gets a total.
- `MissCountsTwice`: when no tally is cached and the contract already counts the vote of an event, the
  vote is counted twice. `TallyIsRightExactly` says when a tally is right.
- `OvertakenReadStaysStale`: a read that stores its value after the invalidation of that value went
  through leaves a stale local copy with nothing pending.
- `UnpublishedSetStaysStale`: the reader that fills a user's vote list sets it and drops the key
  (`src/modules/governance/services/governance.compute.service.ts:69-70`), so another node keeps an older
  list with nothing pending, until the key is written again (`StuckUntilWritten`).
  `SetUnpublishedExactly` says when such a set does no harm. Other services drop keys too, for example
  `src/modules/tokens/services/token.service.ts:33`. A reader with an older list takes votes that others
  filled out of the shared one (`ReaderDropsExactly`), and an event's vote if the event's invalidation
  has yet to reach it (`StaleFillDropsVote`); once it has reached all nodes an event's vote stays
  (`EventVotesSurvive`).
- `PowerToldVoteRefusedExactly`: when a provider rejects for want of stake, a user's power is told as 0
  even if there is direct stake, and `vote` fails.
- `HiddenChangesExactly`: a warm pass that fails at a proposal or at a status has set some of them and
  publishes none. While the epoch cannot be read these are the changed statuses of the leading closed
  or passed proposals (`EpochOutageHides`).
- `ScanDistinctExactly`: file names of the results are distinct exactly when no two pull requests propose
  a file of one name (`SameNameTwice`) and no commit names twice a file that only it contributes.
- `IndexIsPositionExactly`: lists are cut at 100 polls or 300 ideas a contract, totals are not, so an
  index is a position only for a listed item of a configured contract, no earlier one of which exceeds
  the threshold.
- `UnknownContractCollides`: the index of an item of an unconfigured contract is that of an item of the first contract.
- `BlankLineAppended`: a blank line turns a text of three lines, which is refused, into one that may parse.
- `SharedIsAllBatchesExactly`: the shared counter lacks batches exactly when the hits lost with dropped
  counters and those unsent fill one; only a clock that steps back does that (`StepBackLosesHits`,
  `CountersAfterRun`).
- `RunIsLastCallExactly`: depleting an entry twice charges the same epochs twice, because the epoch of
  the last update is not advanced.
- `StatusIsDecided`: the final status `None` is never reached.

## Model

| member | source | states |
|---|---|---|
| `Encoding.BigEndianInjective` | src/utils/merkle-tree/markle-tree.utils.ts:84-88 | Two balances serialized alike are equal |
| `Encoding.FromBigEndianRoundTrip` | src/utils/merkle-tree/markle-tree.utils.ts:84-88 | Every byte string without a leading zero is the serialization of a balance |
| `Encoding.BigEndianLength` | src/utils/merkle-tree/markle-tree.utils.ts:84-88 | A balance takes at most k bytes exactly when it is below 256 to the k |
| `Encoding.BigEndianAt` | src/utils/merkle-tree/markle-tree.utils.ts:84-88 | The bytes are the digits of the balance to base 256, the most significant first |
| `Encoding.HexAt` | src/utils/merkle-tree/markle-tree.utils.ts:45-48 | Two lower-case characters a byte, the upper half first |
| `Encoding.HexRoundTrip` | src/utils/merkle-tree/markle-tree.utils.ts:45-48 | Decoding the hexadecimal text of a proof gives back its bytes |
| `Encoding.PrecedesTotal` | src/utils/merkle-tree/markle-tree.utils.ts:18-20 | The byte order that pairs are sorted by is total and asymmetric |
| `MerkleTree.LeafInputInjective` | src/utils/merkle-tree/markle-tree.utils.ts:81-91 | Two leaves are serialized alike exactly when address and balance agree |
| `MerkleTree.LeafInputLength` | src/utils/merkle-tree/markle-tree.utils.ts:81-91 | A leaf is hashed from 64 bytes, like a pair of nodes, exactly when its balance takes 32 bytes |
| `MerkleTree.PairInputDetermines` | src/utils/merkle-tree/markle-tree.utils.ts:18-20 | A sorted pair determines its two nodes up to order |
| `MerkleTree.PairInputIs` | src/utils/merkle-tree/markle-tree.utils.ts:18-20 | The 64 bytes hashed for a pair are exactly its two nodes one after the other, where no first byte to differ is greater in the first |
| `MerkleTree.NextLayerAt` | src/utils/merkle-tree/markle-tree.utils.ts:16-20 | Every node of a layer is the hash of the pair below it, or the odd last node unchanged |
| `MerkleTree.LayersAreTree` | src/utils/merkle-tree/markle-tree.utils.ts:16-24 | Told by indices: the hashed leaves, then layers of sorted pair hashes and promoted odd nodes, up to a single node |
| `MerkleTree.ProofFoldsToRoot` | src/utils/merkle-tree/markle-tree.utils.ts:30-43 | For any number of leaves and any position, the proof of a leaf folds to the root |
| `MerkleTree.DepthIsLogarithm` | src/utils/merkle-tree/markle-tree.utils.ts:68-70 | The depth is the logarithm of the number of leaves, rounded up |
| `MerkleTree.ProofWithinDepth` | src/utils/merkle-tree/markle-tree.utils.ts:38-43 | No proof has more nodes than the tree is deep |
| `MerkleTree.FoldInjective` | src/utils/merkle-tree/markle-tree.utils.ts:30-36 | One proof takes different nodes to different results |
| `MerkleTree.FoldStaysInTree` | src/utils/merkle-tree/markle-tree.utils.ts:30-36 | Anything that folds to a node of the tree is itself a node of the tree |
| `MerkleTree.AnyProofShowsMembership` | src/utils/merkle-tree/markle-tree.utils.ts:30-36 | Soundness: a leaf that folds to the root through any sequence of nodes whatever is a leaf of the tree |
| `MerkleTree.VerifiesExactly` | src/utils/merkle-tree/markle-tree.utils.ts:30-36 | Without a bound on balances, and from whichever of several equal leaves the proof is taken, exactly which leaves `verifyProof` accepts: the leaves of the tree and the leaf serialized like the root pair |
| `MerkleTree.RootLeafExists` | src/utils/merkle-tree/markle-tree.utils.ts:84-90 | The other leaf accepted exists exactly when the 33rd of the 64 bytes the root is hashed from is not zero |
| `MerkleTree.VerifiesIsMembership` | src/utils/merkle-tree/markle-tree.utils.ts:30-36 | For a leaf that is not hashed from 64 bytes, `verifyProof` is true exactly for the leaves of the tree, duplicates included, whichever duplicate the proof is of |
| `MerkleTree.ChunksOfFlatten` | src/utils/merkle-tree/markle-tree.utils.ts:72-79 | Cutting a concatenated proof into 32-byte blocks recovers the proof |
| `MerkleTree.FlattenAt` | src/utils/merkle-tree/markle-tree.utils.ts:72-79 | The nodes of a proof follow each other in the buffer |
| `MerkleTree.MerkleTreeUtils.constructor` | src/utils/merkle-tree/markle-tree.utils.ts:16-24 | The stored tree is the tree over the leaves, told layer by layer |
| `MerkleTree.MerkleTreeUtils.GetRootHash` | src/utils/merkle-tree/markle-tree.utils.ts:55-57 | The hexadecimal text of the single node of the last layer, or nothing for no leaves |
| `MerkleTree.MerkleTreeUtils.GetDepth` | src/utils/merkle-tree/markle-tree.utils.ts:68-70 | The logarithm of the number of leaves, rounded up |
| `MerkleTree.MerkleTreeUtils.VerifyProof` | src/utils/merkle-tree/markle-tree.utils.ts:30-36 | Taking the proof from the tree and folding it decides membership |
| `MerkleTree.MerkleTreeUtils.GetUserLeaf` | src/utils/merkle-tree/markle-tree.utils.ts:50-53 | The first leaf of an address, or none exactly if there is none |
| `MerkleTree.MerkleTreeUtils.GetProofBuffer` | src/utils/merkle-tree/markle-tree.utils.ts:45-48 | The concatenation loop and the decoding give 32 bytes a node, no more nodes than the depth, nothing lost, and a fold to the root for a leaf of the tree |
| `SnapshotVoting.BallotNeverLacksLeaf` | src/modules/governance/services/governance.pulse.service.ts:41-61 | `votePoll` asks for a proof only for a sender with a leaf, and succeeds exactly when the smoothed balance is positive |
| `SnapshotVoting.BallotAuthenticates` | src/modules/governance/services/governance.pulse.service.ts:41-61 | A vote whose power is the balance carries a proof that folds to the root |
| `SnapshotVoting.BalanceIs` | src/modules/governance/services/governance.token.snapshot.merkle.service.ts:32-35 | The balance of an address is that of its first leaf wherever it stands, and 0 exactly without one |
| `SnapshotVoting.BallotOfFirst` | src/modules/governance/services/governance.pulse.service.ts:41-61 | For either smoothing, the power is the smoothed balance of the sender's first leaf, and the vote is refused if that is 0 |
| `SnapshotVoting.BallotOfNone` | src/modules/governance/services/governance.pulse.service.ts:43-46 | A sender without a leaf is refused |
| `SnapshotVoting.LinearBallotAuthenticates` | src/modules/governance/services/governance.pulse.service.ts:41-61 | Every sender whose first leaf has a positive balance gets, on a linear contract, a ballot whose power is that balance and whose proof folds to the root |
| `SnapshotVoting.CvadraticFixedPoints` | src/modules/governance/services/governance.pulse.service.ts:371-378 | Square-root smoothing leaves exactly 0 and 1 unchanged |
| `SnapshotVoting.BallotAuthenticatesExactly` | src/modules/governance/services/governance.pulse.service.ts:330-335 | For any balances, several of the sender included, the claimed power and the proof make an authenticated leaf exactly on linear contracts or for a balance of 1 |
| `SnapshotVoting.ProofIsOfFirstLeaf` | src/modules/governance/services/governance.pulse.service.ts:55-61 | The proof attached folds from the sender's first leaf to the root |
| `SnapshotVoting.SameProofSameLeaf` | src/modules/governance/services/governance.pulse.service.ts:47-50 | One proof authenticates one leaf |
| `SnapshotVoting.SmoothAtMost` | src/modules/governance/services/governance.pulse.service.ts:371-378 | Smoothing never gives more power than the balance |
| `SnapshotVoting.ForeignPowerFails` | src/modules/governance/services/governance.pulse.service.ts:47-50 | No proof of any origin authenticates a power that is the balance of no leaf of the sender |
| `SnapshotVoting.LoadedStays` | src/modules/governance/services/governance.token.snapshot.merkle.service.ts:19-26 | A root once loaded answers the same after any other load and any change of its file |
| `SnapshotVoting.SameRootSameTree` | src/modules/governance/services/governance.pulse.service.ts:55-61 | With an unchanged root hash, power and proof are taken from the same tree, though each looks it up |
| `SnapshotVoting.VoteAcrossRoots` | src/modules/governance/services/governance.pulse.service.ts:43-61 | With the root changed in between, the power is of the first tree and the proof folds to the second root |
| `SnapshotVoting.VoteAcrossRootsFails` | src/modules/governance/services/governance.pulse.service.ts:55-61 | And fails for a sender no longer listed |
| `SnapshotVoting.LoadExactly` | src/modules/governance/services/governance.token.snapshot.merkle.service.ts:41-51 | A file is taken exactly if the hexadecimal root of its leaves is the one asked for, and which failure is given otherwise |
| `SnapshotVoting.GovernanceTokenSnapshotMerkleService.constructor` | src/modules/governance/services/governance.token.snapshot.merkle.service.ts:12-17 | The service starts with no tree |
| `SnapshotVoting.GovernanceTokenSnapshotMerkleService.GetMerkleTree` | src/modules/governance/services/governance.token.snapshot.merkle.service.ts:19-26 | The cached tree, else the one on file; every tree cached under a root has that root |
| `SnapshotVoting.GovernanceTokenSnapshotMerkleService.CreateMerkleTree` | src/modules/governance/services/governance.token.snapshot.merkle.service.ts:38-52 | A tree is cached only if its root is the one asked for; otherwise it fails and the cache stays |
| `SnapshotVoting.GovernanceTokenSnapshotMerkleService.GetAddressBalance` | src/modules/governance/services/governance.token.snapshot.merkle.service.ts:28-36 | The balance of the first leaf of the address, wherever it stands, or 0 |
| `SnapshotVoting.GovernancePulseService.GetUserVotingPower` | src/modules/governance/services/governance.pulse.service.ts:330-335 | The smoothed balance under the current root |
| `SnapshotVoting.GovernancePulseService.GetProof` | src/modules/governance/services/governance.pulse.service.ts:55-61 | The proof of the first leaf of the address, and a failure if there is none |
| `SnapshotVoting.GovernancePulseService.VotePoll` | src/modules/governance/services/governance.pulse.service.ts:41-53 | Power first, refusal if it is not positive, then the proof, with the root asked for twice |
| `Rounding.RoundsTo` | src/modules/governance/services/governance.service.ts:128-135 | When rounding half up gives a certain integer |
| `Rounding.RoundMonotone` | src/modules/governance/services/governance.service.ts:128-135 | Rounding half up is monotone |
| `VotingPower.ScaledSqrt` | src/modules/governance/services/governance.service.ts:131 | The square root to 20 places, as the nearest multiple of the last place |
| `VotingPower.NearestRootUnique` | src/modules/governance/services/governance.service.ts:131 | There is one nearest integer root |
| `VotingPower.SmoothIsNearestRootExactly` | src/modules/governance/services/governance.service.ts:131 | Exactly for which quorums the doubly rounded power is the nearest integer root |
| `VotingPower.SmoothMissesUpward` | src/modules/governance/services/governance.service.ts:131 | Where it is not, it is the next integer |
| `VotingPower.SmoothIsNearestRoot` | src/modules/governance/services/governance.service.ts:131 | It is for every quorum below about 6.25e38 |
| `VotingPower.FirstWrongRoot` | src/modules/governance/services/governance.service.ts:131 | At that bound it is not |
| `VotingPower.SmoothMonotone` | src/modules/governance/services/governance.service.ts:128-135 | More quorum never gives less power, for either smoothing |
| `VotingPower.SmoothSquare` | src/modules/governance/services/governance.service.ts:131 | A square gives its root |
| `VotingPower.DecimalsOfPower` | src/modules/governance/services/governance.service.ts:109-114 | `votingPowerDecimals` is half the decimals of the fee token rounded down, or all of them when linear, for any number of decimals |
| `VotingPower.DecimalLength` | src/modules/governance/services/governance.service.ts:113 | Counting digits finds the power of ten |
| `VoteTally.PercentWithinHalf` | src/modules/governance/services/governance.abi.service.ts:311-338 | A percentage is within half a hundredth of the true one, up to the last kept place of the quotient |
| `VoteTally.PercentNotHalfBelow` | src/modules/governance/services/governance.abi.service.ts:311-338 | A percentage is never a full half of a hundredth below the true one |
| `VoteTally.PercentagesSum` | src/modules/governance/services/governance.abi.service.ts:311-338 | The four percentages of a positive total sum to at least 99.99 and at most 100.02 |
| `VoteTally.PercentagesSumIsTight` | src/modules/governance/services/governance.abi.service.ts:311-338 | Both bounds are reached |
| `VoteTally.TallyIs` | src/modules/governance/services/governance.abi.service.ts:299-340 | Every class has its own count, and its own percentage within the bounds; with no votes the percentages are plain zeros |
| `VoteTally.IncreaseAllCounts` | src/modules/rabbitmq/handlers/governance.handler.service.ts:79-98 | After any votes all counts, the total and the quorum are the accumulated ones |
| `VoteTally.IncrementalIsRecomputed` | src/modules/rabbitmq/handlers/governance.handler.service.ts:79-105 | After any sequence of votes the incremental tally equals `proposalVotesRaw` in every field exactly when there were no votes or the total is positive |
| `VoteTally.IncrementalIsRightExactly` | src/modules/rabbitmq/handlers/governance.handler.service.ts:79-105 | Started from any counts, the incremental tally is the one recomputed from others exactly when the counts are the same and no votes leave a total of 0 |
| `VoteTally.TotalIsConserved` | src/modules/rabbitmq/handlers/governance.handler.service.ts:83-98 | The total is the sum of the four classes and grows by the votes cast |
| `VoteTally.ClassesCollect` | src/modules/rabbitmq/handlers/governance.handler.service.ts:83-98 | Each class of the incremental tally grows by the votes of that class, the total by all votes, the quorum by all quorum used |
| `VoteTally.CountsCollect` | src/modules/governance/services/governance.abi.service.ts:299-303 | So do the counts of the contract |
| `VoteTally.PercentagesAfterVote` | src/modules/rabbitmq/handlers/governance.handler.service.ts:99-102 | After a vote each percentage is that of its own class, and no number without a positive total |
| `VoteTally.DefaultNeverRecovers` | src/modules/rabbitmq/handlers/governance.handler.service.ts:79-105 | From any tally without a total no votes ever lead to a total or a percentage |
| `VoteTally.DefaultTallyNeverRecovers` | src/modules/governance/models/governance.proposal.votes.model.ts:30-38 | The default tally is such a start: after any votes it is the recomputed tally of no counts |
| `VoteHandler.Unique` | src/modules/rabbitmq/handlers/governance.handler.service.ts:39 | The list through a set has the same members, each once |
| `VoteHandler.UniqueKeepsDistinct` | src/modules/rabbitmq/handlers/governance.handler.service.ts:33-40 | An already duplicate-free list only grows at its end |
| `VoteHandler.Position` | src/modules/rabbitmq/handlers/governance.handler.service.ts:44 | `find` gives the first entry of the proposal, or none exactly if there is none |
| `VoteHandler.LookupAfterStep` | src/modules/rabbitmq/handlers/governance.handler.service.ts:43-57 | One event update or reader fill keeps one entry a proposal and changes the lookup of that proposal only |
| `VoteHandler.VoteListAfterSteps` | src/modules/governance/services/governance.compute.service.ts:50-72 | For steps on one list: after any mix of event updates and reader fills there is one entry a proposal and lookups give the last event, else the first fill |
| `VoteHandler.EventMeetsSharedExactly` | src/modules/rabbitmq/handlers/governance.handler.service.ts:43-57 | Exactly when an event handled from an own copy leaves the list it would leave of the shared one |
| `VoteLists.EventVotesSurvive` | src/modules/rabbitmq/handlers/governance.handler.service.ts:43-57 | On any number of nodes with own copies of any age: every list, shared or own, keeps one entry a proposal, and has the vote of the last event on it |
| `VoteLists.ReaderSeesLastEvent` | src/modules/governance/services/governance.compute.service.ts:50-72 | So a reader on any node is answered with the vote of the last event |
| `VoteLists.ReaderDropsExactly` | src/modules/governance/services/governance.compute.service.ts:69-70 | Exactly when a reader drops an entry from the shared list: its own copy lacks that entry and the one it fills |
| `VoteLists.ReaderKeepsCopy` | src/modules/governance/services/governance.compute.service.ts:51-70 | A reader keeps the list it saw with its answer as own copy; other nodes keep theirs |
| `VoteLists.EventDropsCopies` | src/modules/rabbitmq/handlers/governance.handler.service.ts:53-68 | After an event no node has an own copy, and the shared list is the handler's with the event's vote |
| `VoteHandler.LastEventDecides` | src/modules/governance/services/governance.compute.service.ts:50-72 | The last event on a proposal decides its lookup, whatever fills come after |
| `VoteHandler.FillMeetsSharedExactly` | src/modules/governance/services/governance.compute.service.ts:51-70 | Exactly when a reader, who goes by the own copy first, leaves the shared list as one fill of that list would |
| `VoteHandler.StaleFillDropsVote` | src/modules/governance/services/governance.compute.service.ts:69-70 | A reader with an older copy takes the vote of an event out of the shared list again |
| `VoteHandler.VoteTypesCache.UserVotedProposalsWithVoteType` | src/modules/governance/services/governance.compute.service.ts:50-72 | The answer is the vote of the list read, else the indexed one; the list with it is set shared and locally, other nodes keep their copies |
| `VoteHandler.OnlyPublishedKeysChange` | src/modules/rabbitmq/handlers/governance.handler.service.ts:33-68 | An event changes the cache only under the three keys it publishes |
| `VoteHandler.EventVote` | src/modules/rabbitmq/handlers/governance.handler.service.ts:43-57 | After an event the user's lookup of its proposal is the vote type of its kind, and no other lookup changes |
| `VoteHandler.EventTally` | src/modules/rabbitmq/handlers/governance.handler.service.ts:79-98 | After an event the votes are in the class of its kind and in the total, and its quorum is added |
| `VoteHandler.EventVotedList` | src/modules/rabbitmq/handlers/governance.handler.service.ts:32-40 | After an event the list of proposals has what was cached, or what the contract answered on a miss, and the event's proposal |
| `VoteHandler.GovernanceHandlerService.HandleGovernanceVoteEvent` | src/modules/rabbitmq/handlers/governance.handler.service.ts:28-72 | The whole new cache after an event, and the keys published, held ones first |
| `VoteHandler.GovernanceHandlerService.DeleteCacheKeys` | src/modules/rabbitmq/handlers/governance.handler.service.ts:74-77 | All held keys are published and none is held after |
| `VoteHandler.GovernanceHandlerService.IncreaseProposalVotes` | src/modules/rabbitmq/handlers/governance.handler.service.ts:79-105 | The field-by-field update is one step of the incremental tally |
| `VoteHandler.TallyAfterEvents` | src/modules/rabbitmq/handlers/governance.handler.service.ts:60-65 | In a run over any contracts, users and proposals, a tally collects exactly the votes on its proposal |
| `VoteHandler.CachedTallyIsRecomputed` | src/modules/governance/services/governance.abi.service.ts:299-340 | In such a run a cached tally equals the one recomputed from the accumulated counts exactly when no votes were cast on it or its total is positive |
| `VoteHandler.TallyIsRightExactly` | src/modules/rabbitmq/handlers/governance.handler.service.ts:79-105 | Cached at the start or read on a miss: the tally is the one recomputed from the accumulated counts exactly when it started from the counts without the votes of the run, and no votes were cast or their total is positive |
| `VoteHandler.MissCountsTwice` | src/modules/rabbitmq/handlers/governance.handler.service.ts:80-84 | A contract that already counts the vote on a miss has it counted twice, unless it is for nothing and others have voted |
| `VoteHandler.VoteTypesAfterEvents` | src/modules/rabbitmq/handlers/governance.handler.service.ts:43-57 | A cached vote list collects exactly the votes of its user on its contract, in order |
| `VoteHandler.LastEventIsListed` | src/modules/rabbitmq/handlers/governance.handler.service.ts:43-57 | In any run the last event of a user on a proposal decides the vote type listed, cached at the start or not |
| `VoteHandler.VotedProposalsAfterEvents` | src/modules/rabbitmq/handlers/governance.handler.service.ts:33-40 | Every proposal voted on in a run is listed once for its voter |
| `VoteHandler.VotedListExactly` | src/modules/rabbitmq/handlers/governance.handler.service.ts:32-40 | After any run a user's list of proposals has exactly what it started from and what the user voted on |
| `CacheKey.GenerateCacheKeyFromParams` | src/utils/generate-cache-key.ts:8-18 | The loop and the cut join the parts with dots, and splitting recovers a non-empty list of dot-free parts |
| `CacheKey.KeysMeetExactly` | src/utils/generate-cache-key.ts:8-18 | When two lists of dot-free parts get the same key |
| `CacheKey.GovernanceKeysDistinct` | src/modules/governance/services/governance.setter.service.ts:22-83 | Different values of the governance cache have different keys |
| `CacheKey.RenderedIs` | src/modules/governance/services/governance.setter.service.ts:22-83 | Every key as it is written |
| `CacheKey.SetterMeetsReader` | src/helpers/decorators/caching.decorator.ts:22-27 | A setter writes the key a cached method reads exactly when base key, method and arguments agree |
| `Text.SplitJoin` | src/utils/generate-cache-key.ts:8-18 | Splitting a joined list of separator-free parts recovers it |
| `Text.DecimalInjective` | src/utils/generate-cache-key.ts:14 | Two numbers rendered alike are equal |
| `Text.DecimalReadsBack` | src/utils/generate-cache-key.ts:14 | A number is written in digits that stand for it, without leading zeros |
| `CacheCoherence.NodesCanAct` | src/helpers/decorators/caching.decorator.ts:29-36 | A node can always write and delete, and a read finds its own copy, the shared value, or computes, exactly one of these |
| `CacheCoherence.WriteIsSeen` | src/services/generics/generic.setter.service.ts:16-24 | A written value is the shared one and the writer's own copy, and nothing else changes |
| `CacheCoherence.DeletionIsSeen` | src/services/generics/generic.setter.service.ts:26-40 | A deleted value is in neither place and computed by the writer's next read |
| `CacheCoherence.PublicationReachesAll` | src/modules/rabbitmq/handlers/governance.handler.service.ts:74-77 | Every node is sent all keys the writer held, once, and the writer holds none after |
| `CacheCoherence.DeliveryDrops` | src/endpoints/cache/cache.controller.ts:14-19 | A node that gets a message drops its copies of the keys in it and no others |
| `CacheCoherence.DeliveryOvertakes` | src/endpoints/cache/cache.controller.ts:14-19 | Exactly the reads of those keys in progress on that node are overtaken |
| `CacheCoherence.ReadGetsShared` | src/helpers/decorators/caching.decorator.ts:31-36 | A read that misses locally stores the shared value as it was when the read began |
| `CacheCoherence.ComputedIsShared` | src/helpers/decorators/caching.decorator.ts:31-36 | A value computed on a miss is then the shared one and the own copy |
| `CacheCoherence.StepKeepsCoherence` | src/services/generics/generic.setter.service.ts:16-40 | Each step keeps, exactly if it is harmless where it is taken: a local copy that is not the shared value has an invalidation in flight to its node or held by a writer |
| `CacheCoherence.SetUnpublishedExactly` | src/modules/governance/services/governance.compute.service.ts:69-70 | Setting a value without publishing its key keeps coherence exactly when every other copy and every fetch not overtaken has that value or an invalidation pending |
| `CacheCoherence.RunKeepsCoherence` | src/endpoints/cache/cache.controller.ts:14-19 | A run of writers that publish and writers that do not, publications, deliveries and two-step reads is coherent throughout exactly when each of its steps is harmless |
| `CacheCoherence.OrderlyIsHarmless` | src/services/generics/generic.setter.service.ts:16-40 | So are all runs in which every writer keeps its keys for publication and no overtaken read is stored |
| `CacheCoherence.StaleCopiesArePending` | src/modules/rabbitmq/handlers/governance.handler.service.ts:74-77 | In such a run from an empty start every stale copy has an invalidation pending, and all copies agree when none is |
| `CacheCoherence.Drain` | src/modules/rabbitmq/handlers/governance.handler.service.ts:41-77 | From every coherent state, publishing and delivering what is left leads to agreement without changing a shared value |
| `CacheCoherence.FinishReadExactly` | src/helpers/decorators/caching.decorator.ts:31-36 | Storing a fetched value keeps coherence exactly when the value is current or an invalidation is pending |
| `CacheCoherence.OvertakenReadStaysStale` | src/helpers/decorators/caching.decorator.ts:31-36 | From every quiet state where a read can start, a run that leaves a stale copy with nothing pending |
| `CacheCoherence.GenericSetterService.SetData` | src/services/generics/generic.setter.service.ts:16-24 | The shared value and the own copy are set, all others stay, and the key is handed back for publication |
| `CacheCoherence.UnpublishedSetStaysStale` | src/modules/governance/services/governance.compute.service.ts:69-70 | From every quiet state where another node has a different copy, a run that ends quiet with that copy stale |
| `CacheCoherence.StuckUntilWritten` | src/modules/governance/services/governance.compute.service.ts:69-70 | Such a copy stays, whatever else happens, until someone writes the key again |
| `CacheCoherence.GenericSetterService.DelData` | src/services/generics/generic.setter.service.ts:26-40 | The shared value and the own copy are removed, all others stay, and the key is handed back; a failing deletion changes nothing and fails for the caller |
| `CacheCoherence.CacheController.DeleteCacheKey` | src/endpoints/cache/cache.controller.ts:14-19 | Exactly the published keys are dropped locally |
| `PendingExecutor.StepKeepsInv` | src/utils/pending.executor.ts:8-27 | Arrivals, settlements and answers in any order keep the invariant: unsettled runs are in the table, each with the one waiting caller that started it |
| `PendingExecutor.SingleFlight` | src/utils/pending.executor.ts:14-26 | In every run from a state that keeps the invariant at most one execution of a key is unsettled, and the table is empty when no one waits |
| `PendingExecutor.SingleFlightFromStart` | src/utils/pending.executor.ts:4-26 | So in every run of a new executor |
| `PendingExecutor.JoinedForever` | src/utils/pending.executor.ts:15-16 | A call stays with the run it joined |
| `PendingExecutor.AnswerIsOfJoinedRun` | src/utils/pending.executor.ts:14-23 | Every caller gets the outcome of the run in the table when it came, or of the new run it started |
| `PendingExecutor.JoinsOrStarts` | src/utils/pending.executor.ts:14-20 | A call joins the run in the table and starts none, or starts one of its own and enters it |
| `PendingExecutor.OutcomeStays` | src/utils/pending.executor.ts:19-23 | A run keeps the outcome it settled with |
| `PendingExecutor.AnswerIsTheOutcome` | src/utils/pending.executor.ts:15-23 | Every caller's answer is what the run it joined settled with |
| `PendingExecutor.NobodyIsStuck` | src/utils/pending.executor.ts:8-27 | A new call is always taken, a run can settle either way, and a waiting call is answered once its run settled |
| `PendingExecutor.AnswerRemovesOwnEntry` | src/utils/pending.executor.ts:24-26 | Leaving removes the entry of the own run and no other, and nothing if the caller only joined |
| `PendingExecutor.Executor.constructor` | src/utils/pending.executor.ts:4-6 | The table starts empty |
| `PendingExecutor.Executor.Execute` | src/utils/pending.executor.ts:14-20 | Up to the wait, the method is the arrival step |
| `PendingExecutor.Executor.Resume` | src/utils/pending.executor.ts:22-26 | After the wait, the method is the answer step |
| `CacheWarmer.LastNonce` | src/services/crons/governance.cache.warmer.service.ts:82-89 | The last nonce is positive exactly for a positive integer, and then that integer or 200 if that is less |
| `CacheWarmer.StatusIsDecided` | src/modules/governance/services/governance.onchain.abi.service.ts:509-528 | A closed or passed proposal has its outcome, and exactly the open ones are pending, active or waiting to be closed |
| `CacheWarmer.StatusAdvances` | src/modules/governance/services/governance.onchain.abi.service.ts:516-525 | As epochs pass an open proposal goes from pending to active to waiting to be closed and never back, active exactly in its voting period, and waiting to be closed right after it |
| `CacheWarmer.Fetched` | src/services/crons/governance.cache.warmer.service.ts:91-99 | The proposals 1, 2, ... of the chain up to the last nonce or the first failing read |
| `CacheWarmer.StatusesRead` | src/services/crons/governance.cache.warmer.service.ts:119-130 | Their statuses up to the first that cannot be found out |
| `CacheWarmer.EpochOutage` | src/modules/governance/services/governance.onchain.abi.service.ts:510-516 | While no epoch can be read, the statuses found out are exactly those of the leading closed or passed proposals |
| `CacheWarmer.VotesOfAt` | src/modules/governance/services/governance.onchain.abi.service.ts:187-237 | The votes written for a proposal are its tally |
| `CacheWarmer.VotesAre` | src/modules/governance/services/governance.onchain.abi.service.ts:193-236 | Yes, no, veto and abstain votes, their total and the quorum are each the proposal's own |
| `CacheWarmer.WriteAt` | src/services/crons/governance.cache.warmer.service.ts:93-100 | Which entries a stage overwrites, with what, and that it leaves the others |
| `CacheWarmer.CompletePassMirrorsChain` | src/services/crons/governance.cache.warmer.service.ts:50-64 | After a pass in which every read succeeds, from any cache: cached proposals are the chain's, statuses and votes derive from them, and the list has each proposal in nonce order with its own status and the rest told of its nonce |
| `CacheWarmer.CutPassMirrorsWhatItRead` | src/services/crons/governance.cache.warmer.service.ts:50-64 | Wherever a pass ends, what it read is cached, and later stages have left their entries alone |
| `CacheWarmer.PassIsIdempotent` | src/services/crons/governance.cache.warmer.service.ts:50-64 | A second pass over the same chain state changes nothing, wherever the first ended |
| `CacheWarmer.CompletePassPublishesItsChanges` | src/services/crons/governance.cache.warmer.service.ts:184-186 | A complete pass publishes every key under which it changed anything |
| `CacheWarmer.PublishedExactly` | src/services/crons/governance.cache.warmer.service.ts:184-186 | Any pass publishes exactly the keys it wrote under in the stages it finished |
| `CacheWarmer.PublishedInOrder` | src/services/crons/governance.cache.warmer.service.ts:50-64 | A complete pass publishes stage by stage, each stage in nonce order |
| `CacheWarmer.HiddenChangesExactly` | src/services/crons/governance.cache.warmer.service.ts:93-132 | For every pass, whichever read it fails at, exactly which of its changes are never published |
| `CacheWarmer.EpochOutageHides` | src/services/crons/governance.cache.warmer.service.ts:119-132 | With no epoch to be read, these are exactly the changed statuses of the leading closed or passed proposals |
| `CacheWarmer.ConversionsKeepEntries` | src/modules/governance/services/governance.onchain.abi.service.ts:167-171 | Reading the list adds statuses to the cache, those the chain answers, and changes none |
| `CacheWarmer.ConvertedExactly` | src/modules/governance/services/governance.onchain.abi.service.ts:462-473 | Exactly which statuses are cached after reading the list |
| `CacheWarmer.ListingMirrorsChain` | src/modules/governance/services/governance.onchain.abi.service.ts:149-172 | Through any faithful cache, cold, partly or fully filled, the list has each proposal in nonce order with its own status and the rest told of its nonce, and fails exactly where the pass would |
| `CacheWarmer.GovernanceCacheWarmerService.DeleteCacheKeys` | src/services/crons/governance.cache.warmer.service.ts:184-186 | The keys are published as given |
| `CacheWarmer.GovernanceCacheWarmerService.GetProposalCached` | src/modules/governance/services/governance.onchain.abi.service.ts:162-165 | The cached proposal, else the chain's, which is then cached |
| `CacheWarmer.GovernanceCacheWarmerService.InvalidateConfig` | src/services/crons/governance.cache.warmer.service.ts:66-76 | The configuration is cached and published, or nothing changes |
| `CacheWarmer.GovernanceCacheWarmerService.InvalidateProposalsRaw` | src/services/crons/governance.cache.warmer.service.ts:78-104 | The loop caches every proposal it reads, and publishes only if it read them all |
| `CacheWarmer.GovernanceCacheWarmerService.InvalidateProposalsStatuses` | src/services/crons/governance.cache.warmer.service.ts:107-133 | Every status up to the first that cannot be found out is cached, and all are published if there is none such |
| `CacheWarmer.GovernanceCacheWarmerService.InvalidateProposalsVotes` | src/services/crons/governance.cache.warmer.service.ts:136-162 | Every proposal's tally, read through the cache, is cached and published |
| `CacheWarmer.GovernanceCacheWarmerService.ProposalsRaw` | src/modules/governance/services/governance.onchain.abi.service.ts:149-172 | On any cache: what reading the list answers, and what it leaves cached |
| `CacheWarmer.GovernanceCacheWarmerService.ReadProposals` | src/modules/governance/services/governance.onchain.abi.service.ts:160-165 | The proposals through the cache up to the first that can be read from neither |
| `CacheWarmer.GovernanceCacheWarmerService.ConvertAll` | src/modules/governance/services/governance.onchain.abi.service.ts:462-507 | A conversion that fails makes the list fail and keeps none of the others from caching its status |
| `CacheWarmer.ListingWarm` | src/modules/governance/services/governance.onchain.abi.service.ts:149-172 | On a warmed cache reading the list changes nothing, and gives the proposals with their statuses unless a remaining read fails |
| `CacheWarmer.ListingWarmIs` | src/modules/governance/services/governance.onchain.abi.service.ts:149-172 | And each entry has its own proposal and status, and the rest told of its nonce |
| `CacheWarmer.GovernanceCacheWarmerService.InvalidateAllProposals` | src/services/crons/governance.cache.warmer.service.ts:164-182 | The list is cached and its key published, or neither if it cannot be read |
| `CacheWarmer.GovernanceCacheWarmerService.WarmOnChainGovernance` | src/services/crons/governance.cache.warmer.service.ts:50-64 | The five stages in order make the specified pass, cut short at the first failing read of any stage |
| `OnChainVote.ComputeUserVotingPower` | src/modules/governance/services/governance.onchain.abi.service.ts:364-386 | The sum over direct and delegated power; a provider that rejects makes it fail, or 0 for want of stake |
| `OnChainVote.DirectCounts` | src/modules/governance/services/governance.onchain.abi.service.ts:350-377 | A direct stake adds its whole amount, none adds nothing, and a failing read fails |
| `OnChainVote.DelegatedPowerIs` | src/modules/governance/services/governance.onchain.abi.service.ts:372-375 | The delegated power is the sum of what the rows say, and no number exactly if one row has none |
| `OnChainVote.CastVote` | src/modules/governance/services/governance.onchain.abi.service.ts:311-342 | The loop builds the specified transactions, direct vote last; a provider that rejects ends it |
| `OnChainVote.DirectVoteExactly` | src/modules/governance/services/governance.onchain.abi.service.ts:329-339 | A direct transaction is built exactly if there is a positive stake and no direct vote yet |
| `OnChainVote.DelegateVotesInOrder` | src/modules/governance/services/governance.onchain.abi.service.ts:314-327 | Transactions come in the order of the providers, one for each that has power and no vote |
| `OnChainVote.FailuresAre` | src/modules/governance/services/governance.onchain.abi.service.ts:311-386 | Which failure a vote and a question for the power end with |
| `OnChainVote.PowerToldVoteRefusedExactly` | src/modules/governance/services/governance.onchain.abi.service.ts:311-386 | A power is told and no vote can be built exactly when a provider rejects for want of stake; the power told is then 0, whatever the direct stake |
| `OnChainVote.RowsAre` | src/modules/governance/services/governance.onchain.abi.service.ts:393-424 | What the row of each provider says: no power exactly if it is disabled, has no snapshot or answered zero, and a transaction due exactly if it has power and no vote |
| `OnChainVote.PowerIsConserved` | src/modules/governance/services/governance.onchain.abi.service.ts:311-386 | The power behind the transactions that are built, each looked up at its source, plus the power already cast is the direct stake plus the delegated power, which is the power told |
| `OnChainVote.OneTransactionPerSource` | src/modules/governance/services/governance.onchain.abi.service.ts:315-339 | Exactly the sources that have not voted and whose power is not zero get a transaction, none gets two |
| `OnChainVote.CastPowerIsPositive` | src/modules/governance/services/delegate-governance.service.ts:87-106 | A transaction has positive power behind it exactly when its source gave a readable answer |
| `OnChainVote.SecondVoteBuildsNothing` | src/modules/governance/services/governance.onchain.abi.service.ts:316-331 | Once all transactions went through, a second vote with the same powers builds none |
| `OnChainVote.VotedAfterExactly` | src/modules/governance/services/governance.onchain.abi.service.ts:316-338 | The contracts voted at after that are those before and those that a transaction goes to |
| `ProposalFile.ParseFileContent` | src/modules/governance/services/github.service.ts:249-279 | The parser takes the parts by position counted from both ends, and fails on too few or only blank lines |
| `ProposalFile.ParseIs` | src/modules/governance/services/github.service.ts:250-276 | Title, description and proposer are the first two lines and the last that is not blank, cleaned; the content is what is between, with the old address replaced |
| `ProposalFile.ParseFails` | src/modules/governance/services/github.service.ts:252-267 | A text is refused exactly if it has fewer than four lines or only blank ones |
| `ProposalFile.CountEmptyLines` | src/modules/governance/services/github.service.ts:258-265 | The loop finds the length of the blank tail |
| `ProposalFile.ReplaceLength` | src/modules/governance/services/github.service.ts:256-257 | `replace` changes the length only if the pattern occurs, and nothing otherwise |
| `ProposalFile.ReplaceFirstIs` | src/modules/governance/services/github.service.ts:256-257 | The pattern is replaced where it first stands, and nowhere else |
| `ProposalFile.TrimIs` | src/modules/governance/services/github.service.ts:256-257 | Trimming cuts the blank margins off and nothing else |
| `ProposalFile.CleanIs` | src/modules/governance/services/github.service.ts:256-257 | A header line loses its margins, then the first opening and the first closing mark |
| `ProposalFile.CommentStripped` | src/modules/governance/services/github.service.ts:256-257 | A header line in a comment is read as what the comment holds |
| `ProposalFile.AddressRewritten` | src/modules/governance/services/github.service.ts:268-269 | The old address is read as the new one |
| `ProposalFile.CleanFixesPlainLines` | src/modules/governance/services/github.service.ts:256-257 | Cleaning leaves a line alone exactly when it is trimmed and has no comment markers |
| `ProposalFile.FixUrlFixes` | src/modules/governance/services/github.service.ts:268-269 | The rewriting leaves a content alone exactly when it lacks the old address |
| `ProposalFile.BlankProposerIsLost` | src/modules/governance/services/github.service.ts:267 | A file with a blank proposer is never read back as it was |
| `ProposalFile.RoundTrip` | src/modules/gov-github/gov-github.service.ts:93 | Parsing what `createProposal` prints gives the same file exactly when the file is printable |
| `ProposalFile.LinesOfPrint` | src/modules/gov-github/gov-github.service.ts:93 | The printed lines are title, description, the lines of the content, and proposer |
| `ProposalFile.CommentsAreRead` | src/modules/governance/services/github.service.ts:249-279 | A file whose title, description and proposer are in comments is read as the one without |
| `ProposalFile.BlankLineAppended` | src/modules/governance/services/github.service.ts:258-265 | One more blank line changes the outcome exactly for texts of three lines |
| `ProposalFile.BlankLinesChangeNothing` | src/modules/governance/services/github.service.ts:258-268 | Any number of blank lines after at least four lines changes nothing |
| `ProposalScan.GetGithubProposalsRaw` | src/modules/governance/services/github.service.ts:101-247 | The loops over pull requests and commits collect the specified results |
| `ProposalScan.ScanPullRequests` | src/modules/governance/services/github.service.ts:108-141 | Pull requests come first and their files count as seen |
| `ProposalScan.PullResultIs` | src/modules/governance/services/github.service.ts:118-136 | A pull request has a result exactly when one of its files, and no other, is an added proposal that can be fetched and parsed |
| `ProposalScan.PullResultsAre` | src/modules/governance/services/github.service.ts:108-141 | The results from pull requests are exactly what some pull request proposes |
| `ProposalScan.PullResultsDistinctExactly` | src/modules/governance/services/github.service.ts:108-141 | Results from pull requests have distinct file names exactly when no two propose a file of one name |
| `ProposalScan.SameNameTwice` | src/modules/governance/services/github.service.ts:120-133 | So two pull requests that propose a file of one name give two results of it |
| `ProposalScan.ScanCommit` | src/modules/governance/services/github.service.ts:186-231 | The unseen proposal files of a commit are read in turn and unreadable ones passed over |
| `ProposalScan.Unseen` | src/modules/governance/services/github.service.ts:192-200 | Exactly the added proposal files not seen before |
| `ProposalScan.IsProposalIs` | src/modules/governance/services/github.service.ts:195-200 | A proposal is a Markdown file of the folder without a readme in its name, in either case |
| `ProposalScan.NewestIsFirstUsable` | src/modules/governance/services/github.service.ts:176-231 | The newest usable commit of a file is usable and no newer one is |
| `ProposalScan.LogResultsAre` | src/modules/governance/services/github.service.ts:176-231 | A result comes from the log exactly when its file was not seen in a pull request and it is what the newest usable commit holds of it |
| `ProposalScan.LogResultsHold` | src/modules/governance/services/github.service.ts:176-231 | Commit, name and content of every result from the log are those of the newest commit with a parent that adds the file and lets it be read and parsed |
| `ProposalScan.NamedExactlyIfUsable` | src/modules/governance/services/github.service.ts:176-231 | A file has a result from the log exactly when it was not seen and some commit makes it usable |
| `ProposalScan.LogResultsDistinct` | src/modules/governance/services/github.service.ts:198-227 | While no commit names a file twice, results from commits have distinct file names, none of them that of a pull request |
| `ProposalScan.LogResultsDistinctExactly` | src/modules/governance/services/github.service.ts:186-231 | Results from commits have distinct file names exactly when no commit names twice a file of which it is the newest usable one |
| `ProposalScan.ScanDistinctExactly` | src/modules/governance/services/github.service.ts:101-247 | All results of the scan have distinct file names exactly when neither two pull requests nor one commit name a file twice that they are to contribute |
| `Pagination.PageMeetsTail` | src/modules/governance/resolvers/pulse.aggregation.resolver.ts:159-171 | A page and the entries after it meet without gap or overlap, at any offset and limit |
| `Pagination.PageIs` | src/modules/governance/resolvers/pulse.aggregation.resolver.ts:159-171 | A page holds the entries before the last `offset` ones, `limit` at most, in their order; without a page all are shown |
| `Pagination.ListNewestFirst` | src/modules/governance/resolvers/governance.contract.resolver.ts:133-143 | A page of proposals or polls is reversed, the whole list is not |
| `Pagination.PagesFromLastAre` | src/modules/governance/resolvers/pulse.aggregation.resolver.ts:159-171 | Pages taken last to first put the end of the list together |
| `Pagination.PagesNewestFirstAre` | src/modules/governance/resolvers/governance.contract.resolver.ts:133-142 | The first n reversed pages are the reversed end of the list |
| `Pagination.AllPagesReverseList` | src/modules/governance/resolvers/governance.contract.resolver.ts:177-186 | Pages at offsets 0, L, 2L, ... concatenate to the reversed list |
| `Pagination.StableSortPermutes` | src/modules/governance/resolvers/pulse.aggregation.resolver.ts:117-153 | The sort permutes |
| `Pagination.StableSortAscends` | src/modules/governance/resolvers/pulse.aggregation.resolver.ts:120-151 | The sort orders by the chosen key and direction |
| `Pagination.StableSortKeepsTies` | src/modules/governance/resolvers/pulse.aggregation.resolver.ts:120-151 | Ideas of equal key keep their order |
| `Pagination.ComparatorComparesRanks` | src/modules/governance/resolvers/pulse.aggregation.resolver.ts:121-150 | The comparator orders by a rank, and is antisymmetric |
| `Pagination.CompareIs` | src/modules/governance/resolvers/pulse.aggregation.resolver.ts:121-150 | Ideas are compared by the field asked for, a missing amount as 0, upward unless downward is asked for |
| `Pagination.Ideas` | src/modules/governance/resolvers/governance.contract.resolver.ts:205-256 | Sorting a copy and cutting a page |
| `Pagination.SortCopy` | src/modules/governance/resolvers/pulse.aggregation.resolver.ts:117-153 | Inserting one idea after another by the comparator sorts by the rank |
| `Pagination.AllPagesOfIdeas` | src/modules/governance/resolvers/pulse.aggregation.resolver.ts:115-171 | Pages of ideas, last to first, concatenate to an ordered, tie-keeping permutation of all ideas |
| `Pagination.NoFieldKeepsOrder` | src/modules/governance/resolvers/pulse.aggregation.resolver.ts:144-150 | Without a sort field the order stays, whatever the direction |
| `GlobalIndex.GetIndex` | src/modules/governance/services/governance.pulse.service.ts:350-369 | The loop adds the totals of the contracts before, and none for an unknown contract |
| `GlobalIndex.GetItemsRaw` | src/modules/governance/services/governance.pulse.service.ts:105-112 | The first items of a contract in order, up to the threshold |
| `GlobalIndex.Collect` | src/modules/governance/resolvers/pulse.aggregation.resolver.ts:25-37 | All items contract by contract, or the one item asked for if it is listed |
| `GlobalIndex.Polls` | src/modules/governance/resolvers/pulse.aggregation.resolver.ts:21-38 | With at most 100 polls a contract, each poll stands at its index and there are `totalPolls` of them |
| `GlobalIndex.Ideas` | src/modules/governance/resolvers/pulse.aggregation.resolver.ts:47-57 | With at most 300 ideas a contract, each idea stands at its index and there are `totalIdeas` of them |
| `GlobalIndex.Total` | src/modules/governance/resolvers/pulse.aggregation.resolver.ts:66-87 | The sum of all totals, not cut off |
| `GlobalIndex.FilterFinds` | src/modules/governance/resolvers/pulse.aggregation.resolver.ts:33-35 | Filtering by contract and id gives that one item, or nothing |
| `GlobalIndex.ItemAt` | src/modules/governance/resolvers/pulse.aggregation.resolver.ts:25-31 | An item stands after the listed items of the contracts before its own |
| `GlobalIndex.ItemsDistinct` | src/modules/governance/resolvers/pulse.aggregation.resolver.ts:25-31 | No item is listed twice |
| `GlobalIndex.IndexIsPositionExactly` | src/modules/governance/services/governance.pulse.service.ts:350-358 | For any contract and id, the index is the position in the aggregated list exactly when the contract is configured, the id is listed, and no earlier contract exceeds the threshold |
| `GlobalIndex.IndexIsBijection` | src/modules/governance/services/governance.pulse.service.ts:361-369 | Within the threshold the numbering is one-to-one onto 0 up to the total |
| `GlobalIndex.UnknownContractCollides` | src/modules/governance/services/governance.pulse.service.ts:352-357 | An unknown contract's items get the indices of the first contract's |
| `GuestCounter.Batch` | src/utils/guestCaching.middleware.ts:33 | How many hits fill a batch, for any configured number |
| `GuestCounter.BatchSizeIs` | src/utils/guestCaching.middleware.ts:33 | With nothing configured, or zero, three hits make a batch; any other number is taken as it is |
| `GuestCounter.GuestCachingMiddleware.Use` | src/utils/guestCaching.middleware.ts:39-79 | One request is one step of the specification, on memory, shared counter and stored bodies |
| `GuestCounter.CountersExactly` | src/utils/guestCaching.middleware.ts:39-79 | After any run, with any clock: memory holds the place in the batch of the hits since the minute's counters were last dropped, whole batches are shared, and shared, lost and unsent hits make up all hits |
| `GuestCounter.SharedIsAllBatchesExactly` | src/utils/guestCaching.middleware.ts:39-79 | The shared counter is batch * (hits / batch) exactly when the lost and the unsent hits make no batch together |
| `GuestCounter.OneStretch` | src/utils/guestCaching.middleware.ts:76-79 | With a clock that does not go back, nothing is lost before the next minute, and then what made no batch |
| `GuestCounter.CountersAfterRun` | src/utils/guestCaching.middleware.ts:39-63 | So with such a clock the shared counter is batch * (hits / batch), and until the next minute memory holds the place in the current batch |
| `GuestCounter.MinutesHeld` | src/utils/guestCaching.middleware.ts:76-79 | With any clock, memory holds exactly the minutes with a request that none of the next minute came after |
| `GuestCounter.NeverOvercounts` | src/utils/guestCaching.middleware.ts:50-63 | With any clock, shared, unsent and lost hits are all hits, so none is shared twice |
| `GuestCounter.StepBackLosesHits` | src/utils/guestCaching.middleware.ts:76-79 | A clock that steps back loses hits |
| `GuestCounter.CountedBodiesAreStored` | src/utils/guestCaching.middleware.ts:57-59 | A body is stored exactly when some minute has shared hits of it |
| `GuestCounter.FirstRequestCreatesCounter` | src/utils/guestCaching.middleware.ts:65-69 | The first request of a minute creates the shared counter of its body |
| `GuestCounter.SkippedCountsNothing` | src/utils/guestCaching.middleware.ts:22-25 | A request that is logged in or asks for no cache counts nothing |
| `Energy.DepleteUserEnergy` | src/modules/energy/services/energy.compute.service.ts:9-35 | The amount sinks by the locked tokens for every epoch since the update if they are not negative and the update is past the first epoch, and nothing else changes |
| `Energy.EveryCallCharges` | src/modules/energy/services/energy.compute.service.ts:17-32 | Any run of depletions charges the epochs of every call since the update |
| `Energy.RunIsLastCallExactly` | src/modules/energy/services/energy.compute.service.ts:17-32 | A run ends where its last call alone would exactly when nothing is locked, the entry does not deplete, or no earlier call came after the update epoch |

## Left out

- Network and storage: Redis, RabbitMQ, MongoDB, Elasticsearch, gateway and API clients, git and GitHub. Their answers are inputs.
- The internals of SHA-256, of the Merkle tree library beyond sorted pairs and odd nodes, of bech32 decoding (an address is its 32 bytes) and of the transaction factories.
- Expiry of cached entries, and two handlers that read and rewrite the same shared entry at once; the code takes no lock there.
- A value missing in both caches is computed and stored in one step; a computation that finishes after a write to the same key is not modelled.
- `GuestCounter` takes requests one at a time, since the handler reads its counter again after waiting. Minutes are numbers; the text form of a local minute that repeats when clocks are set back is not modelled, nor the expiry of the shared counter.
- A vote event that fails between two waits, publication to event subscribers, and the handlers of on-chain and energy events.
- A failing write to the cache or a failing publication in a warm pass.
- `PendingExecutor` takes keys as given; the digest of the stringified value is not modelled.
- Key publication of the current block nonce, which publishes no keys, and the timed status refresh of all proposals.
- The mapping of rationale files to proposals, and failures of the log, diff and parent queries, which end the scan. Lower-casing in the scan covers ASCII letters only.
- Negative or fractional balances, powers and vote counts.
- The proof that a transaction to a delegation provider carries, and the trees behind it.
- The sum of all balances of a tree, a plain loop.
- Authorization, metrics, logging, GraphQL models, wiring, configuration and ABI files.
