# Verified models of the ruvos and ruvector cores

This project models seven cores of the repository in Dafny and proves what they are for. Each core is modelled twice where
the source updates state in place: as a class whose methods follow the source loop by loop, and as functions on values that
the methods are proved to compute. The theorems are about those functions and about runs: sequences of states in which each
state follows from the one before by one operation, in any order and any number.

| core | modules |
|---|---|
| DAG consensus with vector clocks | `Consensus` (one node), `ConsensusRuns` (a network of nodes and its invariant), `ConsensusTheorems`, `ConsensusTransactions` (which vertex carries which transaction), `ConsensusRaces` (a creation overtaken by a delivery), `ConsensusOrder` (the reported order) |
| Witness-addressed cache and router | `Bundle`, `Ruvec` (the ruvec1 file), `Backend`, `Cache`, `SharedCache` (the cache as an object), `Lake` (runs of the router), `LakeAnswers` (what a search returns), `LakeHistories` (which histories hide the cache), `LakeFailures` (racing misses), `LakeTears` (changes during a search), `RuLakeObject`, `Federation` |
| ACORN graph search | `Nearest` (distances, top-k, flat scans), `Acorn` (building), `AcornSearch`, `AcornAdmission` (which neighbours wait), `AcornBeam` (how many nodes wait) |
| Byte ring buffer | `Ring` (sequential), `RingConcurrency` (one writer against one reader), `RingWriters` (many writers) |
| Task graph and scheduler | `Tasks`, `Scheduler`, `SchedulerRuns` (the queue in a run, runs built step by step), `SchedulerFailures` (what a failure stops) |
| Consistent hashing | `Hashing` (the ring as a value), `Sharding` (ring, jump hash and router as objects), `Cluster` |
| Durable task queue, rate limiter | `TaskQueue`, `TokenBucket` |

`Paths`, `Collections`, `Sorting`, `Bytes`, `Limits` and `Wrappers` hold what several of them share. `dafny verify
dfyconfig.toml` checks everything.

## Where the code does something else than its comments say

The model follows the code. Each difference is stated as a theorem, with the exact condition where there is one.

- `vector_clock_dominates` ignores keys that only its second argument has, so two concurrent vertices can dominate each
  other: `ConcurrentVerticesDominateEachOther`, and exactly when it errs: `DominanceIsAncestryExactlyWhen`.
- The "topological sort" of finalized vertices puts descendants before ancestors, and its comparator is not transitive:
  `DescendantComesFirst`, `ComparatorGoesRound`; which sets of vertices have an order at all: `SortableExactlyWhen`.
- `create_vertex` reads the tips before it takes the clock; a vertex that arrives in between is counted without being an
  ancestor: `RacingCreateExactlyWhen`.
- A witness is documented to pin the bundle; version, policy, lineage and memory class are not digested:
  `AlterationUnnoticedExactlyWhen`.
- Re-installing the witness that a key alone holds deletes the entry it is about to point to
  (`substrate/rulake/src/cache.rs:578-593`): `InstallKeepsInvExactlyWhen`. The router avoids this in sequence, but two racing
  misses do not: `RacingMissesDangleExactlyWhen`. The key then fails, for exactly as long as `LostUntilHealed` says.
- The entry cap is documented to evict unpinned entries; no operation ever leaves an entry unpinned, so it evicts nothing:
  `NoVictimEver`.
- A Fresh search is documented never to serve stale data. It does not, exactly if equal reference, dimension and generation
  mean equal data: `TransparentExactlyWhen`. `local://{id}/{collection}` can be read in two ways when there is a slash in it
  (`DataRefAmbiguousExactlyWhen`), and then other data is served: `SharedReferenceServesOtherData`,
  `SlashedNamesAreMixedUp`. The generation of a file is its modification time in whole seconds, so two versions written
  within one second are confused: `RewriteTransparentExactlyWhen`. A search during which the data changes may leave an entry
  under the witness of what was there before: `LeftEntryServedExactlyWhen`.
- Appending to a collection of dimension zero that already has vectors leaves vectors of two lengths:
  `AppendKeepsShapeExactlyWhen`.
- The ruvec1 writer accepts collections that the reader refuses or truncates: `RoundTripExactlyWhen`.
- The graph search is said to bound its frontier by `ef`, but pushes without evicting
  (`substrate/ruvector-acorn/src/search.rs:106`): with n nodes it does if and only if `ef` is at least n - 1,
  `BeamBoundsFrontierExactlyWhen`. Vectors without coordinates make the graph count as
  empty, so graph search and flat scan differ on them: `SearchesAgree`.
- A ring buffer message of 2^32 bytes or more is written with a truncated length: `MessageComesBackExactlyWhen`.
- Nothing orders threads that write to one ring buffer: `WritersSafeExactlyWhen`, `ClashLosesMessage`.
- A scheduler that starts from a graph in which a Completed task depends on a failed one may hand out what depends on the
  Completed one: `DispatchedBelowFailure`; exactly when: `FailureStopsDependentsExactlyWhen`. It does not suffice that both
  tasks can be started independently, since the order of the queue may prevent it: `QueueOrderProtects`.
- The rate limiter's reported wait is rounded to nanoseconds, so it can be too short, and even zero:
  `ReportedHintSufficesExactlyWhen`.
- A node that joins the hash ring overwrites points with equal hashes, which its leaving does not restore:
  `LeavingUndoesJoiningExactlyWhen`. A list of zero nodes is answered with one: `NodesForAreDistinct`. When the last node
  leaves, shards keep their old nodes: `ClusterManager.RemoveNode`.
- "Retried up to three times" is three attempts in all: `RunWithRetry`.

## How the outside world appears

Random ids, clocks, hash functions, rounded square roots and the outcomes of task executions are parameters, so the theorems
hold for all of them. The index library is a parameter too: which inputs it can index and what a search of an index yields,
both as functions, since index building is deterministic. SHAKE-256 is taken to be free of collisions: a witness is
represented by the bytes it digests. Distances, scores, tokens and seconds are exact reals. Iteration over hash maps and
ties in unstable orders are arbitrary choices.

## Model

| member | source | states |
|---|---|---|
| `ConsensusTheorems.ClockCharacterizesAncestry` | substrate/ruvector-cluster/src/consensus.rs:146-223 | in every multi-node run, with deliveries in any order, duplicates, finalization and pruning: u is v or an ancestor of v if and only if u's own clock entry is at most v's entry for u's creator |
| `ConsensusRaces.RacingCreateExactlyWhen` | substrate/ruvector-cluster/src/consensus.rs:146-223 | creating a vertex reads the tips before it takes the clock: with anything at all happening in between, clocks still characterise ancestry afterwards if and only if the creator got to know no vertex in between |
| `ConsensusRaces.LateVertexMatches` | substrate/ruvector-cluster/src/consensus.rs:156-165 | the clock of a vertex whose creation was overtaken counts, beyond the vertex's ancestors, exactly the vertices that arrived between the reading of the tips and of the clock |
| `ConsensusRaces.RacingCreateMiscounts` | substrate/ruvector-cluster/src/consensus.rs:156-165 | a concrete run of two nodes in which a vertex received while another is being created is counted by its clock and is no ancestor of it |
| `ConsensusTheorems.AncestorIsDominated` | substrate/ruvector-cluster/src/consensus.rs:305-319 | in every run the clock comparison is right about related vertices: a strict descendant dominates its ancestor and is not dominated by it |
| `ConsensusTheorems.DominanceIsAncestryExactlyWhen` | substrate/ruvector-cluster/src/consensus.rs:305-319 | of two vertices of any run, v is an ancestor of u if and only if u's clock has an entry for v's creator and u dominates v; so the comparison errs only where that entry is missing |
| `ConsensusTheorems.DominanceMeans` | substrate/ruvector-cluster/src/consensus.rs:305-319 | for any two vertices of any run, whatever entries their clocks have: u dominates v if and only if, of every creator with a vertex among u and its ancestors, v and its ancestors have no more vertices, and of some creator fewer |
| `ConsensusTransactions.VertexCarriesItsTransaction` | substrate/ruvector-cluster/src/consensus.rs:125-174 | in every run the m-th vertex of a node carries the m-th transaction that was submitted there, unchanged |
| `ConsensusTransactions.OneVertexPerTransaction` | substrate/ruvector-cluster/src/consensus.rs:125-174 | no two vertices of a node carry the same transaction |
| `ConsensusTheorems.ConcurrentVerticesDominateEachOther` | substrate/ruvector-cluster/src/consensus.rs:305-319 | a concrete run of two nodes whose first vertices are unrelated and yet each "dominates" the other |
| `ConsensusOrder.DescendantComesFirst` | substrate/ruvector-cluster/src/consensus.rs:281-295 | in every run the order of finalized transactions puts a vertex before all its ancestors, whatever the timestamps: the comment calls it a topological sort, and it is one backwards |
| `ConsensusOrder.SortableExactlyWhen` | substrate/ruvector-cluster/src/consensus.rs:281-295 | a set of vertices has an order that agrees with the comparator if and only if no chain of vertices, each of which sorts before the next, leads back to its start |
| `ConsensusOrder.SortableExactlyWhenNoThreeGoRound` | substrate/ruvector-cluster/src/consensus.rs:281-295 | if no two of them compare as equal, a set of vertices has such an order if and only if no three of them go round |
| `ConsensusOrder.ComparatorGoesRound` | substrate/ruvector-cluster/src/consensus.rs:281-295 | a run with three vertices of which each sorts before the next and the last before the first, so that no order of them agrees with the comparator |
| `ConsensusTheorems.ClockCountsAncestors` | substrate/ruvector-cluster/src/consensus.rs:146-174 | an entry of a vertex's clock is the number of that creator's vertices among the vertex and its ancestors |
| `ConsensusTheorems.ClockCountsKnown` | substrate/ruvector-cluster/src/consensus.rs:196-223 | an entry of a node's clock is the number of that creator's vertices the node has stored or finalized |
| `ConsensusTheorems.SameVerticesSameClock` | substrate/ruvector-cluster/src/consensus.rs:196-223 | nodes that have received the same vertices, in whatever order and however often, have the same clock |
| `ConsensusRuns.NewVertexAncestors` | substrate/ruvector-cluster/src/consensus.rs:146-193 | the ancestors of a vertex created over all tips are exactly the vertices its creator knows |
| `ConsensusRuns.KnownBelowSomeTip` | substrate/ruvector-cluster/src/consensus.rs:177-193 | every vertex a node knows is a tip of its store or an ancestor of one |
| `ConsensusRuns.RunKeepsInv` | substrate/ruvector-cluster/src/consensus.rs:125-372 | every run of whole operations keeps: clocks match ancestry, creators number their vertices without gaps, nodes know the parents of what they know |
| `ConsensusTheorems.StoreIsClosedAndAcyclic` | substrate/ruvector-cluster/src/consensus.rs:204-221 | the parents of a stored vertex are stored or were finalized, and the parent relation has no cycle, pruning included |
| `ConsensusTheorems.FinalizedGrows` | substrate/ruvector-cluster/src/consensus.rs:232-265 | nothing is ever un-finalized, by pruning or otherwise |
| `ConsensusTheorems.FinalizedHasQuorum` | substrate/ruvector-cluster/src/consensus.rs:232-265 | a finalized vertex has children by at least a quorum of distinct creators, and by at least one |
| `ConsensusTheorems.FinalizedExactly` | substrate/ruvector-cluster/src/consensus.rs:232-265 | at a node that never prunes, right after finalizing, a vertex is finalized if and only if it is stored and there is a list of at least quorum stored vertices, and at least one, by pairwise different creators, each with it among its parents |
| `ConsensusTheorems.LargerStoreHasFinalizedMore` | substrate/ruvector-cluster/src/consensus.rs:232-265 | of two such nodes the one with the larger store finalizes at least as much, and with equal stores they finalize equally |
| `Consensus.VectorClockDominates` | substrate/ruvector-cluster/src/consensus.rs:305-319 | true if and only if the first clock is nowhere behind on its own keys and ahead on one of them; keys of the second alone are ignored |
| `Consensus.DagConsensus.constructor` | substrate/ruvector-cluster/src/consensus.rs:109-122 | a new engine: nothing stored, own counter at zero |
| `Consensus.DagConsensus.SubmitTransaction` | substrate/ruvector-cluster/src/consensus.rs:125-143 | the transaction is queued last, with the next nonce |
| `Consensus.DagConsensus.CreateVertex` | substrate/ruvector-cluster/src/consensus.rs:146-174 | no vertex without a pending transaction; else the oldest one, with all tips as parents and the own counter advanced, is stored and returned |
| `Consensus.DagConsensus.FindTips` | substrate/ruvector-cluster/src/consensus.rs:177-193 | lists, each once, the stored vertices that no stored vertex has as a parent |
| `Consensus.DagConsensus.AddVertex` | substrate/ruvector-cluster/src/consensus.rs:196-223 | accepted if and only if every parent is stored or finalized; then stored and the clocks merged entry by entry; refused without any change, naming a missing parent |
| `Consensus.DagConsensus.FinalizeVertices` | substrate/ruvector-cluster/src/consensus.rs:232-265 | afterwards a vertex is finalized if and only if it was before, or it is stored and has at least quorum stored children, and at least one, by pairwise different creators; the newly finalized ones are returned, each once |
| `Consensus.DagConsensus.CountConfirmations` | substrate/ruvector-cluster/src/consensus.rs:236-250 | for each stored vertex with a stored child, the set of creators of its children |
| `Consensus.DagConsensus.PruneOldVertices` | substrate/ruvector-cluster/src/consensus.rs:347-372 | removes finalized vertices only, the oldest first, until at most the given number of them is stored; nothing when no more than that are finalized |
| `Cache.InstallKeepsInvExactlyWhen` | substrate/rulake/src/cache.rs:570-602 | an installation keeps the cache consistent if and only if its key does not alone hold the very witness it installs and the 32-bit count has room; in the first case the pointer dangles |
| `Cache.ReinstallDangles` | substrate/rulake/src/cache.rs:578-593 | re-installing a witness on the key that alone holds it deletes the entry and leaves the pointer to it |
| `Cache.InvalidationHeals` | substrate/rulake/src/cache.rs:611-625 | invalidating a key that was left dangling makes the whole cache consistent again |
| `Cache.GuardedRunIsConsistent` | substrate/rulake/src/cache.rs:570-625 | after every run of guarded operations every pointer resolves and every entry's reference count is the number of its pointers and is not zero |
| `Cache.NoVictimEver` | substrate/rulake/src/cache.rs:548-565 | in every run at all, eviction changes nothing, and the global counters are the sums of those per backend and of those per collection |
| `Cache.AppliedKeepsInv` | substrate/rulake/src/cache.rs:368-625 | each guarded operation keeps pointers, reference counts, check times and counters consistent |
| `SharedCache.VectorCache.Prime` | substrate/rulake/src/cache.rs:368-447 | a batch beyond the caps is refused without any change; else the entry is shared if the witness is cached and built if not, which counts a shared hit or a prime, the pointer is moved to it, and eviction has no effect |
| `SharedCache.VectorCache.InstallPrebuilt` | substrate/rulake/src/cache.rs:495-543 | a list of ids that does not fit the index is refused; else the entry is shared or inserted and the pointer is moved to it, without counting a prime |
| `SharedCache.VectorCache.InstallPointer` | substrate/rulake/src/cache.rs:570-602 | the key's old entry loses a reference and goes with its last one; the new entry gains one; times and counters are brought up to date |
| `SharedCache.VectorCache.EvictLruIfOver` | substrate/rulake/src/cache.rs:548-565 | removes unpinned entries only, least recently used first, until the cap is met or none is left, counting each |
| `SharedCache.VectorCache.OldestUnpinned` | substrate/rulake/src/cache.rs:551-556 | some unpinned entry used no later than any other unpinned one, if there is one |
| `SharedCache.VectorCache.Invalidate` | substrate/rulake/src/cache.rs:611-625 | the pointer and its check time go, the entry loses a reference and goes with its last one, and one invalidation is counted if there was a pointer |
| `SharedCache.VectorCache.Count` | substrate/rulake/src/cache.rs:273-292 | one event is counted globally, for the backend and for the collection |
| `SharedCache.VectorCache.MarkHit` | substrate/rulake/src/cache.rs:682-687 | counts one hit at all three levels |
| `SharedCache.VectorCache.MarkMiss` | substrate/rulake/src/cache.rs:688-693 | counts one miss at all three levels |
| `SharedCache.VectorCache.Touch` | substrate/rulake/src/cache.rs:852-855 | sets the key's check time |
| `SharedCache.VectorCache.Search` | substrate/rulake/src/cache.rs:722-775 | unknown keys and dangling pointers are unknown collections, a query of another dimension is refused, a position outside the list of ids is a panic; what succeeds is exactly the hits of the entry's index for this query, k and rerank factor, in order, under the ids of their positions; only the time of use changes |
| `Cache.EveryPositionHasAnId` | substrate/rulake/src/cache.rs:769-772 | in every run at all, as long as the index finds positions of vectors it was given, indexing the list of ids is never out of range, and each hit gets the id at its position, in order |
| `Cache.PreinstalledServes` | substrate/rulake/src/cache.rs:495-543 | after a prebuilt index has been installed, a search of the key is answered by that index under the supplied ids, or by the entry that its witness already had |
| `SharedCache.VectorCache.MapPositions` | substrate/rulake/src/cache.rs:769-772 | the found positions are mapped to ids in order, scores unchanged; a panic if and only if one of them is outside the list of ids |
| `Lake.FreshIsTransparent` | substrate/rulake/src/lake.rs:478-502 | in every run under Fresh a search answers, errors included, exactly as an index built from the backend's current data would, whether it hit, took over an entry of another backend or primed; the data may change in any way as long as equal reference, dimension and generation mean equal data |
| `LakeAnswers.FreshSearchMeans` | substrate/rulake/src/lake.rs:478-502 | in every run under Fresh: the library is asked for the k nearest in an index of the collection as it is, with the configured seed and rerank factor, and its hits come back in order with their scores, the ids at their positions and the names that were searched; or the search fails for one of the stated reasons, in the stated order |
| `LakeAnswers.FreshSearchFindsNearest` | substrate/rulake/src/lake.rs:478-502 | if the library is exact on it, the answer is the k nearest vectors of the collection as it is, nearest first, for every k |
| `LakeAnswers.BackendIgnoredExactlyWhen` | substrate/rulake/src/lake.rs:671-706 | what a check does is the same whatever the backends hold if and only if a Frozen cache knows the key or an Eventual one checked it less than the time to live ago; every other check that succeeds is remembered as made now |
| `LakeHistories.TransparentExactlyWhen` | substrate/rulake/src/lake.rs:656-706 | for any history of what the backends hold: no run over it, with whatever index library, searches and invalidations, ever shows the cache under Fresh, if and only if collections with equal reference, dimension and generation, at whatever times and under whatever names, hold equal data unless it cannot be indexed |
| `LakeHistories.LocalBackendsAreTransparent` | substrate/rulake/src/backend.rs:185-330 | in-memory backends with distinct references never show the cache, as long as no generation wraps around |
| `Lake.SearchIsRecent` | substrate/rulake/src/lake.rs:671-706 | in every run a search answers as an index built from data of an allowed age: current under Fresh, current less than the time to live ago under Eventual, once current under Frozen |
| `Lake.StepKeepsLakeInv` | substrate/rulake/src/lake.rs:671-706 | every change of data, search, invalidation and registration keeps: each entry is what priming builds from data that had its witness, each pointer was right when it was last checked, counts are those of the pointers |
| `LakeHistories.SlashFreeReferencesAreDistinct` | substrate/rulake/src/backend.rs:307-330 | backend ids without a slash give different collections different references |
| `LakeHistories.SharedReferenceServesOtherData` | substrate/rulake/src/backend.rs:307-330 | two collections that share a reference: register two in-memory backends, put a vector into each, search the first; a search of the second then returns the first one's vector under the second one's name, while an index of its own data returns its own |
| `LakeHistories.SlashedNamesAreMixedUp` | substrate/rulake/src/backend.rs:323 | the same for backend a with collection b/c and backend a/b with collection c: a concrete run whose Fresh answer differs from the direct one |
| `LakeHistories.RewriteTransparentExactlyWhen` | substrate/rulake/src/fs_backend.rs:215-228 | replacing a file's data never shows in an answer if and only if the whole second of its modification time or its dimension changes, or the data is the same, or the first data cannot be indexed |
| `LakeFailures.RacingMissesDangleExactlyWhen` | substrate/rulake/src/lake.rs:681-706 | two searches of one key that both miss before either primes leave it dangling if and only if nobody else had the entry |
| `LakeFailures.UnknownExactlyWhenLost` | substrate/rulake/src/lake.rs:671-706 | a key that points to its data's witness is answered as an unknown collection by a Fresh search if and only if the entry is missing |
| `LakeFailures.LostUntilHealed` | substrate/rulake/src/lake.rs:671-706 | one event ends that state if and only if it invalidates the key, changes its witness, or is a search of another key that builds the same entry |
| `LakeFailures.LostStaysLost` | substrate/rulake/src/lake.rs:671-706 | through any events that do not end it, however many searches of the key among them, every Fresh search of the key fails |
| `LakeTears.TornSearchIsCurrent` | substrate/rulake/src/lake.rs:671-706 | in every run under Fresh, with any change of the backends between a search's reading of the bundle and its pulling of the vectors: it answers from the data before or after the change, and it is said from which |
| `LakeTears.LeftEntryServedExactlyWhen` | substrate/rulake/src/lake.rs:681-706 | a search torn in this way may leave an entry built from the new data under the old witness; a later search answers from it if and only if its collection then has that witness and, unless it is the same key, can be indexed; every other search answers from the data of its own time |
| `LakeTears.UntornIsFresh` | substrate/rulake/src/lake.rs:671-706 | the torn search is the Fresh search when nothing changes in between |
| `Lake.CheckIsCounted` | substrate/rulake/src/lake.rs:671-706 | a check of known data counts one hit or one miss, and a miss is settled by a prime or a shared hit unless priming fails |
| `Lake.CountersAddUp` | substrate/rulake/src/lake.rs:671-706 | in every run hits and misses add up to the searches of known data, and misses to the primes, the shared hits and the failed primings |
| `RuLakeObject.RuLake.RegisterBackend` | substrate/rulake/src/lake.rs:91-101 | any adapter is refused if and only if its id is taken, and else added |
| `RuLakeObject.RuLake.EnsureFresh` | substrate/rulake/src/lake.rs:671-706 | with any adapters registered: the cache state and the outcome are those of the specified check; backends are not touched |
| `RuLakeObject.RuLake.SearchOne` | substrate/rulake/src/lake.rs:478-502 | with any adapters registered: the cache state and the answer are those of the specified search, and results are exactly the hits of the index that the key then points to, for this query, k and rerank factor; backends are not touched |
| `RuLakeObject.RuLake.InvalidateCache` | substrate/rulake/src/lake.rs:167-169 | drops the pointer of the key |
| `Federation.OverRequestIsLeast` | substrate/rulake/src/lake.rs:578-593 | with x = k * ln(shards): each of several shards is asked for the least number that exceeds k by at least the square root of x, but for at most 4k; a single shard is asked for k |
| `Federation.MergedIsGlobalBest` | substrate/rulake/src/lake.rs:536-576 | if every shard returns the best of what it holds, the merged and truncated list is the best k of all that all shards hold, for any number of shards |
| `Federation.BestOfMeans` | substrate/rulake/src/lake.rs:573-575 | the best k: in order of score, as many as there are up to k, and nothing left out scores lower than something kept |
| `Federation.MergeKeepsTieOrder` | substrate/rulake/src/lake.rs:573-575 | results with equal scores keep the order of their targets and, within a target, of its answer; the cut to k drops the last of them |
| `Federation.FederatedIsDirect` | substrate/rulake/src/lake.rs:536-576 | in every run under Fresh, in whatever order the targets are searched: either every target answers as an index built from its current data would, each in its own place, or the search fails as one of those would |
| `Federation.FederatedIsGlobalBest` | substrate/rulake/src/lake.rs:536-576 | in every run under Fresh with exact indexes, searching all targets through the cache, in whatever order, and merging gives the best k of their current data |
| `Backend.LocalBackend.PutCollection` | substrate/rulake/src/backend.rs:185-222 | refused on unequal lengths or at the first vector of a wrong dimension; else replaces the data and advances the generation |
| `Backend.LocalBackend.AppendVector` | substrate/rulake/src/backend.rs:225-249 | refused for an unknown collection or a wrong dimension; else adds one vector, fixing the dimension of a collection that has none, and advances the generation |
| `Backend.PulledIsLastPutAndAppends` | substrate/rulake/src/backend.rs:185-285 | after any writes, failed ones included, there is a collection to pull if and only if some put was well formed, and what is pulled is the last such put followed by what was appended since, in order |
| `Backend.WitnessSameExactlyWhen` | substrate/rulake/src/backend.rs:307-330 | under one configuration two collections are given the same witness if and only if they agree in reference, dimension and generation, whatever data they hold |
| `Backend.WitnessSameAcrossExactlyWhen` | substrate/rulake/src/backend.rs:307-330 | under any two configurations: if and only if, besides, the rotation seeds and the rerank factors agree |
| `Backend.WriteChangesWitness` | substrate/rulake/src/backend.rs:185-249 | every successful write to a stored collection advances its generation by one, around the end of 64 bits, and so changes its witness, and no other collection |
| `Backend.PutShapes` | substrate/rulake/src/backend.rs:191-218 | a collection is put if and only if it has as many ids as vectors and all vectors have the stated length, and then holds exactly what was given, under its reference and with the next generation |
| `Backend.AppendKeepsShapeExactlyWhen` | substrate/rulake/src/backend.rs:236-247 | appending adds the vector last, and keeps all vectors of one length if and only if it does not give a dimension to a collection that already holds vectors of length zero |
| `Backend.RewriteUnseenExactlyWhen` | substrate/rulake/src/fs_backend.rs:215-228 | replacing a file in place keeps its witness if and only if the dimension stays and so does the whole second of the modification time |
| `Bundle.PreimageInjective` | substrate/rulake/src/bundle.rs:362-390 | the bytes a witness is computed over determine reference, dimension, seed, rerank factor and generation |
| `Bundle.PreimageLayout` | substrate/rulake/src/bundle.rs:363-387 | the digested bytes at their positions, numbers with the lowest byte first: the domain, the length of the data reference, the reference, a bar, and the numbers |
| `Bundle.NumbersLayout` | substrate/rulake/src/bundle.rs:363-387 | the numbers at their positions: dimension, rotation seed and rerank factor, a bar, the length of the tagged generation, and that, tagged 0 for a number and 1 for a text |
| `Bundle.DomainText` | substrate/rulake/src/bundle.rs:374 | the domain is the text that the source feeds first |
| `Bundle.HashBytesInjective` | substrate/rulake/src/bundle.rs:82-97 | numeric and opaque generations never share bytes |
| `Bundle.WitnessDeterminesFields` | substrate/rulake/src/bundle.rs:362-390 | two bundles that verify have equal witnesses if and only if the five digested fields are equal: reference, dimension, seed, rerank factor and generation |
| `Bundle.AlterationUnnoticedExactlyWhen` | substrate/rulake/src/bundle.rs:166-201 | a verified bundle altered without touching its witness still verifies if and only if none of the five digested fields was altered; version, policy, lineage and memory class can be changed at will |
| `Bundle.ComputeWitness` | substrate/rulake/src/bundle.rs:362-390 | the hasher is fed exactly the specified bytes |
| `Bundle.LocalDataRefInjective` | substrate/rulake/src/backend.rs:323 | references of backends without a slash in their id are different for different collections |
| `Bundle.LocalDataRefLayout` | substrate/rulake/src/backend.rs:323 | "local://", the backend id, a slash, the collection name |
| `Bundle.DataRefAmbiguousExactlyWhen` | substrate/rulake/src/backend.rs:323 | a reference can be read in two ways if and only if the backend id or the collection name contains a slash |
| `Ruvec.RoundTripExactlyWhen` | substrate/rulake/src/fs_backend.rs:151-309 | pulling what was written gives back the same ids, vectors and dimension if and only if the collection is within the reader's limits |
| `Ruvec.EncodedHeader` | substrate/rulake/src/fs_backend.rs:170-190 | the first 24 bytes of a written file: "ruvec1" and two zeros, the count in eight bytes, the dimension in four, four zeros; and the size of the file |
| `Ruvec.EncodedRecord` | substrate/rulake/src/fs_backend.rs:170-190 | the position of every id and every coordinate in a written file |
| `Ruvec.DecodedExactlyWhen` | substrate/rulake/src/fs_backend.rs:239-309 | what any file reads as: too short for the header, bad magic, too many vectors, a bad dimension, too short for its records, in this order; else a collection of the stated count and dimension, whatever follows |
| `Ruvec.DecodedRecord` | substrate/rulake/src/fs_backend.rs:239-309 | every id and coordinate that is read comes from the position where it is written |
| `Ruvec.Write` | substrate/rulake/src/fs_backend.rs:140-190 | refused on unequal lengths or a vector of another dimension; else exactly the specified bytes |
| `Ruvec.WriteWords` | substrate/rulake/src/fs_backend.rs:183-187 | the 32-bit patterns of a vector, little-endian, in order |
| `Ruvec.WriteRecords` | substrate/rulake/src/fs_backend.rs:179-188 | every id with its vector, in order |
| `Ruvec.PullRecords` | substrate/rulake/src/fs_backend.rs:286-300 | as many records as the header says, or an error when the file ends first |
| `Ruvec.PullVectors` | substrate/rulake/src/fs_backend.rs:239-309 | decodes exactly as specified: short files, bad magic and headers beyond the caps are refused before any record is read |
| `AcornSearch.SearchesAgree` | substrate/ruvector-acorn/src/search.rs:30-153 | with an edge budget of at least n - 1 and a beam of at least n, graph search, flat scan and full sort find the same set of nodes, if and only if the vectors have coordinates or k is zero or no node passes; for every k, predicate and probe count |
| `AcornSearch.AcornSearch` | substrate/ruvector-acorn/src/search.rs:30-119 | on any graph, for every ef: from the best probe the search expands again and again the nearest waiting node, ends exactly when none waits or k passing expanded nodes are nearer than the nearest waiting one, and returns the k passing expanded nodes smallest by distance and id, sorted by distance; fewer than n nodes wait at any time |
| `AcornSearch.WholeWalkUnique` | substrate/ruvector-acorn/src/search.rs:70-113 | graph, query, k, ef, predicate and entry determine the sequence of expanded nodes |
| `AcornSearch.EmptyExactlyWhen` | substrate/ruvector-acorn/src/search.rs:70-118 | nothing is found if and only if k is zero or no expanded node passes |
| `AcornAdmission.WaitsExactlyWhen` | substrate/ruvector-acorn/src/search.rs:86-112 | after the entry's expansion a neighbour waits if and only if at most ef of the entry and the neighbours listed before it are as near to the query |
| `AcornSearch.ProbesAreSpread` | substrate/ruvector-acorn/src/search.rs:40-53 | the first node is probed, and every node is fewer than n / probes nodes beyond some probe |
| `AcornBeam.ApproachingAllPushed` | substrate/ruvector-acorn/src/search.rs:97-112 | unseen neighbours that come nearer and nearer are all pushed, however narrow the beam: the mirror heap evicts, the frontier does not |
| `AcornBeam.AllNeighborsWait` | substrate/ruvector-acorn/src/search.rs:97-112 | when the entry's neighbours come nearer and nearer to the query, all of them wait after its expansion, whatever ef is |
| `AcornBeam.BeamBoundsFrontierExactlyWhen` | substrate/ruvector-acorn/src/search.rs:97-112 | for n >= 2 nodes and ef >= 1: at most ef nodes wait after the entry's expansion, for all graphs, queries and entries, if and only if ef is at least n - 1; and the same when only graphs that are built and entries that are best probes are considered |
| `AcornBeam.AllWaitFromOrigin` | substrate/ruvector-acorn/src/search.rs:97-112 | in every graph built over n points on a line, the first of them the query and the others nearer and nearer, with a budget of n - 1, all n - 1 others wait after the first is expanded, whatever ef is |
| `AcornBeam.FirstListsOthers` | substrate/ruvector-acorn/src/graph.rs:99-116 | with a budget of n - 1 the first node of every built graph lists all others in ascending order |
| `AcornSearch.ResultsAreSound` | substrate/ruvector-acorn/src/search.rs:30-119 | on any graph every result passes the predicate, has its true distance and is reachable from the entry, and there are at most k |
| `AcornSearch.FewReachableAllFound` | substrate/ruvector-acorn/src/search.rs:30-119 | on any graph a beam of n finds every passing node reachable from the entry when there are at most k of them |
| `AcornSearch.CompleteGraphAllSeen` | substrate/ruvector-acorn/src/search.rs:30-119 | when the entry is linked to every other node, a beam of n gives the k passing nodes smallest by distance and id |
| `AcornSearch.GenerousBuildIsComplete` | substrate/ruvector-acorn/src/graph.rs:74-115 | with an edge budget of at least n - 1 every node is linked to every other |
| `AcornSearch.EveryNodeReachesFirst` | substrate/ruvector-acorn/src/graph.rs:74-115 | with any positive budget every node has a path to the first |
| `AcornSearch.BestProbe` | substrate/ruvector-acorn/src/search.rs:44-53 | the entry is a nearest one of the evenly spaced probes |
| `AcornSearch.Expand` | substrate/ruvector-acorn/src/search.rs:86-112 | visited marks, frontier and mirror heap are exactly those of offering the neighbours in order: a seen one is skipped; another is pushed when fewer than ef wait or when it is nearer than the greatest mirrored distance, which it then replaces in the mirror |
| `Acorn.Build` | substrate/ruvector-acorn/src/graph.rs:50-123 | empty and ragged data are refused; else every node has its nearest predecessors within the budget, and of the back-edges the earliest, in ascending order, as many as fit |
| `Acorn.ForwardPass` | substrate/ruvector-acorn/src/graph.rs:74-97 | each node's forward list is its nearest predecessors by distance and id, as many as the budget allows |
| `Acorn.MergeBackEdges` | substrate/ruvector-acorn/src/graph.rs:99-116 | lists keep their forward part, gain only back-edges, in ascending order, never exceed the budget, and miss a back-edge only when full of earlier ones |
| `Acorn.Row` | substrate/ruvector-acorn/src/graph.rs:135-137 | row i of the flat buffer is vector i |
| `Nearest.FlatFilteredSearch` | substrate/ruvector-acorn/src/search.rs:127-153 | the k passing nodes smallest by distance and id, sorted by distance |
| `Nearest.FlatKNearest` | substrate/ruvector-acorn/src/graph.rs:148-165 | id for id what sorting everything and truncating gives |
| `Nearest.BoundedScan` | substrate/ruvector-acorn/src/search.rs:135-148 | a bounded heap that is scanned into in order of ids holds the k smallest by distance and id |
| `Nearest.ExactIsTopK` | substrate/ruvector-acorn/src/graph.rs:167-183 | sorting everything and truncating gives the k smallest by distance and id, in that order |
| `Nearest.TopKUnique` | substrate/ruvector-acorn/src/graph.rs:167-183 | there is one set of k smallest |
| `Nearest.L2Sq` | substrate/ruvector-acorn/src/dist.rs:9-36 | the sum unrolled over four accumulators is the squared distance |
| `Nearest.DistanceOfParts` | substrate/ruvector-acorn/src/dist.rs:9-36 | the distance of two vectors is the sum of the distances of their parts, and in one dimension the square of the difference |
| `Ring.RingRefinesQueue` | substrate/ruv-swarm-transport/src/shared_memory.rs:49-131 | over every sequence of calls the ring answers as a bounded first-in first-out queue of byte strings |
| `Ring.WriteEnqueues` | substrate/ruv-swarm-transport/src/shared_memory.rs:49-87 | a message of less than 2^32 bytes is accepted if and only if its frame fits what is free, and then is last in the queue; a refusal changes nothing and reports the free space |
| `Ring.WrittenLayout` | substrate/ruv-swarm-transport/src/shared_memory.rs:59-84 | every byte after an accepted write: from the tail on, around the end, the four bytes of the length, lowest first, then the message, and nothing else changes |
| `Ring.ReadDequeues` | substrate/ruv-swarm-transport/src/shared_memory.rs:90-131 | nothing if and only if the queue is empty, else its first message, which is removed |
| `Ring.MessageComesBackExactlyWhen` | substrate/ruv-swarm-transport/src/shared_memory.rs:60-61 | written to an empty ring with room, a message is read back if and only if its length fits the 32-bit prefix |
| `Ring.RingBuffer.constructor` | substrate/ruv-swarm-transport/src/shared_memory.rs:38-46 | a new buffer is the empty queue |
| `Ring.RingBuffer.Write` | substrate/ruv-swarm-transport/src/shared_memory.rs:49-87 | in place, byte by byte around the end of the buffer, exactly the specified write |
| `Ring.RingBuffer.Read` | substrate/ruv-swarm-transport/src/shared_memory.rs:90-131 | exactly the specified read; the bytes stay |
| `Ring.RingBuffer.AvailableSpace` | substrate/ruv-swarm-transport/src/shared_memory.rs:134-136 | capacity less the frames of the queued messages |
| `Ring.RingBuffer.IsEmpty` | substrate/ruv-swarm-transport/src/shared_memory.rs:139-141 | true if and only if the queue is empty |
| `RingConcurrency.DeliveredIsPrefixOfAccepted` | substrate/ruv-swarm-transport/src/shared_memory.rs:49-131 | under every interleaving of one writer and one reader the messages read are a prefix of those accepted, and the byte count is that of the rest and never exceeds the capacity |
| `RingConcurrency.ReadFindsNothingOnlyWhenCaughtUp` | substrate/ruv-swarm-transport/src/shared_memory.rs:90-131 | a read finds nothing if and only if all accepted messages were delivered, and the incomplete-message branch is never taken |
| `RingConcurrency.CopyNeverOverwritesUnread` | substrate/ruv-swarm-transport/src/shared_memory.rs:66-81 | copying a message in never touches an accepted and unread byte |
| `RingConcurrency.QuiescentRingIsQueue` | substrate/ruv-swarm-transport/src/shared_memory.rs:49-131 | between calls the ring is the sequential queue of what is accepted and not delivered |
| `RingConcurrency.NextKeepsInv` | substrate/ruv-swarm-transport/src/shared_memory.rs:49-131 | every load, locked copy and store of either side keeps the invariant of the two-thread machine |
| `RingWriters.WritersSafeExactlyWhen` | substrate/ruv-swarm-transport/src/shared_memory.rs:49-87 | under every interleaving of any number of threads writing any number of messages: whenever no write is under way the ring is a queue if and only if no thread ever loaded the tail between another one's load and store of it and no more was counted than there is room for; it then holds all accepted messages behind what was there, in the order in which the tail was stored |
| `RingWriters.ClashLosesMessage` | substrate/ruv-swarm-transport/src/shared_memory.rs:49-87 | after two accepted writes that clashed on an empty ring, the next read returns the message copied last; the other one's place has been overwritten |
| `RingWriters.AlternatingClashes` | substrate/ruv-swarm-transport/src/shared_memory.rs:49-87 | for any two messages that fit there is a schedule in which they are accepted and clash |
| `RingWriters.PlayedKeepsInv` | substrate/ruv-swarm-transport/src/shared_memory.rs:49-87 | every schedule of the writers keeps what is known of tail, size and bytes |
| `Tasks.TaskGraph.WouldCreateCycle` | crates/ruvos-mcp/src/runtime.rs:124-143 | true if and only if the dependency depends, directly or not, on the task |
| `Tasks.DependencyKeepsAcyclicExactlyWhen` | crates/ruvos-mcp/src/runtime.rs:61-67 | to an acyclic graph a dependency may be added without closing a cycle if and only if the cycle test answers no |
| `Tasks.TaskGraph.AddTask` | crates/ruvos-mcp/src/runtime.rs:57-59 | the task is stored under its id |
| `Tasks.TaskGraph.AddDependency` | crates/ruvos-mcp/src/runtime.rs:61-67 | adds the dependency to a known task that lacks it, and changes nothing else |
| `Tasks.TaskGraph.SetState` | crates/ruvos-mcp/src/runtime.rs:69-73 | changes the state of a known task, and nothing else |
| `Tasks.TaskGraph.PropagateFailure` | crates/ruvos-mcp/src/runtime.rs:166-188 | terminates; fails exactly the tasks from which a chain of Pending or Blocked tasks, each depending on the next, leads to the failed one, lists each once, and leaves all else alone |
| `Tasks.TaskGraph.ReadyTasks` | crates/ruvos-mcp/src/runtime.rs:79-92 | the filter loops list, each once, exactly the Pending tasks all of whose dependencies are present and Completed |
| `Scheduler.TaskScheduler.RefreshQueue` | crates/ruvos-mcp/src/runtime.rs:215-221 | appends exactly the ready tasks that the queue lacks, each once, in some order |
| `Scheduler.TaskScheduler.NextReady` | crates/ruvos-mcp/src/runtime.rs:223-235 | refreshes, discards what is not Pending, and sets the first Pending task Running |
| `Scheduler.TaskScheduler.MarkCompleted` | crates/ruvos-mcp/src/runtime.rs:237-241 | the task is Completed and leaves the queue, which is refreshed |
| `Scheduler.TaskScheduler.MarkFailed` | crates/ruvos-mcp/src/runtime.rs:243-246 | the task is Failed and leaves the queue |
| `Scheduler.TaskScheduler.MarkBlocked` | crates/ruvos-mcp/src/runtime.rs:248-251 | the task is Blocked and leaves the queue |
| `Scheduler.DispatchedWhenReady` | crates/ruvos-mcp/src/runtime.rs:223-235 | in every run a task is handed out only when it is Pending and all its dependencies are there and Completed |
| `Scheduler.DispatchedOnce` | crates/ruvos-mcp/src/runtime.rs:223-235 | no task is handed out twice |
| `Scheduler.NothingDispatchedOnlyWhenNoneReady` | crates/ruvos-mcp/src/runtime.rs:223-235 | something is handed out if and only if there is a Pending task all of whose dependencies are there and Completed |
| `Scheduler.NothingDispatchedBelowFailure` | crates/ruvos-mcp/src/runtime.rs:223-251 | in every run, from any graph: once a task has failed or been blocked, no task is ever handed out that depends on it through tasks that had not started when the scheduler began |
| `Scheduler.NothingDispatchedBelowFailureFromOrderly` | crates/ruvos-mcp/src/runtime.rs:223-251 | if everything that had started then had its dependencies Completed, no task is handed out that depends on a failed or blocked one in any way |
| `Scheduler.DispatchedBelowFailure` | crates/ruvos-mcp/src/runtime.rs:223-251 | an example of the contrary: a run that hands out a task below a Completed task below a failed one |
| `SchedulerFailures.OutlivesExactlyWhen` | crates/ruvos-mcp/src/runtime.rs:215-251 | for every graph and any two tasks: some run hands the one out after the other has failed or been blocked if and only if the one can be started without the other, and the other has failed, runs, or can be started and can reach the queue first |
| `SchedulerFailures.FailureStopsDependentsExactlyWhen` | crates/ruvos-mcp/src/runtime.rs:215-251 | in no run of a graph is a task handed out below a failed or blocked one if and only if no task that depends on another can outlive it in that sense |
| `SchedulerFailures.QueueOrderProtects` | crates/ruvos-mcp/src/runtime.rs:215-235 | a graph in which both tasks can be started and the dependent one does not need the other, and yet no run hands it out after the other's failure, since it is queued first |
| `SchedulerRuns.RunSettles` | crates/ruvos-mcp/src/runtime.rs:215-251 | in every run the queue holds exactly the ready tasks after every operation |
| `Scheduler.StuckOnlyWhenComplete` | crates/ruvos-mcp/src/runtime.rs:79-92 | without failures an acyclic graph with all dependencies present has a ready or running task until all are Completed |
| `Scheduler.AllTasksComplete` | crates/ruvos-mcp/src/runtime.rs:198-241 | if all start Pending, the graph is acyclic, no dependency is missing and every dispatched task completes, then once nothing is handed out and nothing runs, everything is Completed |
| `Scheduler.DispatchesBounded` | crates/ruvos-mcp/src/runtime.rs:223-235 | a run hands out at most as many tasks as have left Pending |
| `Hashing.LeavingChangesExactly` | substrate/ruvector-cluster/src/shard.rs:56-97 | when a node leaves, every key's list is the old preference list without it, truncated; it changes if and only if it listed the node |
| `Hashing.LeavingOnlyDeletes` | substrate/ruvector-cluster/src/shard.rs:56-65 | when a node leaves, every key's full preference list loses that node and is otherwise the same |
| `Hashing.JoiningMovesOnlyToNewcomer` | substrate/ruvector-cluster/src/shard.rs:36-53 | when a node joins, whatever hashes it takes over, a key's primary stays or becomes the new node |
| `Hashing.JoiningOnlyAdds` | substrate/ruvector-cluster/src/shard.rs:36-53 | if no hash was taken, every key's preference list gains the new node and is otherwise the same |
| `Hashing.LeavingUndoesJoiningExactlyWhen` | substrate/ruvector-cluster/src/shard.rs:36-65 | removing a node restores the ring as it was before it was added if and only if none of its hashes was taken |
| `Hashing.NodesForAreDistinct` | substrate/ruvector-cluster/src/shard.rs:68-97 | a key's nodes are distinct nodes of the ring, as many as asked for but at least one, or all of them |
| `Hashing.PreferenceIsByDistance` | substrate/ruvector-cluster/src/shard.rs:68-97 | nodes are listed by the clockwise distance of their nearest point |
| `Sharding.ConsistentHashRing.AddNode` | substrate/ruvector-cluster/src/shard.rs:36-53 | a known node changes nothing; else its virtual nodes are inserted, each taking the place of an equal hash |
| `Sharding.ConsistentHashRing.RemoveNode` | substrate/ruvector-cluster/src/shard.rs:56-65 | all points of the node go, and no other |
| `Sharding.ConsistentHashRing.GetNodes` | substrate/ruvector-cluster/src/shard.rs:68-97 | the walk from the hash onwards and once around gives exactly the truncated preference list |
| `Sharding.JumpInRange` | substrate/ruvector-cluster/src/shard.rs:165-184 | the bucket is below the number of buckets; without buckets it is 2^32 - 1 |
| `Sharding.JumpMovesOnlyToNewBuckets` | substrate/ruvector-cluster/src/shard.rs:165-184 | with more buckets a key keeps its bucket or moves to one of the new ones, however the division is rounded |
| `Sharding.JumpIsLastLanding` | substrate/ruvector-cluster/src/shard.rs:172-181 | the bucket is the last landing of the key's jumps below the number of buckets |
| `Sharding.ExactNextMovesOn` | substrate/ruvector-cluster/src/shard.rs:177-180 | the landing computed exactly is always beyond the last one |
| `Sharding.ExactNextIsFloor` | substrate/ruvector-cluster/src/shard.rs:177-180 | it is (b + 1) * 2^31 divided by one more than the 31 high bits of the hash, rounded down |
| `Sharding.ScrambledIsAffine` | substrate/ruvector-cluster/src/shard.rs:175-176 | the hash step takes 0 to 1, adds the multiplier 2862933555777941757 with each step up, modulo 2^64, and never takes two hashes to one |
| `Sharding.VirtualNodesHashApart` | substrate/ruvector-cluster/src/shard.rs:36-53 | a node has 150 virtual nodes; each hashes the node's name, a colon and its number in decimal digits, and no two virtual nodes of whatever nodes hash the same text |
| `Sharding.ShardRouter.GetShard` | substrate/ruvector-cluster/src/shard.rs:142-162 | cached or not, the shard is the one computed |
| `Sharding.ShardRouter.JumpConsistentHash` | substrate/ruvector-cluster/src/shard.rs:165-184 | the loop terminates and computes the specified bucket |
| `Sharding.ShardRouter.ClearCache` | substrate/ruvector-cluster/src/shard.rs:199-202 | the cache is emptied, which later answers cannot show |
| `Cluster.ClusterManager.AddNode` | substrate/ruvector-cluster/src/lib.rs:236-253 | adds node and points; afterwards every shard's primary and replicas are the ring's list, and primaries moved only to the new node |
| `Cluster.ClusterManager.RemoveNode` | substrate/ruvector-cluster/src/lib.rs:256-273 | removes node and points; if others remain every shard is the ring's list, and exactly the shards that listed the node changed; if none remain the shards stay as they were |
| `Cluster.ClusterManager.AssignShard` | substrate/ruvector-cluster/src/lib.rs:311-338 | refused if and only if the ring is empty; else the shard is placed on the ring's list for the hash of "shard:" and its number, new and active |
| `Cluster.ShardsHashApart` | substrate/ruvector-cluster/src/lib.rs:311-347 | the text hashed for a shard is "shard:" and digits that read as its number, and different shards hash different texts |
| `Cluster.PlacedExactlyWhen` | substrate/ruvector-cluster/src/lib.rs:311-363 | a shard is placed if and only if its primary and replicas are the ring's list for the hash of that text |
| `Cluster.ClusterManager.RebalanceShards` | substrate/ruvector-cluster/src/lib.rs:341-363 | places every shard on the ring's list for its own text, keeping what else is known of it; with an empty ring changes nothing and fails if and only if a shard is missing |
| `Cluster.ShardsMovedByLeaving` | substrate/ruvector-cluster/src/lib.rs:256-273 | between two balanced states with a node less, a shard's nodes differ if and only if the node was among them |
| `TaskQueue.NeverSilentlyLost` | crates/ruvos-mcp/src/task_queue.rs:139-193 | in every run with crashes, failing writes and overlapping recoveries: when a row is gone, some execution of its task had returned Ok, or an error had been written for it at some time and a later step pruned more than 604800 seconds after that time |
| `TaskQueue.FailedStaysSevenDays` | crates/ruvos-mcp/src/task_queue.rs:161-193 | a failure that is written stays in the table with its error and its time through all prunings at most 604800 seconds later, as long as no later verdict is written |
| `TaskQueue.RowsAreAsEnqueued` | crates/ruvos-mcp/src/task_queue.rs:139-153 | in every run type, caption, payload and creation time of each row are those with which its task was enqueued |
| `TaskQueue.StaysPendingUntilJudged` | crates/ruvos-mcp/src/task_queue.rs:213-251 | a pending row stays exactly as it is until a finished execution of its task is recorded, whatever crashes |
| `TaskQueue.RecoveryLeavesNonePending` | crates/ruvos-mcp/src/task_queue.rs:268-303 | a recovery pass that is not cut off and whose writes succeed leaves none of the rows it read pending, whatever runs beside it |
| `TaskQueue.AtMostThreeAttempts` | crates/ruvos-mcp/src/task_queue.rs:82-95 | in every run no live execution makes more than three attempts, and it gives up only after three |
| `TaskQueue.StepKeepsInv` | crates/ruvos-mcp/src/task_queue.rs:139-303 | every step keeps: rows belong to enqueued tasks, attempts are counted, only a success is about to delete a row |
| `TaskQueue.RunWithRetry` | crates/ruvos-mcp/src/task_queue.rs:82-95 | stops at the first success or the third failure, returns that outcome, and waits 50 ms and 100 ms in between |
| `TaskQueue.DelaysDouble` | crates/ruvos-mcp/src/task_queue.rs:83-90 | the delays of the back-off are 50 ms, doubled six times, and then 5 s |
| `TaskQueue.TaskStore.InsertPending` | crates/ruvos-mcp/src/task_queue.rs:139-153 | inserts a pending row unless the id is taken |
| `TaskQueue.TaskStore.MarkCompleted` | crates/ruvos-mcp/src/task_queue.rs:155-159 | deletes the row |
| `TaskQueue.TaskStore.MarkFailed` | crates/ruvos-mcp/src/task_queue.rs:161-167 | an existing row becomes failed with the error and the time |
| `TaskQueue.TaskStore.PruneOldFailures` | crates/ruvos-mcp/src/task_queue.rs:187-193 | deletes exactly the failed rows last updated more than 604800 seconds ago |
| `TaskQueue.TaskStore.ListPending` | crates/ruvos-mcp/src/task_queue.rs:169-185 | the ids of the pending rows, each once, oldest first |
| `TaskQueue.TaskStore.RecoverPending` | crates/ruvos-mcp/src/task_queue.rs:268-303 | each pending row is executed and deleted or marked failed unless that write fails, no other row changes, and the successes are counted |
| `TokenBucket.WindowBound` | crates/ruvos-mcp/src/rate_limiter.rs:46-70 | in any window of any run no more tokens are granted than the capacity and the rate times the window |
| `TokenBucket.BurstIsGranted` | crates/ruvos-mcp/src/rate_limiter.rs:46-58 | calls at one moment are all granted while there are tokens, so a full bucket grants its whole capacity at once |
| `TokenBucket.RefillSplits` | crates/ruvos-mcp/src/rate_limiter.rs:61-70 | refilling in two steps is refilling once |
| `TokenBucket.HintIsExact` | crates/ruvos-mcp/src/rate_limiter.rs:46-58 | after a denial a call succeeds if and only if it waits as long as the hint says, before that is rounded |
| `TokenBucket.ReportedHintSufficesExactlyWhen` | crates/ruvos-mcp/src/rate_limiter.rs:46-58 | waiting as long as reported is enough if and only if rounding and saturating did not shorten the wait; one nanosecond more always is, unless the wait does not fit |
| `TokenBucket.ReportedIsWait` | crates/ruvos-mcp/src/rate_limiter.rs:46-58 | the reported wait is never negative, and zero if and only if less than half a nanosecond is missing |
| `TokenBucket.HintHoldsThroughRetries` | crates/ruvos-mcp/src/rate_limiter.rs:46-58 | the same after any number of calls in between that come too early, all of which are denied |
| `TokenBucket.Bucket.constructor` | crates/ruvos-mcp/src/rate_limiter.rs:31-40 | a new bucket is full |
| `TokenBucket.Bucket.TryAcquire` | crates/ruvos-mcp/src/rate_limiter.rs:46-58 | refills, then takes a token or answers with the wait, rounded to nanoseconds and saturated |
| `TokenBucket.Bucket.Refill` | crates/ruvos-mcp/src/rate_limiter.rs:61-70 | adds what flowed in since the last refill, at most to the capacity |
| `TokenBucket.MultiProviderLimiter.Add` | crates/ruvos-mcp/src/rate_limiter.rs:98-101 | adds a full bucket last |
| `TokenBucket.MultiProviderLimiter.TryAcquire` | crates/ruvos-mcp/src/rate_limiter.rs:106-111 | the first bucket of that name decides and no other changes; unknown providers are not limited |

## Left out

- The stable sort of the finalized transactions itself: ConsensusOrder says which sets have an order that agrees with the comparator; what a sort does with the others is the library's. Signature checks, conflict detection and statistics of the consensus engine are stubs in the source.
- ConsensusTheorems.ClockCharacterizesAncestry: each operation of a node is one step of a run; the one race inside it, between reading the tips and taking the clock, is treated by RacingCreateExactlyWhen, and listing the tips itself is one step.
- Overflow of 64-bit counters and nonces: vector clocks, statistics and nonces are unbounded here.
- ConsensusTheorems.FinalizedExactly: needs a node that never prunes, because pruning takes away the children that justify an earlier finalization; FinalizedHasQuorum says what is left with pruning.
- Lake.FreshIsTransparent: each search is one step (a change of data inside one is treated by TornSearchIsCurrent and LeftEntryServedExactlyWhen), no warm installs from disk, and no more collections than a 32-bit reference count can count; its condition on the data is exact, by TransparentExactlyWhen.
- LakeHistories.TransparentExactlyWhen: the same bound on the number of collections; generations are numbers; opaque tokens, which no backend modelled here uses, would only add a case to the digest.
- Lake.SearchIsRecent: one search is one step; the racing of two searches is treated by RacingMissesDangleExactlyWhen alone.
- LakeTears.TornSearchIsCurrent: one torn search, with nothing else in the cache beside it; when the first version cannot be indexed and yet another collection had its witness cached, the search is outside the claim.
- Federation.FederatedIsGlobalBest: the targets are searched in any order, but each search is one step.
- Federation.OverRequestIsLeast: k plus the bonus is taken not to overflow the machine word; the logarithm is a parameter.
- Sidecar files, warm restarts, refresh from a directory, batch search, JSON bundles and prime timings of the router and the cache; installing a prebuilt index is modelled in the cache.
- File-system backend beyond the ruvec1 bytes and its generation token: path checks, registration and temporary files. Names and paths of 2^62 bytes or more.
- SharedCache.VectorCache.Search: a panic is an outcome like an error here; EveryPositionHasAnId shows that it cannot happen while the index finds only positions it was given.
- Rounding of 32-bit floats, NaN, and the parallel forms of graph building, scoring and priming; node ids are unbounded, the source's are 32 bits.
- AcornSearch.AcornSearch: the number of probes comes from a rounded square root, which is a parameter; heaps are sets of (distance, id) pairs, which are all different.
- AcornAdmission.WaitsExactlyWhen: about the entry's expansion, where nothing else waits; for later ones AcornSearch.AcornSearch says that each is the same offering of neighbours to the beam that is there.
- RingConcurrency.DeliveredIsPrefixOfAccepted: one writer and one reader, with atomic loads and stores in one total order and the locked copy as one step; weak memory is not modelled.
- RingWriters.WritersSafeExactlyWhen: no reader beside the writers, the size counter does not overflow, and the subtraction from the capacity wraps around, as in release builds; debug builds panic there.
- The transport around the ring buffer: polling, peers, codecs and broadcast.
- Saving and loading the scheduler, blocked-task queries, policies, budgets, failure classes and events of the runtime.
- Scheduler.DispatchedWhenReady: runs in which only Running tasks are marked and nobody else changes the graph.
- Health checks, discovery, start-up and statistics of the cluster manager, shard migration and load balancing; the asynchronous operations are taken one at a time.
- Sharding.JumpMovesOnlyToNewBuckets: the floating-point step is any function that always moves on; ExactNextMovesOn shows that the exact one does.
- SQLite itself: the task table is a map, a failing write changes nothing, and an execution's outcome is a parameter; waiting synchronously for a task is left out, since it touches no row.
- TaskQueue.RecoveryLeavesNonePending: task ids are never reused, as with random ids.
- TaskQueue.NeverSilentlyLost: the times of events are whatever the clock says; they need not increase.
- TokenBucket.HintIsExact: about the wait before it is rounded; ReportedHintSufficesExactlyWhen is about the reported one.
