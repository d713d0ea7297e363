# Priority service: a verified model of the compute engine

A pod of the priority service ranks orders for (PPS, BinTag) pairs. The repository holds the engine
four times, in Go with a C kernel, in plain Go, in Rust and in Kotlin. Each keeps

- an order registry, one metadata slot per order id, with a time to live;
- a two-way inverted index (TPID to orders, BinTag to orders, and the reverse maps);
- a flat matrix of saturating 16-bit scores, one row per PPS and one column per order;
- a list of tracked pairs and a topology map with a WarmingUp / Active / Removed status per pair.

A cycle purges expired orders, scatters item-dictionary changes through the index into the matrix
(Phase 1), ranks every pair into four tables with an in-place quickselect shared among workers
(Phase 2), publishes the buffer and promotes the warming pairs. Servers read the published buffer
without locks, behind a circuit breaker on the pair status.

## What is proved

1. **The engine refines a naive order book** (`Naive`, `Headline`, `RankedLists`, `BookHistory`,
   `PairTracking`, `GoEngine`, `Parallel*`). The book is a map from order id to the order's own data
   and score; it has no index and no matrix, and which orders it holds is read off the history of the
   run. After every run of ingests, evictions, pair changes and cycles, every published list is min(n,
   1000) of the n candidates the book names, in non-increasing key order, nothing better left out,
   then -1 padding; `RankedLists` says so table by table in the orders' own fields. Exactly the pairs
   added and not removed since are tracked and published. The go-cgo engine is written with its
   arrays, maps and loops and every method is proved against the value model; worker pools of any size
   under any schedule, with whatever their scratch held before, leave the very buffer of its own loop,
   and a cycle run by one pool for the scores and another for the ranking publishes the book's lists.
2. **Ordering and cost of selection** (`Quickselect`, `Selection`, `Ranking`, `KotlinPacked`). Both
   Go variants and the packed Kotlin variant select a top-k, their score sequences agree, and the
   comparisons of each non-trivial selection, counted where they are made, lie between n-1 and n(n-1)/2,
   and within n²/4 on distinct keys.
3. **The index** (`Index`, `GoIndex`, `RustIndex`). One first-occurrence deletion per reverse entry is
   the same as filtering; Go and Rust hold equal lists after every run.
4. **The Kotlin engine** (`KotlinEngine`, `KotlinRuns`, `KotlinBook`, `KotlinLists`, and in the code's
   own form `KotlinRegistry`, `KotlinScores`, `KotlinHotPath`). Over runs of ingests, evictions,
   freezes, pair changes and cycles, an engine reading the live maps follows the naive book, and each
   list it publishes is a function of the book: the first 1000 candidates by score descending, then id
   ascending, in the deadline tables under the condition given below. Reading frozen copies publishes
   the same, cycle by cycle, as long as nothing was ingested since the freeze. For two states that
   agree on the scores of active orders and a pair whose candidates fit, the four lists are the same
   exactly when the frozen and the live list name every active order equally often.
5. **The pair lifecycle** (`RustLifecycle`, `RustEngine`, `RustServing`, `PureTopology`, `GoLifecycle`).
   Invariants over all runs, a reader racing with publish and promotion, copy-on-write writers under a
   mutex, and when go-cgo serves a removed pair again.
6. **Drift** (`Drift`, `KotlinDrift`). How far a truncated score can be from the exact weighted one, in Go
   and in Kotlin, what an ingest writes, and where a score ends that leaves the range.

These promises do not hold for all inputs. Each is stated with the condition under which it does and with
an input that breaks it.

- A published list can name an order twice: `PublishedLaws.RepeatedTagRepeatsOrder` gives the event and
  the buffer, `Headline.ListedAsOftenAsTagged` says how often an order is listed, for lists of any
  length, leaving open only ties at the cut.
- The critical list shows the critical part of the deadline list, for lists of any length, if and only if
  one of two things holds. When that part leaves room in the list: every candidate's age keeps its side of
  the cut when converted to 32 bits. When it fills the list, with last key a: every candidate with a key
  above a is critical, and 1000 critical candidates have keys of at least a.
  `PublishedLaws.PublishedCriticalLaw` reads both off the book; `KotlinRuns.CriticalListOfRun` says the same
  of a Kotlin list in order. `CriticalLaw.CutAgreesExactly` gives the ages,
  `PublishedLaws.FarDeadlineBreaksCriticalLaw` a deadline and the two lists.
- A Kotlin list is in (score descending, id ascending) order if and only if no entry's score is the least
  32-bit integer, whose negation is itself, or every entry's is: `KotlinRuns.CyclesPublishInOrder`
  for the entries ranked, `KotlinBook.PublishedListsOfBook` for the book. `KotlinBook.DeadlinesOutOfOrder`
  publishes an order due in 2^31 seconds ahead of one due now.
- The score kernel saturates except when a sum leaves 32 bits and wraps to another value:
  `GoLaws.SaturationExactly`, with `GoLaws.SaturationCanFlip`. C leaves signed overflow undefined; the
  statement takes it to wrap.
- Reading frozen indexes misses an order ingested after the freeze: `KotlinEngine.StaleIndexMissesOrder`.
  `KotlinRuns.SameListExactly` is the exact condition for one pair of lists, given equal scores on active
  orders.
- A pair removed in go-cgo comes back with the next cycle if and only if it was also added since the last
  one: `GoLifecycle.RemovalRevokedExactly`, `GoLifecycle.RemovedPairServed`.

The comment on `removeUint32` (go-cgo-impl/registry.go:126) says the function swaps and shrinks. The
code shifts the tail and keeps the order; the model follows the code, and list order is part of what
`GoAndRustAgree` states.

## Conventions

Constants have the values of the go-cgo, Rust and Kotlin sources (300 000 orders, 1000 ids a list, four
tables). The number of PPS rows is a parameter. Contributions, base scores and quantities are reals;
conversions truncate toward zero, 32-bit additions wrap, and each kernel clamps to its own range. A
float outside the 32-bit range converts in Go as it does on amd64, and the sum in the C kernel wraps.
`now` and each cycle's updates are parameters. The library sort is a parameter too, any function that
returns the same entries in descending key order with ties in any order; `ParallelCycle.OrderSorts` and
`KotlinPacked.AscendingSorts` show that there are such functions.

## Model

| member | source | states |
|---|---|---|
| Common.PairKeyInjective | go-cgo-impl/types.go:51-53 | a pair key determines its PPS and BinTag |
| Quickselect.MedianOfThree | go-cgo-impl/compute.go:12-21 | the position returned is one of the three and holds their median key |
| Quickselect.PartitionDesc | go-cgo-impl/compute.go:25-40 | only lo..hi is rearranged, the pivot is the median of three, larger or equal keys end left of it and smaller ones right; exactly hi - lo comparisons, counted at the comparison |
| Quickselect.PivotStrictlyInside | go-cgo-impl/compute.go:26-28 | with distinct keys and a range of three or more, the pivot leaves entries on both sides |
| Quickselect.NarrowOnce | go-cgo-impl/compute.go:52-61 | one round leaves the partitioned array and the side holding the target, keeps both cuts of the array, spends hi - lo comparisons, and with distinct keys shrinks the range by at least two |
| Quickselect.SelectAround | go-cgo-impl/compute.go:51-62 | the target position ends with the entry of that rank, and the comparisons counted are those of the ranges the search partitions |
| Quickselect.SearchNests | go-cgo-impl/compute.go:51-62 | the partitioned ranges start with the whole array, each lies strictly inside the one before and holds the target, and together they cost at least n-1 comparisons |
| Quickselect.SearchFinds | go-cgo-impl/compute.go:51-62 | from any reached range the search ends with the array cut at the target and just after it |
| Quickselect.SearchCost | go-cgo-impl/compute.go:51-62 | the comparisons of a search stay within the recurrence, at the cheaper rate for distinct keys |
| Quickselect.WorstScans | go-cgo-impl/compute.go:44-62 | the worst case of the scan recurrence is n(n-1)/2 |
| Quickselect.DistinctScans | java_kotlin/src/main/kotlin/com/greyorange/ps/Compute.kt:59-70 | with strictly inside pivots the recurrence is at most n²/4 |
| Selection.QuickselectTopK | go-cgo-impl/compute.go:44-62 | a permutation whose first k scores are all at least the others; untouched and free when k makes it trivial; otherwise the comparisons of a search for k, between n-1 and n(n-1)/2, within n²/4 on distinct keys |
| Selection.QuickselectTopKSorted | go-pure-impl/compute.go:65-83 | the same split and budget from target k-1, with the prefix sorted |
| Selection.SelectionBudget | go-pure-impl/compute.go:65-83 | both variants keep the same budget on every input |
| Selection.ArrangedIsTop | go-pure-impl/compute.go:241-256 | whatever the library sort does with ties, both variants put a top list in front |
| Selection.QuickselectAndCopy | go-cgo-impl/compute.go:249-261 | dst receives the ids of the front of the arranged slice, which is a top-k list of the scratch entries, and nothing else changes |
| Selection.QuickselectAndCopySorted | go-pure-impl/compute.go:241-256 | the go-pure routine meets the same contract |
| Ranking.TopScores | go-cgo-impl/compute.go:249-261 | the scores of any top-k list are the first of the one descending arrangement, however ties were broken |
| Ranking.TopScoresAgree | go-pure-impl/compute.go:65-83 | top-k lists of permuted inputs, from either variant, show the same scores |
| Selection.ThresholdListIsPrefix | go-cgo-impl/compute.go:329-341 | a top-k of the entries above a threshold scores like the longest such prefix of the top-k of all |
| Index.AddConsistent | go-cgo-impl/registry.go:79-99 | adding keeps forward and reverse multiplicities equal and leaves no empty list |
| Index.DropConsistent | go-cgo-impl/registry.go:102-124 | removing keeps the same invariant |
| Index.AddAt | go-cgo-impl/registry.go:79-99 | a key's list after an addition: the others in order, then the order once per mention of the key |
| Index.DropAfterAdd | go-cgo-impl/registry.go:79-124 | removing after adding is removing alone |
| Index.AddAgain | go-cgo-impl/registry.go:77-80 | repeating an addition changes nothing |
| SeqFacts.RemoveTimesIsFilter | go-cgo-impl/registry.go:127-134 | as many first-occurrence deletions as there are occurrences filter the value out and keep the order of the rest |
| GoIndex.RemoveUint32 | go-cgo-impl/registry.go:127-134 | the list without its first occurrence of the value, in order, at whatever position that is; unchanged if there is none |
| GoIndex.RemoveEntries | go-cgo-impl/registry.go:103-111 | the loop deletes the order once per reverse entry in each forward list and never leaves an empty one |
| GoIndex.UnlinkedIsDropped | go-cgo-impl/registry.go:102-124 | in a consistent index those deletions filter the order out of every list |
| GoIndex.InvertedIndexes.RemoveOrder | go-cgo-impl/registry.go:102-124 | both directions lose the order everywhere, all else in place, invariant kept |
| GoIndex.InvertedIndexes.AddOrder | go-cgo-impl/registry.go:79-99 | stale entries go, then the order joins each of its lists; invariant kept |
| RustIndex.RustIndexes.RemoveOrder | rust-impl/src/registry.rs:112-127 | the lists of the order's own keys are filtered, empty lists stay |
| RustIndex.RustIndexes.AddOrder | rust-impl/src/registry.rs:98-110 | removal, pushes, and reverse entries even for no keys |
| RustIndex.GoAndRustAgree | rust-impl/src/registry.rs:98-127 | after any sequence of operations both languages hold equal lists, Go lacking exactly the keys Rust maps to nothing |
| Naive.ScatterIsGather | go-cgo-impl/compute.go:184-207 | under either language's conversion, the delta scattered through the index is, per order, the sum over updates of the truncated change times its multiplicity in the order's own TPIDs |
| Naive.StepCoupled | go-cgo-impl/compute.go:126-179 | every action keeps registry, index and matrix equal to what the book prescribes |
| Naive.RunCoupled | go-cgo-impl/compute.go:126-179 | so does every run from the initial engine |
| BookHistory.HeldExactly | go-cgo-impl/registry.go:30-56 | after any run the book, and so the engine, holds exactly the orders with an ingest that nothing later replaced, evicted or outlived by more than 3600 seconds, with the fields of that event |
| Headline.EntriesAreCandidates | go-cgo-impl/compute.go:304-336 | the entries the pass collects are, as a multiset, the book's candidates with the book's keys |
| Headline.PublishedListsAreTopK | go-cgo-impl/compute.go:247-348 | whatever run led here, each list of the last cycle's buffer is the book's top list for its pair and table |
| RankedLists.HeuristicList | go-cgo-impl/compute.go:304-341 | after any run the 1000 slots of a pair's first table show every order with the tag, once per mention, by score descending; what is left out of a full list has no larger score; -1 after the ids |
| RankedLists.LargeList | go-cgo-impl/compute.go:324-328 | likewise for the second table, only orders of at least 10 units |
| RankedLists.DeadlineList | go-cgo-impl/compute.go:329-331 | likewise for the third table, only orders with a deadline, earlier deadlines first while within 2^31 seconds of now |
| RankedLists.CriticalList | go-cgo-impl/compute.go:332-341 | likewise for the fourth table, only deadlines up to 1800 seconds ahead |
| Headline.ServedFromBookList | go-cgo-impl/types.go:86-101 | asking for k ids yields the first min(k, n) of the list and never padding |
| Headline.ListRepeatsOnlyRepeatedTags | go-cgo-impl/compute.go:316-335 | no list repeats an order unless a candidate names the tag twice; exact when all candidates fit |
| Headline.ListedAsOftenAsTagged | go-cgo-impl/compute.go:249-261 | past 1000 candidates too: an order above the last listed key is listed once per mention of the tag, one below it never |
| PublishedLaws.RepeatedTagRepeatsOrder | go-cgo-impl/registry.go:85-87 | after one event naming a tag twice, the buffer the next cycle publishes shows exactly that order, twice |
| GoLaws.PurgeIsEvictions | go-cgo-impl/registry.go:34-56 | a purge equals evicting the expired orders one by one in any order, even with repetitions |
| GoLaws.PurgeSparesOthers | go-cgo-impl/registry.go:45-56 | unexpired orders keep metadata, scores and entries, and every list position moves down by exactly the expired entries before it |
| GoLaws.ReachableIsTidy | go-cgo-impl/scoring.c:7-27 | in every reachable state cells lie in -32767..32767, inactive columns are zero, indexed orders are active and all rows are equal |
| PublishedLaws.SharedTagShowsSameKeys | go-cgo-impl/compute.go:304-341 | after any run, pairs sharing a BinTag show equal key sequences in the published buffer |
| GoLaws.SaturationExactly | go-cgo-impl/scoring.c:13-16 | with overflow taken to wrap, the kernel gives the clamped sum, except exactly when the sum wraps to another saturated value |
| GoLaws.SaturationCanFlip | go-cgo-impl/scoring.c:13-16 | a delta that turns the best score into the worst |
| GoLaws.Phase1Cell | go-cgo-impl/compute.go:184-230 | Phase 1 leaves in every cell clamp(wrap(old + what the order's own TPIDs gather)), which is clamp of the sum exactly when the sum wraps harmlessly |
| CriticalLaw.CutAgreesExactly | go-cgo-impl/compute.go:329-334 | when the converted age and the deadline fall on the same side of the cut, for all inputs |
| CriticalLaw.CriticalIsPrefixOfDeadlines | go-cgo-impl/compute.go:279-341 | under agreeing cuts the critical scores are the longest prefix of the deadline scores at or above -1800, also past 1000 candidates and with ties |
| CriticalLaw.CriticalLawExactly | go-cgo-impl/compute.go:329-341 | for lists of any length, that law holds if and only if, the critical part leaving room in the list, every candidate's cut agrees, or, filling it down to key a, every candidate above a is critical and 1000 critical ones reach a |
| PublishedLaws.PublishedCriticalLaw | go-cgo-impl/compute.go:279-348 | the same equivalence for the two published lists of a pair after any run, the condition read off the book; agreeing cuts suffice at any length |
| PublishedLaws.FarDeadlineBreaksCriticalLaw | go-cgo-impl/compute.go:330-334 | a deadline that leads the published deadline list with the largest key while the critical list stays empty |
| Topology.TopologyState.Set | go-cgo-impl/topology.go:62-90 | the map after a write is the old map with that one key changed |
| GoLifecycle.QueuedExactly | go-cgo-impl/compute.go:150-174 | in every run the warm-up queue holds exactly the pairs added since the last cycle, removed or not |
| GoLifecycle.CycleActivatesExactly | go-cgo-impl/compute.go:352-357 | a cycle makes exactly the pairs added since the last one active and leaves every other status alone |
| GoLifecycle.StatusChanges | go-cgo-impl/compute.go:150-174 | an addition makes its pair warming up, a removal removed, every other status stays |
| GoLifecycle.RemovalRevokedExactly | go-cgo-impl/compute.go:164-174 | a pair just removed is active after the next cycle if and only if it was added since the last one |
| GoLifecycle.RemovedPairServed | go-cgo-impl/compute.go:352-357 | an addition and a removal between two cycles leave the pair active |
| FlatMatrix.SweptRows | go-cgo-impl/scoring.c:7-19 | a flat sweep with the scattered delta is Phase 1 on every row |
| GoEngine.PPSMatrix.EvictOrder | go-cgo-impl/scoring_bridge.go:49-54 | the order's cell becomes zero in every row, an id out of range changes nothing |
| GoEngine.PPSMatrix.UpdateRowRange | go-cgo-impl/scoring.c:7-19 | exactly the cells of the given rows gain their delta, saturating |
| GoEngine.OrderRegistry.Upsert | go-cgo-impl/registry.go:17-22 | the slot is replaced, an id out of range is dropped |
| GoEngine.OrderRegistry.EvictOrder | go-cgo-impl/registry.go:34-42 | registry, index and matrix change together as one eviction; inactive or unknown ids are ignored |
| GoEngine.OrderRegistry.PurgeExpired | go-cgo-impl/registry.go:45-56 | the sweep over the slots has the effect of one purge |
| GoEngine.IngestOrder | go-cgo-impl/mock.go:276-300 | metadata, both index directions, stale entries gone; every row holds 100 times the base, cut toward zero and held in -32767..32767 |
| GoState.BaseIsScaled | go-cgo-impl/mock.go:292-298 | the written score is 100 times the base cut toward zero, -32767 or 32767 beyond those, and -32767 when the conversion leaves 32 bits |
| GoEngine.CreditList | go-cgo-impl/compute.go:202-206 | each order's delta gains the change once per occurrence, wrapping in 32 bits |
| GoEngine.BuildDelta | go-cgo-impl/compute.go:191-207 | the delta array is the scatter of all updates |
| GoEngine.ComputeEngine.constructor | go-cgo-impl/compute.go:88-112 | the empty engine follows the empty book |
| GoEngine.ComputeEngine.Phase1Update | go-cgo-impl/compute.go:184-233 | the chunked sweep is Phase 1 of the model |
| GoEngine.ComputeEngine.FillScratch | go-cgo-impl/compute.go:304-336 | the single pass fills four slices, each as its table's filter prescribes |
| GoEngine.ComputeEngine.Phase2Rank | go-cgo-impl/compute.go:270-348 | a fresh buffer in which every list is the front of its pair's and table's arranged entries |
| GoEngine.ComputeEngine.PromoteWarmingPairs | go-cgo-impl/compute.go:352-357 | every queued pair active, the queue empty |
| GoEngine.ComputeEngine.RunCycleWithDict | go-cgo-impl/compute.go:126-146 | the engine keeps following its book, every list it publishes is the book's, and the queued pairs are promoted |
| GoEngine.ComputeEngine.HandleOrderRemoved | go-cgo-impl/compute.go:177-179 | the order leaves the book, the engine keeps following it |
| GoEngine.ComputeEngine.HandleAddPair | go-cgo-impl/compute.go:150-160 | the pair is in the list, which gained at most that pair at its end; its status is warming up and no other changed; it is queued |
| GoEngine.ComputeEngine.HandleRemovePair | go-cgo-impl/compute.go:164-174 | exactly that pair is gone from the list, the others keep their order; its status is removed and no other changed; the queue stays |
| Naive.TrackedExactly | go-cgo-impl/compute.go:154-159 | tracking appends the pair unless it is there, and changes nothing else |
| Naive.UntrackedInOrder | go-cgo-impl/compute.go:167-173 | what untracking leaves of a list is what it leaves of the parts, in order |
| PairTracking.TrackedAfterRun | go-cgo-impl/compute.go:150-174 | after any run exactly those pairs are tracked that were added, or there at the start, and not removed since; none twice if none was at the start |
| PairTracking.AddedPairIsPublished | go-cgo-impl/compute.go:150-160 | a pair added and not removed since has its four lists in the buffer of the next cycle |
| GoEngine.GetList | go-cgo-impl/types.go:87-101 | the first k ids up to the first empty slot |
| GoEngine.ApplyDeltaToRow | go-pure-impl/compute.go:27-31 | every cell under the delta is the saturated sum, the rest of the row stays |
| Workers.ChunksCover | go-cgo-impl/compute.go:281-295 | ceiling-division ranges leave nothing over |
| Workers.OneOwner | go-cgo-impl/compute.go:281-298 | every item belongs to exactly one worker |
| ParallelPhase1.AnyScheduleSweeps | go-cgo-impl/compute.go:209-230 | cell by cell under any interleaving, finished workers leave the sequential sweep |
| ParallelPhase1.SomeScheduleFinishes | go-cgo-impl/compute.go:221-230 | every pool can finish |
| ParallelPhase2.Job.StepKeepsInv | go-cgo-impl/compute.go:300-343 | no step of one worker disturbs another's scratch or list slots |
| ParallelPhase2.Job.AnyScheduleFinalBuffer | go-cgo-impl/compute.go:290-345 | any finished schedule leaves the buffer determined by the orders alone, though each worker refills one scratch order by order, from whatever it held |
| ParallelPhase2.Job.SomeScheduleFinishes | go-cgo-impl/compute.go:292-345 | every pool can finish |
| ParallelPhase2.PoolsAgree | go-cgo-impl/compute.go:290-345 | pools of any sizes agree, so any of them agrees with one sequential worker |
| ParallelCycle.AnyScheduleRanks | go-cgo-impl/compute.go:270-348 | any finished pool leaves the lists its routine makes of the pairs' entries, a ranked buffer |
| ParallelCycle.PoolEqualsLoop | go-cgo-impl/compute.go:290-345 | that is the very buffer the engine's own loop over workers returns |
| ParallelCycle.AnyScheduleScores | go-cgo-impl/compute.go:184-233 | any finished pool over the flat matrix computes the model's Phase 1 |
| ParallelCycle.PooledCyclePublishesBookLists | go-cgo-impl/compute.go:126-146 | after any run, a cycle scored by one pool and ranked by another, of any sizes and schedules, extends the run and publishes the book's lists |
| ParallelCycle.EveryRunCanCycle | go-cgo-impl/compute.go:126-146 | from every reachable state, for every update, time and pool size, a starting matrix and delta exist and schedules complete both phases of the next cycle, so the runs the other statements speak of never get stuck |
| Drift.ItemDictClient.Fetch | go-cgo-impl/mock.go:80-90 | each update carries the contribution it replaces |
| Drift.FetchedExactly | go-cgo-impl/mock.go:80-90 | one update per draw, whose old value is the last one drawn for the TPID, or the stored one, or zero |
| Drift.ChainTelescopes | go-cgo-impl/mock.go:80-90 | chained updates sum to the change of the order's contributions |
| Drift.GatherDrift | go-cgo-impl/compute.go:192-207 | the gathered integer sum is within one per hit of 100 times the exact change |
| Drift.HugeDiff | go-cgo-impl/compute.go:192-207 | a change beyond 32 bits counts as the least integer, as on amd64 |
| Drift.DriftBound | go-cgo-impl/mock.go:292-298 | with chained updates and no saturation the score is within n+1 of the exact scaled value after n hits |
| Drift.ScoreTrail | go-cgo-impl/compute.go:184-233 | an order untouched by ingests and evictions follows exactly its batches |
| Drift.RunDrift | go-cgo-impl/compute.go:126-146 | the same bound for the score the book holds after any stretch of a run |
| KotlinPacked.UnpackRecoversID | java_kotlin/src/main/kotlin/com/greyorange/ps/Compute.kt:233-248 | the low half of a packed word is the id, and the word fits 64 bits |
| KotlinPacked.PackedOrder | java_kotlin/src/main/kotlin/com/greyorange/ps/Compute.kt:233-248 | word order is (score descending, id ascending), exactly unless one score of the two is the least 32-bit integer |
| KotlinPacked.ListInOrderExactly | java_kotlin/src/main/kotlin/com/greyorange/ps/Compute.kt:72-81 | a list is the first min(n, 1000) ids of that order if and only if no score of the slice is the least 32-bit integer, or every one is |
| KotlinPacked.ListIgnoresInputOrder | java_kotlin/src/main/kotlin/com/greyorange/ps/Compute.kt:72-81 | the order of the eligible list does not matter |
| KotlinPacked.PackTopKAndCopy | java_kotlin/src/main/kotlin/com/greyorange/ps/Compute.kt:74-81 | dst receives the ids of the smallest words in order and nothing else changes, with the comparisons of one selection |
| KotlinPacked.DistinctWords | java_kotlin/src/main/kotlin/com/greyorange/ps/Compute.kt:233-248 | a slice without repeated ids packs into distinct words |
| KotlinEngine.StepKeepsIndex | java_kotlin/src/main/kotlin/com/greyorange/ps/Registry.kt:40-58 | evictions, purges and cycles keep the active part of the frozen lists equal to the live lists; freezing establishes it |
| KotlinEngine.FrozenScatter | java_kotlin/src/main/kotlin/com/greyorange/ps/Compute.kt:158-167 | stale TPID lists scatter to active orders what the live ones do |
| KotlinEngine.Phase1Alike | java_kotlin/src/main/kotlin/com/greyorange/ps/Compute.kt:148-191 | hence stale entries change only inactive slots |
| KotlinEngine.EntriesSkipInactive | java_kotlin/src/main/kotlin/com/greyorange/ps/Compute.kt:225-251 | the active-filtered frozen list yields the slice of the live list |
| KotlinEngine.FrozenPublishesLive | java_kotlin/src/main/kotlin/com/greyorange/ps/Registry.kt:97-143 | over any run, pair changes included, without ingests after the freeze, frozen and live engines publish the same lists cycle by cycle |
| KotlinEngine.StartIsCurrent | java_kotlin/src/main/kotlin/com/greyorange/ps/Compute.kt:91-93 | an engine without orders meets that lemma's assumptions |
| KotlinRuns.StartupPublishesLive | java_kotlin/src/main/kotlin/com/greyorange/ps/Main.kt:30-48 | the startup sequence: after any ingests and one freeze, every later cycle publishes what the live maps would |
| KotlinRuns.SameListExactly | java_kotlin/src/main/kotlin/com/greyorange/ps/Compute.kt:214-256 | given equal scores on active orders and a pair whose candidates fit, all four lists read through frozen and live maps are the same if and only if both name every active order equally often |
| KotlinEngine.StaleIndexMissesOrder | java_kotlin/src/main/kotlin/com/greyorange/ps/Registry.kt:97-109 | an ingest after the freeze makes the two publish different lists |
| KotlinRuns.CyclesPublishInOrder | java_kotlin/src/main/kotlin/com/greyorange/ps/Compute.kt:198-264 | after any run a published list is the first min(n, 1000) ids in (score descending, id ascending) order if and only if no entry, or every entry, has the least score; the score tables always are |
| KotlinRuns.CriticalListOfRun | java_kotlin/src/main/kotlin/com/greyorange/ps/Compute.kt:242-256 | after any run, for a pair whose deadline list is in order: the critical list is, id by id, a prefix of it if every cut agrees, and its scores are the critical part of the deadline scores exactly under the condition of `CriticalLawExactly` |
| KotlinBook.LiveStepCoupled | java_kotlin/src/main/kotlin/com/greyorange/ps/Compute.kt:111-191 | every action, pair changes included, keeps registry, index and matrix of the live-reading engine equal to what the book prescribes |
| KotlinBook.LiveRunCoupled | java_kotlin/src/main/kotlin/com/greyorange/ps/Compute.kt:111-191 | so does every run from the initial engine |
| KotlinBook.PublishedListsOfBook | java_kotlin/src/main/kotlin/com/greyorange/ps/Compute.kt:198-264 | after any live-reading run and any disciplined frozen-reading run, a published list is a function of the book, the first min(n, 1000) of its candidates in (score descending, id ascending) order if and only if no candidate, or every candidate, has the least key; the score tables always are |
| KotlinLists.HeuristicList | java_kotlin/src/main/kotlin/com/greyorange/ps/Compute.kt:214-256 | after any live-reading run and any disciplined frozen-reading run, a pair's first list shows every order with the tag, once per mention, by score descending then id ascending; what is left out of a full list comes after all of it |
| KotlinLists.LargeList | java_kotlin/src/main/kotlin/com/greyorange/ps/Compute.kt:236-241 | likewise for the second list, only orders of at least 10 units |
| KotlinLists.DeadlineList | java_kotlin/src/main/kotlin/com/greyorange/ps/Compute.kt:242-247 | likewise for the third list, only orders with a deadline, by deadline then id while within 2^31 seconds of now |
| KotlinLists.CriticalList | java_kotlin/src/main/kotlin/com/greyorange/ps/Compute.kt:242-248 | likewise for the fourth list, only deadlines up to 1800 seconds ahead |
| BookHistory.KHeldExactly | java_kotlin/src/main/kotlin/com/greyorange/ps/Registry.kt:40-58 | after any run the Kotlin book holds exactly the orders below 300 000 with an ingest that nothing later replaced, evicted or outlived by more than 3600 seconds, with the fields of that event |
| KotlinDrift.IngestedScore | java_kotlin/src/main/kotlin/com/greyorange/ps/Mock.kt:114-118 | an ingest books 100 times the base, cut toward zero and held in -32768..32767 |
| KotlinDrift.CycleScore | java_kotlin/src/main/kotlin/com/greyorange/ps/Compute.kt:148-191 | a cycle leaves every score within one per hit of the old one plus 100 times the exact change, held in -32768..32767, and exactly at an end of that range when the exact value is beyond it by the hits |
| KotlinDrift.KRunDrift | java_kotlin/src/main/kotlin/com/greyorange/ps/Compute.kt:148-191 | while the exact score stays inside the range, the booked score is within hits + 1 of 100 times the base plus the change of the order's contributions, after any stretch of a run |
| KotlinDrift.HugeChange | java_kotlin/src/main/kotlin/com/greyorange/ps/Compute.kt:161 | a change beyond 32 bits counts as the largest or the least integer |
| PairTracking.KTrackedAfterRun | java_kotlin/src/main/kotlin/com/greyorange/ps/Compute.kt:127-138 | after any run exactly those pairs are tracked that were added, or there at the start, and not removed since |
| PairTracking.KAddedPairIsPublished | java_kotlin/src/main/kotlin/com/greyorange/ps/Compute.kt:127-132 | each of them has four lists in what the next cycle publishes, the book's when the maps read are current |
| KotlinBook.DeadlinesOutOfOrder | java_kotlin/src/main/kotlin/com/greyorange/ps/Compute.kt:242-248 | a run of two orders whose deadline list comes out in the wrong order |
| KotlinRuns.ScratchNeverOverflows | java_kotlin/src/main/kotlin/com/greyorange/ps/Compute.kt:20-29 | if no event names a pair's tag twice, no run fills a scratch array beyond its capacity for that pair, and its words are distinct, so its selections meet the n²/4 bound |
| KotlinRegistry.OrderRegistry.Upsert | java_kotlin/src/main/kotlin/com/greyorange/ps/Registry.kt:21-32 | each of the four parallel arrays has the new value in that slot and nothing else changed, an id out of range is ignored |
| KotlinRegistry.Store.EvictOrder | java_kotlin/src/main/kotlin/com/greyorange/ps/Registry.kt:40-46 | arrays, index and matrix change together as one eviction; inactive or unknown ids are ignored |
| KotlinRegistry.Store.PurgeExpired | java_kotlin/src/main/kotlin/com/greyorange/ps/Registry.kt:48-58 | the sweep over the arrays has the effect of one purge |
| KotlinRegistry.Store.IngestOrder | java_kotlin/src/main/kotlin/com/greyorange/ps/Mock.kt:97-120 | record and both index directions; every row holds 100 times the base, cut toward zero and held in -32768..32767; an id out of range is ignored |
| KotlinScores.ScoreUpdater.Accumulate | java_kotlin/src/main/kotlin/com/greyorange/ps/Compute.kt:152-167 | the reused delta array holds the scatter through the frozen map, whatever it held before |
| KotlinScores.ScoreUpdater.Phase1Update | java_kotlin/src/main/kotlin/com/greyorange/ps/Compute.kt:148-191 | the chunked row loops compute the model's Phase 1 with the full 16-bit range |
| KotlinHotPath.FreezeLists | java_kotlin/src/main/kotlin/com/greyorange/ps/Registry.kt:111-129 | the copy equals the live map, whatever order the keys come in |
| KotlinHotPath.FrozenIndexes.Materialize | java_kotlin/src/main/kotlin/com/greyorange/ps/Registry.kt:103-105 | the BinTag copy becomes current, the TPID copy is untouched |
| KotlinHotPath.FrozenIndexes.MaterializeTpid | java_kotlin/src/main/kotlin/com/greyorange/ps/Registry.kt:107-109 | the TPID copy becomes current, the BinTag copy is untouched |
| KotlinHotPath.SliceFits | java_kotlin/src/main/kotlin/com/greyorange/ps/Compute.kt:20-29 | a list without repeats never yields more words than a scratch array holds |
| KotlinHotPath.WorkerScratch.Fill | java_kotlin/src/main/kotlin/com/greyorange/ps/Compute.kt:221-251 | the pass leaves in each reused array exactly the packed entries of its table, and fails exactly when the longest slice outgrows an array |
| KotlinHotPath.RankPair | java_kotlin/src/main/kotlin/com/greyorange/ps/Compute.kt:214-256 | the four lists of the pair show the first ids of their tables, padded, within budget, and no other pair is touched; on overflow nothing is written |
| RustLifecycle.LifecycleInvariant | rust-impl/src/compute.rs:196-228 | over all runs: warming up exactly when pending, active or warming up exactly when tracked, keys distinct, rows inside the matrix |
| RustLifecycle.EventsAreExact | rust-impl/src/compute.rs:204-228 | an addition makes the pair warming up, queues and tracks it; a removal makes it removed and drops it from both lists; neither touches another pair |
| RustLifecycle.TrackedAfterRun | rust-impl/src/compute.rs:204-228 | after any run exactly those pairs are tracked that were added, or there at the start, and not removed since |
| RustLifecycle.PromotedPairsHaveRows | rust-impl/src/compute.rs:73-77 | after a cycle active means having a row in the buffer just published, and only pending pairs changed status |
| RustLifecycle.RemovedStaysRemoved | rust-impl/src/topology.rs:37-57 | a removed pair stays removed and untracked until added again |
| RustLifecycle.GrowthKeepsScores | rust-impl/src/compute.rs:212-218 | growing the matrix keeps every score and zeroes the new rows |
| RustLifecycle.BreakerFollowsLifecycle | rust-impl/src/server.rs:85-103 | in every reachable state: not found exactly when untracked, unavailable exactly when queued, internal exactly when active but missing from the index |
| RustLifecycle.AnswersFollowLifecycle | rust-impl/src/server.rs:82-114 | after a cycle and a refresh a tracked pair is served the four lists of its own row and any other pair is not found |
| RustLifecycle.StaleIndexPanics | rust-impl/src/types.rs:114-120 | after a removal an older index can name a row the new buffer lacks |
| RustEngine.LifecycleEngine.HandleAddPair | rust-impl/src/compute.rs:204-220 | the handler's effect on topology, queue, pairs and matrix |
| RustEngine.LifecycleEngine.HandleRemovePair | rust-impl/src/compute.rs:222-228 | the handler's effect on topology, queue and pairs |
| RustEngine.LifecycleEngine.PublishAndPromote | rust-impl/src/compute.rs:73-77 | the buffer's rows are those of the pairs, then the whole queue is promoted |
| RustEngine.PriorityServer.RefreshPairIndex | rust-impl/src/server.rs:117-122 | the index is rebuilt from the pair list alone |
| RustLifecycle.IndexFinds | rust-impl/src/server.rs:59-73 | the index finds exactly the listed pairs, each at its own position |
| RustServing.TraceKeepsInv | rust-impl/src/compute.rs:204-220 | every interleaving of the add-only system keeps active pairs published, rows a prefix of the pairs and all old indexes valid |
| RustServing.ReadersGetTheirOwnRow | rust-impl/src/server.rs:82-114 | a reader that saw Active and used any index built so far reads an existing row, its own pair's |
| RustServing.NewPairIsServed | rust-impl/src/compute.rs:196-228 | after an addition, one cycle and one refresh of the index, a reader gets the new pair's own row |
| RustServing.PromotingFirstWouldFail | rust-impl/src/compute.rs:73-77 | with promotion before publication a reader would be sent past the end |
| PureTopology.TopologyState.AddWarmingUp | go-pure-impl/topology.go:50-58 | the pair is warming up, every other status stays |
| PureTopology.TopologyState.Activate | go-pure-impl/topology.go:62-73 | active if it was warming up, otherwise nothing; every other status stays |
| PureTopology.TopologyState.Remove | go-pure-impl/topology.go:77-85 | removed, known or not; every other status stays |
| PureTopology.PromoteWarmingPairs | go-pure-impl/compute.go:365-376 | the promoted map; the pairs that stay queued are, in order, exactly those known and no longer warming up when their turn comes |
| PureTopology.PromotionIsExact | go-pure-impl/compute.go:365-376 | exactly the queued warming pairs become active |
| PureTopology.NoUpdateIsLost | go-pure-impl/topology.go:43-85 | under any interleaving the map is the logged writes in order, every finished write is logged, every read sees a prefix |
| PureTopology.WriteCompletes | go-pure-impl/topology.go:50-85 | an idle writer that finds the mutex free can complete any write, which the log then ends with |
| PureTopology.RemovalHolds | go-pure-impl/topology.go:77-85 | under any interleaving, once a removal is stored the map and every later read show the pair removed, until an addition of it is stored |
| PureTopology.AdditionHolds | go-pure-impl/topology.go:50-58 | once an addition is stored they show the pair warming up, until another write of it is stored |
| PureTopology.ActivationHolds | go-pure-impl/topology.go:62-73 | once an addition and then an activation are stored they show the pair active, until it is removed or added again |
| PureTopology.OthersStay | go-pure-impl/topology.go:43-85 | a pair no stored write names keeps its status |
| PureTopology.LogKeepsRealTime | go-pure-impl/topology.go:50-85 | a write that returned before another was stored stands earlier in the log of every later moment |
| PureTopology.NoStepRevives | go-pure-impl/topology.go:62-73 | no step takes an absent or removed pair to active |
| PureTopology.ActivePairsWereAdded | go-pure-impl/topology.go:50-73 | a dormant pair that is live again was added in between |

## Left out

- float32 rounding: contributions, base scores and quantities are reals.
- Go scratch slices: a slice is filled as a sequence and copied into an array for the in-place selection; aliasing between slices of one backing array is not modelled, reuse of scratch across pairs is (`ParallelPhase2`).
- HandleRemovePair's reuse of the backing array of Pairs: the filtered list is built afresh.
- The C heap, pointer offsets and vectorisation behind the matrix: it is an array of integers with row offsets.
- The Kotlin engine object as a whole: its registry, Phase 1 and per-pair ranking are proved in place, each against the value step that the run theorems of `KotlinEngine` and `KotlinRuns` are about; the loop over pairs that calls the ranking is on values. The in-place index is Go's class, whose list operations are the same.
- A Kotlin pair without a matrix row: the handler accepts it and the next cycle would index past the matrix; runs add pairs that have a row (`HaveRows`), as Go runs do.
- Kotlin worker interleavings: the split is the one proved in `Workers` and the pools; the Kotlin loops run chunk after chunk.
- Serving in go-cgo, and topology and promotion in Kotlin: the invariants of the lifecycle are proved on Rust and the guarded promotion on go-pure, because removal in go-cgo and Kotlin leaves the warm-up queue alone (`GoLifecycle` states what follows).
- Pair tracking in go-pure: its add handler does not track pairs.
- Rust Phase 1 and Phase 2: their kernel clamps differently and their large table uses a strict comparison, so equality of lists across languages is not claimed.
- Concurrent topology writers in Rust: the map has no write lock, one writer is modelled.
- Serving between a removal, the next publication and the index refresh: `RustLifecycle.StaleIndexPanics` shows why callers must refresh.
- Registry.Deactivate: no engine step calls it.
- A matrix without rows: the go-cgo engine divides by its row count in Phase 1, so the constructor asks for at least one.
- Simulated latency, random streams, timing and SLA flags, environment configuration, memory statistics and demo programs.
