# Seeded community detection benchmark — a Dafny model

The repository benchmarks community-detection algorithms that accept *seeds*:
partial labellings that place some nodes in known communities before the
detection runs. For each graph it does four things:

- It runs three baseline algorithms. For every ground-truth community it keeps
  the TP set and the FN set. The TP set is the largest overlap with a detected
  community. The FN set is the rest of the ground-truth community.
- It builds seed labellings from these sets. It sweeps the seed count, the
  seed structure (RANDOM or CONNECTED), the composition ratio (the FN share)
  and the seed size. At each larger seed size the previous seeds are extended,
  not redrawn.
- It runs the three seeded algorithms on every labelling.
- It records every run in a nested table and in a flat list, and advances a
  progress counter.

Small conversion helpers prepare the datasets (graphs/export.js). A converter
turns a result into node and edge records for a network viewer
(core/igraph2nc.js).

The model is split into one Dafny module per file:

- `Wrappers` (wrappers.dfy): `Option`, `Result` and the JavaScript exception
  kinds (`TypeError`, `RangeError`, `Error`, `AssertionError`).
- `Sequences` (sequences.dfy): duplicate-free sequences. `FirstSeen` models
  the iteration order of a JavaScript `Set`.
- `Communities` (community.dfy): the `Community` class and the grouping of a
  label array into communities.
- `Graphs` (graph.dfy): the graph record.
- `Sampling` (random.dfy): `getRandomItems`, a partial Fisher–Yates shuffle
  over a sparse `taken` table, driven by integer draws.
- `Seeding` (seeding.dfy): the seed-size, quota, ratio and step-count
  arithmetic.
- `Benchmarks` (benchmark.dfy): the benchmark class with its tables, the
  baseline, the seed-membership factory, the parameter sweep and
  `getMaxValue`.
- `Decimal` (decimal.dfy): `String(x)`, `Number(s)` and `split(' ')` on
  integers.
- `Export` (export.dfy): `reindexMembership`, the polblogs undirect step and
  the parsed-graph factory.
- `Igraph2nc` (igraph2nc.dfy): the converter class.

How the model treats the outside world:

- **Random numbers.** `Math.random` and `seedrandom` become a stream
  `random: nat -> real` of values in [0, 1). The benchmark reads the stream
  from its position `drawn`. The sampler itself takes the integer draws
  `floor(u * len)`.
- **External engines.** The detection engine, the NMI comparison and the BFS
  that grows connected seeds are outside the repository. They are constant
  function parameters of the benchmark.
- **Percentages.** They are computed as exact integers, with
  `floor(x * p / 100)` written `(x * p) / 100`.

## Model

| member | source | states |
|---|---|---|
| Communities.Community.constructor | core/Community.js:21-24 | The new community holds the argument's nodes without duplicates, in first-occurrence order, and has the same node set. |
| Communities.Community.Singleton | core/Community.js:21-24 | A single non-array argument gives a community holding just that node. |
| Communities.Community.AddNode | core/Community.js:26-28 | After `addNode(v)`, `hasNode(v)` holds and every earlier node is still present. A new node is appended and a present one keeps its place. |
| Communities.Community.Intersect | core/Community.js:34-47 | The result holds exactly the nodes in both communities, without duplicates. The walk visits the smaller operand, and the argument on equal sizes. |
| Communities.Community.Subtract | core/Benchmark.js:63 | The result holds exactly the receiver's nodes that are not in the argument, without duplicates. |
| Communities.IntersectSubtractSizes | core/Benchmark.js:63 | The sizes of A ∩ B and A \ B add up to the size of A, and the intersection is no larger than either operand. |
| Communities.Community.GroupByLabel | core/Community.js:4-19 | The loop's table has one fresh, distinct community per label seen. Each holds exactly that label's indices in index order. The keys come in first-insertion order. |
| Communities.KeysStep | core/Community.js:8-15 | One more position leaves the insertion order of the table's keys unchanged when its label already has an entry, and otherwise appends the label. |
| Communities.Community.GetCommunitiesFromMembership | core/Community.js:4-19 | There is one community per distinct label (the label -1 included), in the enumeration order of `values`. Community k holds exactly the positions that carry label k. |
| Communities.ObjectKeyOrder | core/Community.js:18 | Enumeration of an object's keys returns the same keys, each once. Every integer-index key comes before any other key, and the index keys are in ascending order. The other keys keep their insertion order. |
| Communities.KeyOrderContents | core/Community.js:18 | The index keys in ascending order followed by the other keys hold every inserted key exactly once. |
| Communities.KeyOrderIndexFirst | core/Community.js:18 | In that order an index key is preceded only by smaller index keys. |
| Communities.KeyOrderOthers | core/Community.js:18 | In that order the non-index keys appear exactly in insertion order. |
| Communities.GroupLabels | core/Community.js:18 | The returned labels are exactly the labels of the membership, each once. |
| Communities.GroupUpToKeys | core/Community.js:7-16 | After the first n positions, the table has an entry exactly for the labels among those positions. |
| Communities.GroupUpToMembers | core/Community.js:7-16 | Each entry lists, without duplicates, exactly the visited positions that carry its label. |
| Communities.GroupedLabel | core/Community.js:7-18 | Every label of the membership has an entry after the whole array, and that entry holds exactly the positions carrying the label. |
| Communities.GroupUpToAscending | core/Community.js:7-16 | Each entry lists its positions in increasing order. |
| Communities.EveryNodeInExactlyOne | core/Community.js:7-16 | Every position lies in the community of its own label and in no other. |
| Communities.SameCommunityIff | core/Community.js:8-15 | Two positions share a grouped community exactly when their labels are equal, -1 included. |
| Communities.GroupingIsPartition | core/Community.js:9-12 | The number of communities is the number of distinct labels. The communities are non-empty and pairwise disjoint. |
| Communities.IntersectAsWritten | core/Community.js:40-44 | As written, `intersect` succeeds only when one operand is empty, because the call to `hasNode` on a raw `Set` throws. |
| Communities.IntersectAsWrittenThrows | core/Community.js:41 | Counterexample: the intersection of [7] and [7, 8] throws, although {7} is expected. |
| Communities.SubtractAsWritten | core/Benchmark.js:63 | As written, every call to `subtract` throws a TypeError. |
| Communities.SubtractAsWrittenThrows | core/Benchmark.js:244 | Counterexample: [1, 2] minus [1] throws, although {2} is expected. |
| Graphs.Graph.constructor | core/Graph.js:4-8 | `data` is stored as given and the ground-truth labelling is `data.membership`. The communities are the groups of that labelling: one per distinct label, fresh and distinct. |
| Graphs.GroundTruthCovers | core/Graph.js:7 | Every node lies in exactly one ground-truth community, the one at the position of its label. |
| Graphs.GroundTruthDisjoint | core/Graph.js:7 | Ground-truth communities are pairwise disjoint and hold only nodes that carry their label. |
| Benchmarks.GroundTruthInside | core/Graph.js:4-8 | When the graph's labelling has one label per node, every node of every ground-truth community is a node of the graph. |
| Sampling.GetRandomItems | core/random.js:6-37 | When n equals the length, the array itself is returned with indexes 0..len-1 and nothing is drawn. A negative n is a RangeError. Otherwise exactly min(n, len) draws are taken and the arrays of length n are filled from the top. Each filled slot holds a distinct chosen index and the element at it. |
| Sampling.DrawInto | core/random.js:25-31 | The `while (n--)` loop leaves `result` and `indexes` equal to the chosen elements and indices. These are placed from position c-1 down to 0, with the other slots empty. |
| Sampling.FilledStep | core/random.js:26-30 | One pass keeps the invariant: `taken` maps [0, len) onto the indices not yet chosen, and the two arrays hold the choices so far. |
| Sampling.ShuffleTableStep | core/random.js:27-30 | The update `taken[x] = --len in taken ? taken[len] : len` turns the table into the pool that remains after the draw. The index read is the one the draw picks. |
| Sampling.ShuffleUpToIsPick | core/random.js:25-31 | After k draws, the shuffle state is the pick without replacement of those draws from [0, len), together with the pool left after them. |
| Sampling.PickRange | core/random.js:25-31 | Picks from [0, len) are pairwise distinct and lie in [0, len). |
| Sampling.PickFromPool | core/random.js:25-31 | Picking from a duplicate-free pool gives distinct values from the pool. |
| Sampling.PickInjective | core/random.js:25-31 | Different draw sequences pick different results. |
| Sampling.DrawsForPicks | core/random.js:25-31 | Every duplicate-free selection from the pool is the pick of some valid draw sequence, so no selection is unreachable. |
| Sampling.PickStep | core/random.js:26-30 | A pick is the element at the first draw, followed by the pick from the pool with that element removed. |
| Sampling.PickSnoc | core/random.js:26-30 | One more draw appends the element it picks from the pool that remains. |
| Sampling.RemoveElements | core/random.js:30 | Removing position x from a duplicate-free pool removes exactly that value. |
| Sampling.PlacedDistinct | core/random.js:28-29 | Distinct chosen values stay distinct once placed in the result array. |
| Sampling.PlacedFrom | core/random.js:28 | Every filled result slot holds an element of the input array. |
| Benchmarks.GetMaxValue | core/Benchmark.js:381-391 | The result is -Infinity exactly for the empty array. Otherwise it is an element of the array and at least every element. |
| Benchmarks.FirstMax | core/Benchmark.js:54-61 | The scan's choice is a maximal overlap, and every earlier entry is strictly smaller, so later ties never replace it. |
| Benchmarks.FirstMaxSnoc | core/Benchmark.js:57-60 | One more community replaces the best only when its overlap is strictly larger. |
| Benchmarks.ScanNext | core/Benchmark.js:56-60 | One candidate keeps the scan's invariant: afterwards `tp` is the overlap with the first community of largest overlap among those seen, without duplicates and of that overlap's size. |
| Benchmarks.LargestOverlap | core/Benchmark.js:53-61 | The scan returns null exactly when there are no detected communities. Otherwise it returns the intersection with the first community of maximal overlap. |
| Benchmarks.MaxTpSplit | core/Benchmark.js:53-63 | The TP set is the ground truth intersected with the first maximal community. The FN set is the ground truth minus the TP set. Both are duplicate-free. With no detected community the scan dereferences null: TypeError. |
| Benchmarks.SplitPartitions | core/Benchmark.js:57-63 | TP ∪ FN is the ground-truth community and TP ∩ FN is empty. No detected community overlaps it more than TP. |
| Benchmarks.TpTable | core/Benchmark.js:52-65 | The TP/FN table, keyed by position, holds a correct split for every ground-truth community. It fails exactly when there are communities to split and none detected. |
| Benchmarks.TpTableAsWritten | core/Benchmark.js:64 | As written, the table has the single key "undefined", holding the last community's split. |
| Benchmarks.TpLookupAsWritten | core/Benchmark.js:238 | As written, every ground-truth community reads the entry under "undefined". An empty table throws when destructured. |
| Benchmarks.TpTableAsWrittenMixesCommunities | core/Benchmark.js:64 | Counterexample: with ground truth {0,1}, {2,3}, community {0,1} gets the split of {2,3}, whose TP nodes are outside it. |
| Benchmarks.NodeLists | core/Benchmark.js:68-75 | The stored communities are the node lists of the detected communities, in order. |
| Benchmarks.Benchmark.constructor | core/Benchmark.js:18-29 | Each graph gets one empty baseline table. The result table and both flat lists start empty, and the random stream is unread. |
| Benchmarks.Benchmark.RunBaseline | core/Benchmark.js:44-76 | The entry holds the detected partition, its modularity and NMI, and its communities (the groups of its labelling) with their count. It also holds a correct TP/FN split for every ground-truth community. |
| Benchmarks.Benchmark.AddBaseline | core/Benchmark.js:66-86 | The entry is stored under the graph and algorithm, and nothing else in the table changes. The flat record is appended with its position as id. An unknown graph name throws, changing nothing. |
| Benchmarks.Benchmark.KeepsEarlierRuns | core/Benchmark.js:44 | Storing one algorithm's baseline keeps the entries of the algorithms recorded before it. |
| Benchmarks.Benchmark.RecordRun | core/Benchmark.js:44-87 | One pass of the loop extends `Recorded` by one algorithm. The flat list keeps its earlier records, and the pushed record holds the graph, the algorithm, and the entry's membership, modularity, NMI and community count (Benchmark.js:77-85). |
| Benchmarks.Benchmark.RecordedStep | core/Benchmark.js:44-87 | Storing algorithm i's entry and pushing its record extends what the first i passes recorded to the first i + 1. |
| Benchmarks.FlatRecordsStep | core/Benchmark.js:77-85 | Pushing algorithm i's record keeps the flat prefix and the earlier algorithms' records, and places algorithm i's record right after them. |
| Benchmarks.Benchmark.CalculateBaseline | core/Benchmark.js:42-88 | On success, every baseline algorithm has a correct entry for the graph and other graphs are untouched. The flat list keeps its earlier records and then holds, in algorithm order, one record per algorithm with the graph, the algorithm, and the stored entry's membership, modularity, NMI and community count. |
| Benchmarks.Benchmark.BaselineMakesGrowthSound | core/Benchmark.js:112 | After `calculateBaseline`, the ground-truth communities are disjoint and every seeded algorithm finds its counterpart's baseline. These are the hypotheses of the growth property. |
| Benchmarks.Benchmark.SplitFor | core/Benchmark.js:238 | The counterpart's split for community `id` is found exactly when the graph, the counterpart and the position exist. Otherwise the lookup is a TypeError. |
| Benchmarks.Benchmark.PreviousRecord | core/Benchmark.js:195-197 | The previous seed size's record is found exactly when there is a previous size and its path exists. Otherwise reading it is a TypeError. |
| Benchmarks.Benchmark.InitialLabels | core/Benchmark.js:195-198 | The labelling starts as a copy of the previous seed size's labelling, or as n entries of -1. A negative n is a RangeError and a missing previous record a TypeError. |
| Benchmarks.SeedIdsUpTo | core/Benchmark.js:200-206 | The seed ids in use are exactly the labels other than -1, each once. |
| Benchmarks.SeedIdsInUse | core/Benchmark.js:200-206 | The loop collects `SeedIdsUpTo` of the whole labelling. |
| Benchmarks.Benchmark.SeedIds | core/Benchmark.js:211-213 | If any seed ids are in use, exactly those are reused and nothing is drawn. Otherwise the result is the sample of `seedCount` community indices read from the random stream. It has `seedCount` slots, and slot i is filled exactly when i is below the number of communities. The filled slots are distinct community indices. A negative count is a RangeError. |
| Benchmarks.PickedNodes | core/Benchmark.js:224-229 | The already-picked nodes are exactly the nodes labelled with the current id. |
| Benchmarks.LabelNodes | core/Benchmark.js:277-282 | The labelling becomes the old one relabelled at the listed nodes: exactly those nodes take the id, and every other label stays as it was. |
| Benchmarks.Benchmark.Prepare | core/Benchmark.js:222-253 | The declared size is the clamp. TP and FN are the counterpart's split. The remaining pools are the split minus the already-picked nodes, and the quotas are the targets minus what is already there. A community with fewer than 2 nodes is an Error, and a missing split a TypeError. |
| Benchmarks.Benchmark.PickRandom | core/Benchmark.js:274-282 | Succeeds exactly when both quotas are non-negative; a negative quota is a RangeError from `new Array`, with no label changed. On success the labelling is the old one relabelled with the TP picks, then the FN picks. The TP picks are min(TP quota, remaining TP) distinct remaining TP nodes, and likewise for FN. The stream advances by the draws of both samples. |
| Benchmarks.Benchmark.SeedRandom | core/Benchmark.js:272-288 | Succeeds exactly when both quotas are non-negative, otherwise a RangeError with no label changed. The declared size is kept. The real size is the TP target plus the FN target, and the ratio is the realised FN share of that size. Only the drawn split nodes not yet carrying the id are relabelled, and only to the id. When the split fits the labelling, the seed then holds exactly the real size nodes, of which exactly the TP target are TP nodes. |
| Benchmarks.RandomFrame | core/Benchmark.js:274-282 | Labelling the drawn remaining TP and FN nodes changes only nodes of the split that did not carry the id, and only to the id. |
| Benchmarks.RandomStepCount | core/Benchmark.js:247-284 | After labelling min(quota, left) drawn nodes of each pool, the seed holds the already-picked nodes plus both quotas, and its TP part is the TP target. |
| Benchmarks.RandomPickSizes | core/Benchmark.js:247-284 | With the seed inside a TP/FN partition and non-negative quotas, the seed plus the picks has its old size plus both quotas, and its TP part is the TP target. |
| Benchmarks.QuotasFit | core/Benchmark.js:249-253 | Neither quota asks for more nodes than are left in its pool. |
| Benchmarks.UnionSizes | core/Benchmark.js:247-284 | Fresh TP and FN picks add their own counts to the seed, and only the TP picks add to its TP part. |
| Benchmarks.PreparedTargets | core/Benchmark.js:247-253 | The nodes already picked plus the quotas make up the TP target and the two targets together. |
| Benchmarks.RelabelMembers | core/Benchmark.js:277-282 | Relabelling adds exactly the listed nodes to the community of the id. |
| Sampling.SampledPresent | core/random.js:6-37 | A sample of a duplicate-free array holds min(n, len) distinct elements of the array. |
| Benchmarks.Benchmark.PickConnected | core/Benchmark.js:289-308 | Succeeds exactly when no node is picked yet or the previous record exists; otherwise a TypeError with no label changed. The selection is the BFS result for the quotas, the community, TP, FN, the picked nodes and the previous queue (only when nodes are picked). Exactly the selected nodes take the id. The real size counts the distinct selected nodes, the ratio is their FN share (-1 when empty, in [0, 1] otherwise) and the queue is the BFS queue. |
| Benchmarks.Benchmark.SelectionSizes | core/Benchmark.js:302-303 | The real size is the number of distinct selected nodes, and the TP count is how many of them are TP nodes; the latter is at most the former. |
| Benchmarks.Benchmark.StepBounds | core/Benchmark.js:233-288 | The declared size lies between 2 and the size of the ground-truth community. In RANDOM mode the real size is at most the declared size. The ratio is -1 exactly for an empty seed and otherwise in [0, 1]. |
| Benchmarks.Benchmark.SeedCommunity | core/Benchmark.js:222-311 | A missing or out-of-range id is a TypeError and an unknown structure throws. A failed pass changes no label. A successful step fits its declared size, targets and ratio. Labels change only to the current id, and in RANDOM mode only from another label to a node of the split. In RANDOM mode, with a disjoint ground truth whose splits partition it, a consistent labelling stays consistent, no seed label is overwritten, and the seed holds exactly the reported size with the TP target among it. |
| Benchmarks.Benchmark.SeedPrepared | core/Benchmark.js:271-311 | The structure branch, given the prepared sizes: the same step, label and RANDOM-mode consistency and size facts as SeedCommunity, for community `id`. |
| Benchmarks.Benchmark.RandomPassFacts | core/Benchmark.js:272-288 | A RANDOM pass from a consistent labelling keeps it consistent, overwrites no seed label, and when the communities lie inside the labelling the seed has the reported size and TP target. |
| Benchmarks.Benchmark.SplitFitsLabels | core/Benchmark.js:238-247 | When the splits partition the communities, the split of a community fits every consistent labelling that holds all community nodes. |
| Benchmarks.Benchmark.BaselineSplits | core/Benchmark.js:238 | A recorded baseline splits every ground-truth community into a disjoint TP set and FN set that together make up the community. |
| Benchmarks.Benchmark.SeedAll | core/Benchmark.js:220-326 | Each successful step fits its community, and labels change only to listed ids. In RANDOM mode, given a disjoint ground truth and the counterpart's baseline, the labelling stays consistent with the ground truth and every earlier seed label is kept. With distinct ids and communities inside the labelling, every chosen community's seed ends with exactly its reported real size and TP target. |
| Benchmarks.RelabelledAmongStep | core/Benchmark.js:220-311 | A pass for the next id extends what the earlier passes changed: every changed label is one of the ids so far. |
| Benchmarks.Benchmark.SizesStep | core/Benchmark.js:220-311 | A pass for the next, different id that overwrites no seed label keeps the sizes of the earlier seeds and adds its own. |
| Benchmarks.OthersKept | core/Benchmark.js:277-282 | When no seed label is overwritten and every change is to one id, the seed of every other id is unchanged. |
| Benchmarks.Benchmark.KeepSeeds | core/Benchmark.js:277-282 | Relabelling only split nodes of the id that did not carry it, with the splits partitioning a disjoint ground truth, keeps the labelling consistent and overwrites no seed label. |
| Benchmarks.LabellingKeepsSeeds | core/Benchmark.js:244-245 | Relabelling only unlabelled nodes of community `id` keeps earlier labels and consistency. |
| Benchmarks.PreservedTransitive | core/Benchmark.js:198 | Keeping seed labels is transitive across steps. |
| Benchmarks.LastQueueIsLast | core/Benchmark.js:296 | `queueBFS` is the last queue a CONNECTED step set, or undefined when none did. |
| Benchmarks.OutcomeOf | core/Benchmark.js:329-335 | The returned object holds the labelling and the last BFS queue, and its three lists hold each step's declared size, real size and ratio, in step order. |
| Benchmarks.Benchmark.SeedMembershipFactory | core/Benchmark.js:190-336 | The labelling starts from the previous one or all -1. Changes go only to the chosen ids: those in use, or `seedCount` freshly drawn slots, filled exactly below the community count. The chosen ids are distinct. The three reported lists match the steps, one entry per id. In RANDOM mode, given a disjoint ground truth and the counterpart's baseline, every earlier seed label is kept and the labelling stays consistent; with the communities inside the labelling, each chosen seed holds exactly its reported real size and TP target. |
| Benchmarks.Benchmark.SeedLabels | core/Benchmark.js:200-336 | From a given start labelling: changes go only to the chosen ids, which are distinct, with `seedCount` slots filled exactly below the community count when drawn. The reported lists match the steps. In RANDOM mode, given a disjoint ground truth and the counterpart's baseline, every earlier seed label is kept and the labelling stays consistent; with the communities inside the labelling, each chosen seed holds exactly its reported real size and TP target. |
| Benchmarks.Benchmark.StoreRun | core/Benchmark.js:149-177 | The run is stored under its path. One flat record is appended, holding the parameters (size and ratio as fractions), the seed labelling, the detection, its NMI and the label count `getMaxValue + 1`. |
| Benchmarks.Benchmark.RunAlgorithm | core/Benchmark.js:138-179 | A throwing factory changes neither table. Otherwise the run is stored and recorded. In RANDOM mode, given a disjoint ground truth and the counterpart's baseline, the new seeds are consistent and keep every label of the previous seed size's seeds. |
| Benchmarks.StoredSeedsGrow | core/Benchmark.js:154-157 | Storing seeds grown from the previous seed size's stored seeds, or from an all -1 start, makes the stored seeds consistent and keeps every label of the previous ones. |
| Benchmarks.Benchmark.RunAlgorithms | core/Benchmark.js:137-180 | The counter advances by 3 and the flat list grows by 3. Exactly the three runs' paths are added and records of other seed sizes are untouched. In RANDOM mode, given a disjoint ground truth and every counterpart's baseline, each seeded algorithm's seeds grow from its previous ones. |
| Benchmarks.GrowsAcrossAlgorithms | core/Benchmark.js:137-157 | Storing algorithm i keeps the growth already established for the earlier algorithms. |
| Benchmarks.AlgorithmsStep | core/Benchmark.js:136-157 | One more algorithm adds exactly its path to the table, leaves records of other seed sizes alone, and keeps the growth of the earlier algorithms while adding its own. |
| Benchmarks.SizesGrowStep | core/Benchmark.js:126-181 | Clearing the new seed size's level and running the algorithms extends the growth property by one seed size. |
| Benchmarks.Benchmark.RunSize | core/Benchmark.js:128-181 | One seed size advances the counter by 3. In RANDOM mode, given a disjoint ground truth and every counterpart's baseline, it extends the growth property by one seed size. |
| Benchmarks.Benchmark.RunSizes | core/Benchmark.js:126-182 | The sweep over the seed sizes advances the counter by 12. In RANDOM mode, for every size and seeded algorithm, the stored seeds are consistent and keep every label of the size before. |
| Benchmarks.SeedSizesIncrease | core/constants.js:43 | The seed sizes are swept in strictly increasing order. |
| Benchmarks.ModifiedAlgorithmsDistinct | core/constants.js:29-33 | The seeded algorithms have distinct names, so their paths never collide. |
| Benchmarks.Benchmark.RunRatios | core/Benchmark.js:123-183 | The loop over the ratios advances the counter by 5 × 4 × 3. |
| Benchmarks.Benchmark.RunStructures | core/Benchmark.js:120-184 | The loop over the structures advances the counter by the stub product times 3. |
| Benchmarks.Benchmark.RunCounts | core/Benchmark.js:117-185 | Seed counts 1..`communities` advance the counter by 120 per unit of the dataset's `communities` field. |
| Benchmarks.Benchmark.RunGraph | core/Benchmark.js:103-186 | One graph advances the counter and the flat list by 120 × the dataset's `communities` field. |
| Benchmarks.Benchmark.RunBenchmark | core/Benchmark.js:90-188 | The progress total is 120 × the sum of the datasets' `communities` fields. When nothing throws, the counter ends exactly there, with one flat record per step. |
| Benchmarks.StepsClosedForm | core/Benchmark.js:91-98 | The two folds computing `steps` equal 120 times the sum of the datasets' `communities` fields. |
| Benchmarks.Reset | core/Benchmark.js:115-128 | Clearing a level removes exactly the records below that path prefix and keeps the others unchanged. |
| Benchmarks.DrawsValid | core/Benchmark.js:368 | `Math.floor(Math.random() * len)` for a shrinking `len` gives valid draws for the sampler. |
| Benchmarks.ScaledDraw | core/random.js:26 | A value in [0, 1) scaled by `len` and floored lies in [0, len). |
| Seeding.Clamp | core/Benchmark.js:233 | ramda `clamp` fails when min > max. Otherwise the result lies in [min, max] and is the point of that interval nearest the value. |
| Seeding.DeclaredSeedSize | core/Benchmark.js:233 | The declared size exists exactly when the ground-truth community has at least 2 nodes. It lies between 2 and that size and is the floored percentage whenever that lies in range. |
| Seeding.DeclaredSeedSizeMonotone | core/Benchmark.js:233 | A larger seed-size parameter never declares a smaller seed. |
| Seeding.PercentOfBounds | core/Benchmark.js:249 | A percentage in [0, 100] of a non-negative amount lies in [0, amount] and is monotone. |
| Seeding.TargetBounds | core/Benchmark.js:249-250 | Each target lies between 0 and its pool, and together they do not exceed the declared size. |
| Seeding.TargetsFill | core/Benchmark.js:249-250 | When both pools are large enough the targets add up to the declared size exactly. |
| Seeding.TargetsMonotone | core/Benchmark.js:249-250 | A larger seed never lowers either target. |
| Seeding.NewPicks | core/Benchmark.js:252-253 | Already-picked nodes plus both quotas make up the two targets together. |
| Seeding.NewPicksNonNegative | core/Benchmark.js:247-253 | If the nodes already picked fit a smaller seed's targets, both quotas are non-negative and the TP count reaches the new TP target. |
| Seeding.RealizedRatioShare | core/Benchmark.js:286-288 | The ratio is -1 for an empty seed. Otherwise, times the real size it gives the FN count. |
| Seeding.RealizedRatioRange | core/Benchmark.js:286-288 | For a non-empty seed the ratio lies in [0, 1]. |
| Seeding.StubProductOfBenchmark | core/Benchmark.js:91-94 | The fold over the parameter stub multiplies the three list lengths and skips the seed-count entry. |
| Seeding.TotalStepsIsProduct | core/Benchmark.js:96-98 | The fold over the graphs equals the per-graph count times the sum of the datasets' `communities` fields. |
| Export.ReindexMembership | graphs/export.js:153-178 | The loop computes `Reindexed`. |
| Export.LabelsUpTo | graphs/export.js:156-174 | `idxs` after k positions holds every non-negative label seen, each once, and no negative label. |
| Export.LabelsUpToSeen | graphs/export.js:167-173 | Every label in `idxs` after k positions occurs among those positions. |
| Export.LabelsStep | graphs/export.js:170-173 | One more position never shortens `idxs` and keeps it as a prefix. |
| Export.NewLabelAt | graphs/export.js:167-174 | A label found at position idx of `idxs` is written as idx. |
| Export.LabelsPrefix | graphs/export.js:170-173 | Later positions only append to `idxs`. |
| Export.ReindexedRange | graphs/export.js:157-173 | A negative label becomes -1. A non-negative one lands in [0, actFreeId), and actFreeId is the number of distinct non-negative labels. |
| Export.ReindexedSameLabel | graphs/export.js:159-174 | Two non-negative positions share an output label exactly when they share an input label. |
| Export.ReindexedFirstAppearance | graphs/export.js:167-174 | A label's first appearance gets the next free id, so labels are renumbered 0, 1, 2, … in order of first appearance. |
| Export.Undirect | graphs/export.js:37-60 | The closure's loop leaves the flattened deduplicated ordered pairs. |
| Export.CollectKeys | graphs/export.js:40-53 | The loop pushes the key `"s t"` of every ordered non-loop pair, in input order. |
| Export.SinkStep | graphs/export.js:44-52 | One input pair pushes the key of its ordered form, unless it is a loop. |
| Export.SinkKeys | graphs/export.js:40-53 | The pushed keys are the keys of the ordered non-loop pairs. |
| Export.UndirectKeys | graphs/export.js:55-58 | Every deduplicated key splits into two parts, and decoding the keys gives the deduplicated ordered non-loop edges. |
| Export.UndirectedEdgesSpec | graphs/export.js:40-58 | Every output edge has source < target, no pair repeats, and the output holds exactly the non-loop input edges up to orientation. |
| Export.PairsUpTo | graphs/export.js:40-53 | Every pushed pair is ordered. |
| Export.PairsUpToMembers | graphs/export.js:44-52 | A pair is pushed exactly when some input edge orders to it and is not a loop. |
| Export.KeyEdgeOfKey | graphs/export.js:56-57 | Splitting `[s, t].join(' ')` and applying `Number` gives back the edge. |
| Export.KeysRoundTrip | graphs/export.js:51-58 | Decoding the key of every edge restores the edge list. |
| Export.KeysSnoc | graphs/export.js:51 | Keying one more edge appends its key. |
| Export.KeyIn | graphs/export.js:55 | An edge's key is present exactly when the edge is. |
| Export.KeysFirstSeen | graphs/export.js:55 | Deduplicating keys through a `Set` is deduplicating the edges, in first-occurrence order. |
| Export.Flatten | graphs/export.js:55 | `flatten` yields 2m entries: source, target, in order. |
| Export.ReadMembership | graphs/export.js:127-131 | Membership is read in node order. A node whose id minus `deltaIds` differs from its position fails the assertion. |
| Export.ShiftEdges | graphs/export.js:133-136 | The loop pushes both shifted endpoints of every edge. |
| Export.ShiftedEndpoints | graphs/export.js:133-136 | Entry 2k is edge k's source minus `deltaIds`, and entry 2k+1 its target minus `deltaIds`. |
| Export.ExportParsedGraph | graphs/export.js:120-151 | On success the record holds the name, n, m, the number of distinct raw labels, the processed shifted edges and the reindexed membership. It fails exactly when node ids are out of order. |
| Export.CommunityValues | graphs/export.js:130 | The membership holds each node's community attribute. |
| Decimal.ParseIntString | graphs/export.js:56-57 | `Number(String(x)) == x` for every integer. |
| Decimal.NatStringDigits | graphs/export.js:51 | The decimal text of a natural number is a non-empty run of digits. |
| Decimal.IntStringNoSpace | graphs/export.js:51-56 | The text of an integer is non-empty and holds no space, so a joined key splits back into its two parts. |
| Decimal.IntStringInjective | graphs/export.js:51-55 | Distinct integers have distinct decimal texts, so distinct edges have distinct keys. |
| Decimal.SplitJoined | graphs/export.js:51-56 | Splitting `a + " " + b` at spaces gives [a, b]. |
| Igraph2nc.Converter.constructor | core/igraph2nc.js:4-11 | Both fields start undefined. |
| Igraph2nc.Converter.Convert | core/igraph2nc.js:13-34 | The call records `data` and the algorithm name, and returns kind "undirected" with a node model keyed by the algorithm's name. It also returns the node and edge records. |
| Igraph2nc.NodeModel | core/igraph2nc.js:18-24 | The node model types the seed fields as strings and the algorithm and ground truth as numbers, in the literal's key order. |
| Igraph2nc.Converter.NodesToJSON | core/igraph2nc.js:36-53 | The call fails while `data` is undefined and otherwise returns the node records. |
| Igraph2nc.NodeRecords | core/igraph2nc.js:39-52 | There are exactly max(n, 0) node records, and record i is node i's. |
| Igraph2nc.NodeRecordSpec | core/igraph2nc.js:40-50 | Record i has id i, both seed fields hold the seed string, and the algorithm and GroundTruth attributes copy the labels unchanged. |
| Igraph2nc.SeedStringSpec | core/igraph2nc.js:41 | The seed string is "" exactly for -1. Otherwise it is the decimal text, which reads back as the label. |
| Igraph2nc.Converter.EdgesToJSON | core/igraph2nc.js:55-71 | The call fails while `data` is undefined and otherwise returns the edge records. |
| Igraph2nc.EdgeRecordsAt | core/igraph2nc.js:59-68 | Edge k has source edges[2k] and target edges[2k+1], undefined past the end. |
| Igraph2nc.EdgeRecordsRoundTrip | core/igraph2nc.js:59-68 | For an even-length list, the records' endpoints read in order restore the flat edge list. |
| Igraph2nc.AttributesFixedKeys | core/igraph2nc.js:45-50 | The three fixed attributes always hold their own values. |
| Igraph2nc.AttributesAlgorithmKey | core/igraph2nc.js:45-50 | With a non-colliding algorithm name, its attribute holds the algorithm's label and the keys come in literal order. |
| Igraph2nc.AttributesKeysUnique | core/igraph2nc.js:45-50 | The attribute object has no repeated key. |
| Igraph2nc.AttributesKeySet | core/igraph2nc.js:45-50 | The attribute keys are exactly the algorithm name and the three fixed keys. |
| Igraph2nc.AssignGet | core/igraph2nc.js:45-50 | After `o[key] = v`, `key` reads v and every other key is unchanged. |
| Igraph2nc.AssignKeys | core/igraph2nc.js:45-50 | Assigning an existing key keeps the key order, and a new key goes last. |

## Left out

- I/O is not modelled. This covers `saveResult` and `fs.writeFileSync` (core/Benchmark.js:338-346), `saveIgraphJSON`, `readGML` and the export drivers (graphs/export.js:6-31, 65-118), and `stringifyJSON`. Their file formats are not part of the logic.
- The progress bar (`cli-progress`) is not modelled. Only the counter it shows is kept as the step count.
- The promise-based `start` is not modelled. The constructor takes the engine's functions as parameters instead. The options passed by index.js are ignored by the source and are not modelled.
- The detection engine (`runCommunityDetection`), `compareCommunitiesNMI` and the modularity and NMI floats are uninterpreted function parameters.
- `rankedPartialCompositionalBFS` is defined in no file of the repository, so it is a function parameter. Benchmarks.Benchmark.PickConnected ties the labelling and the reported step to its result, but nothing is stated about which nodes it selects.
- The random generators are replaced by draws. `Math.random` is a stream of reals in [0, 1). `seedrandom` in core/random.js is replaced by the integer draws `floor(u * len)`. The duplicate `getRandomItems` in core/Benchmark.js:348-379 is the same code and uses Sampling.GetRandomItems.
- `console.warn` in `getRandomItems` has no effect on the result and is not modelled.
- Float arithmetic is replaced by exact integers. The `/100` scalings and `mixFactor` are exact integer floors. The flat record's seed size and ratio are exact reals.
- Labels outside the array are ignored. A node id beyond the labelling's length would grow a JavaScript array; the model never writes outside it. Graphs.Graph.Valid does not require `n` to equal the length of the membership. Benchmarks.GroundTruthInside shows that when they are equal no ground-truth node lies outside the labelling, and a recorded baseline splits only those nodes (Benchmarks.Benchmark.BaselineSplits).
- Community values are integers. The polbooks dataset labels its nodes with the strings "l", "n" and "c" (graphs/export.js:28-29, 96-98); `communityId < 0` is false for them, so the source numbers them like non-negative labels. The model needs them given as distinct non-negative integers first.
- JavaScript object keys in igraph2nc.dfy are kept in insertion order. Integer-like attribute names, which JavaScript enumerates first, are not distinguished.
- Odd-length edge lists are not modelled in the polblogs undirect step. Export.Undirect requires an even length; the source reads `undefined` past the end.
- Export.ExportParsedGraph takes the `process` hook as one of two variants (identity or the polblogs undirect step), not as an arbitrary function.
- Communities.Community.GetCommunitiesFromMembership groups the unseeded label -1 like any other label, as core/Community.js:7-16 does. It does not skip it.
- The `gt.id` key of the TP/FN table is never set. The model keys the table by the community's position, as the code evidently intends; see Findings.
- Benchmarks.Benchmark.RunSizes: the growth property is proved for one sweep over the seed sizes. Its hypotheses are that the ground truth is disjoint and each counterpart's baseline is recorded, and Benchmarks.Benchmark.BaselineMakesGrowthSound shows that `calculateBaseline` establishes them. The property is not carried up through the loops over ratios, structures, seed counts and graphs; those only carry the step counts.
- Benchmarks.Benchmark.RunCounts: the seed counts run up to the dataset's `communities` field, not the number of ground-truth communities. graphs/export.js:138 counts the distinct raw labels, each negative label separately, while reindexing (graphs/export.js:162-164) merges all negative labels into -1, so the field can exceed the number of ground-truth communities. A seed count above that number leaves empty slots among the drawn ids (Benchmarks.Benchmark.SeedIds), and Benchmarks.Benchmark.SeedCommunity then fails with the TypeError of reading `gt.size` on `undefined`, as the source does. The model does not tie the field to the ground truth.
- Benchmarks.Benchmark.RunGraph: an exception stops the model's sweep with a Failure. In the source it propagates out of `runBenchmark`.
- Benchmarks.Benchmark.PickRandom: the picks are ghost results described by their count and the pool they come from. That they are exactly the sample the random stream selects is stated by Sampling.GetRandomItems and is not carried up to this method.
- Benchmarks.Benchmark.SeedRandom: the same holds for its picks. The exact seed size is promised only when the split fits the labelling.
- Benchmarks.Benchmark.SeedCommunity: the seed-size facts are stated for RANDOM steps only. A CONNECTED step's sizes are those of the BFS selection (Benchmarks.Benchmark.PickConnected), about which nothing more is known.
- Benchmarks.Benchmark.SeedAll: as for SeedCommunity, the seed sizes are promised for RANDOM seeds only, and only with distinct ids and the communities inside the labelling.
- Benchmarks.Benchmark.SeedLabels: as for SeedAll.
- Benchmarks.Benchmark.SeedMembershipFactory: as for SeedAll; for a start labelling read from the previous record, that the communities lie inside it is a hypothesis.

## Findings

| source | as written | input that shows it | evidently intended | confidence | as-written member | corrected member |
|---|---|---|---|---|---|---|
| core/Community.js:41 | `comparable.hasNode(node)` is called on a raw `Set`, which has no `hasNode`, so `intersect` throws whenever it walks a non-empty set | intersecting [7] with [7, 8] | membership test `comparable.has(node)`, giving {7} | high (not executed) | Communities.IntersectAsWrittenThrows | Communities.Community.Intersect |
| core/Benchmark.js:63 | `subtract` is called on communities but `Community` defines no such method, so every call throws a TypeError | a ground-truth community [1, 2] minus its TP set [1] | set difference, giving {2} | high (not executed) | Communities.SubtractAsWrittenThrows | Communities.Community.Subtract |
| core/Benchmark.js:64 | the TP/FN table is keyed by `gt.id`, which no community has, so every split is stored under "undefined" and the last one wins; the lookup at core/Benchmark.js:238 returns it for every community | ground truth {0, 1} and {2, 3}, each detected exactly | key by the community's position | high (not executed) | Benchmarks.TpTableAsWrittenMixesCommunities | Benchmarks.TpTable |
