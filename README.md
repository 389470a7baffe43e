# Rank-order clustering, modelled in Dafny

This project models the combinatorial core of the Kotlin library
RankOrderCluster: rank-order clustering of feature vectors. It covers these parts:

- **Clusters** (`cluster.dfy`, module `Clusters`). The three `Cluster`
  constructors and the single-linkage `distance`, a nested min-fold seeded
  with `Double.MAX_VALUE`.
- **Stable sort** (`sorting.dfy`, module `Sorting`). Kotlin's `sortedBy`, as a
  functional insertion sort. It is proved to be the *only* sorted, stable
  permutation, so the model holds whatever stable sort the host library uses.
- **Rank computations** (`ranking.dfy`, module `RankOrder`). The ordered
  neighbour list `clusterOrderedList`. `indexOf` with its -1 for a missing
  element. The accumulator loop of `asymmetricRankOrderDistance`. The integer
  numerator and denominator of `clusterRankOrderDistance`.
- **Transitive merge** (`transitive_merge.dfy`, module `Consolidation`). The
  in-place algorithm over the `copy` list and the `consolidated` flag array,
  with its nested loops. It is proved to produce pairwise disjoint blocks.
  Each block is a connected union of input sets, and the blocks cover the
  input. `consolidation_facts.dfy` (module `ConsolidationFacts`) derives the
  consequences. The blocks are exactly the connected components under
  "shares an element". The result, as a set, depends neither on the
  algorithm nor on the order of the input.
- **Driver** (`rounds.dfy` with module `MergeRounds`, and
  `rank_order_cluster.dfy` with module `Clustering`). The class
  `RankOrderCluster`. It has an append-only node list, `addNode`, `addNodes`,
  and the fixed-point loop `update`. Each round builds the order lists and
  the merge candidates of every ordered pair, then runs the transitive merge.
  The loop stops when the candidate count equals the merged count. The loop
  is proved to terminate. Every round keeps the clusters non-empty and
  pairwise disjoint.
- **Test data** (`examples.dfy`, module `Examples`). The seven
  one-dimensional points of the test suite, with their exact distances. On
  them the model gives the expected order lists, the asymmetric distances
  1 and 15, and the rank-order ratio 30 / 5. The transitive-merge test
  input yields the blocks ABC, DE, F and G.

Nodes and clusters are compared by identity in the Kotlin code: neither
`Node` nor `Cluster` overrides `equals`. So a node is a `NodeId` (a `nat`), and
a cluster is a Dafny object compared by reference. Its `elements` is a
duplicate-free sequence, modelling the insertion-ordered `LinkedHashSet`
behind `mutableSetOf()`. Sets of nodes compare by content, so duplicate merge
candidates collapse. The node distance is a parameter
`dist: (NodeId, NodeId) -> real`.

Behaviours of the code that the model keeps:

- Nodes and clusters are compared by identity.
- The driver visits ordered pairs, so the merge test is applied to every unordered pair twice.
- A cluster built from an empty collection is accepted.
  `Distance` to or from it is `Double.MAX_VALUE`.
- `clusters` is replaced by the merge output on every round, including the
  last. A round that starts with at most one cluster produces no candidates
  and no blocks, so `update` returns an empty list. This happens for a single
  node, and whenever some round joins every cluster into one while producing
  more candidates than blocks. `Update` returns, as ghost outputs, the whole
  run of rounds and the clusters `last` that its final round started from.
  The result is empty exactly when `last` has at most one cluster; otherwise
  it is a partition of all the nodes.
- `transitiveMerge` takes a `Set<Set<V>>`, so its input holds no repeated set.

## Model

| member | source | states |
|---|---|---|
| `Collections.Add` | src/commonMain/kotlin/com/jwoolston/cluster/Cluster.kt:10 | `MutableSet.add` adds exactly `x` to the members, keeps earlier entries in order and never introduces a repeat |
| `Collections.AddAll` | src/commonMain/kotlin/com/jwoolston/cluster/Cluster.kt:14 | `addAll` gives the union of both collections' members, extends the old sequence and keeps it repeat-free |
| `Collections.AddAllAppends` | src/commonMain/kotlin/com/jwoolston/cluster/RankOrderCluster.kt:98 | when no new node is present yet and none repeats, `addAll` appends them exactly, in the given order |
| `Clusters.NearestFold` | src/commonMain/kotlin/com/jwoolston/cluster/Cluster.kt:28-31 | the inner fold is at most its seed and every distance from `a` to `others`, and equals the seed or one of those distances |
| `Clusters.LinkageFold` | src/commonMain/kotlin/com/jwoolston/cluster/Cluster.kt:27-33 | the outer fold is at most its seed and every pairwise distance, and equals the seed or one pairwise distance |
| `Clusters.Cluster.Singleton` | src/commonMain/kotlin/com/jwoolston/cluster/Cluster.kt:9-11 | `Cluster(node)` holds exactly `node` |
| `Clusters.Cluster.FromNodes` | src/commonMain/kotlin/com/jwoolston/cluster/Cluster.kt:13-15 | `Cluster(nodes)` holds exactly the collection's nodes, each once |
| `Clusters.Cluster.FromClusters` | src/commonMain/kotlin/com/jwoolston/cluster/Cluster.kt:17-21 | `Cluster(clusters)` holds exactly the union of the member clusters' elements, each once |
| `Clusters.Cluster.Distance` | src/commonMain/kotlin/com/jwoolston/cluster/Cluster.kt:26-34 | the single-linkage distance is at most `Double.MAX_VALUE` and every pairwise node distance, and is `MAX_VALUE` or some pairwise distance |
| `Clusters.DistanceToEmpty` | src/commonMain/kotlin/com/jwoolston/cluster/Cluster.kt:27-33 | when either cluster is empty the distance is the seed `Double.MAX_VALUE` |
| `Clusters.DistanceIsAttained` | src/commonMain/kotlin/com/jwoolston/cluster/Cluster.kt:27-33 | when some pair is within `MAX_VALUE`, the distance equals the distance of some pair of members |
| `Clusters.DistanceSymmetric` | src/commonMain/kotlin/com/jwoolston/cluster/Cluster.kt:26-34 | with a symmetric node distance, cluster distance is symmetric |
| `Clusters.SingletonDistance` | src/commonMain/kotlin/com/jwoolston/cluster/Cluster.kt:26-34 | between two singleton clusters the distance is the node distance |
| `Sorting.InsertBy` | src/commonMain/kotlin/com/jwoolston/cluster/RankOrderCluster.kt:6 | one insertion step of the sort adds exactly one element |
| `Sorting.SortBy` | src/commonMain/kotlin/com/jwoolston/cluster/RankOrderCluster.kt:6 | `sortedBy` returns a permutation of its input with non-decreasing keys |
| `Sorting.SortByIsStable` | src/commonMain/kotlin/com/jwoolston/cluster/RankOrderCluster.kt:6 | elements with equal keys keep their input order |
| `Sorting.StableSortUnique` | src/commonMain/kotlin/com/jwoolston/cluster/RankOrderCluster.kt:6 | two sorted sequences with the same elements and the same order within each key are equal |
| `Sorting.SortByCharacterized` | src/commonMain/kotlin/com/jwoolston/cluster/RankOrderCluster.kt:6 | any sorted, stable permutation of the input is the result of `sortedBy` |
| `Sorting.SortByOfSorted` | src/commonMain/kotlin/com/jwoolston/cluster/RankOrderCluster.kt:6 | sorting a sequence that is already sorted leaves it unchanged |
| `Sorting.StrictlySortedUnique` | src/commonMain/kotlin/com/jwoolston/cluster/RankOrderCluster.kt:6 | when keys are all different, a sorted permutation is unique |
| `RankOrder.ClusterOrderedList` | src/commonMain/kotlin/com/jwoolston/cluster/RankOrderCluster.kt:5-7 | the order list is a permutation of `clusters`, non-decreasing in distance to `cluster`, and keeps input order among equal distances |
| `RankOrder.IndexOf` | src/commonMain/kotlin/com/jwoolston/cluster/RankOrderCluster.kt:17 | `indexOf` is -1 exactly when the element is absent, otherwise the position of its first occurrence |
| `RankOrder.AsymmetricRankOrderDistance` | src/commonMain/kotlin/com/jwoolston/cluster/RankOrderCluster.kt:12-25 | the accumulator loop returns the sum, over positions before `cluster_j` in `order_i`, of those clusters' positions in `order_j` |
| `RankOrder.AsymmetricRankZero` | src/commonMain/kotlin/com/jwoolston/cluster/RankOrderCluster.kt:17-19 | the asymmetric distance is 0 when `cluster_j` heads `order_i` or is absent from it (`stopIndex` -1) |
| `RankOrder.AsymmetricRankSkipsStop` | src/commonMain/kotlin/com/jwoolston/cluster/RankOrderCluster.kt:19-20 | stopping before `stopIndex` loses nothing when `cluster_j` heads its own list |
| `RankOrder.RankSumBounds` | src/commonMain/kotlin/com/jwoolston/cluster/RankOrderCluster.kt:19-23 | when every counted cluster appears in `order_j`, a sum over `n` positions lies between 0 and `n * (size - 1)` |
| `RankOrder.AsymmetricRankBounds` | src/commonMain/kotlin/com/jwoolston/cluster/RankOrderCluster.kt:12-25 | over lists of the same clusters, the asymmetric distance lies between 0 and the rank of `cluster_j` times (size - 1) |
| `RankOrder.ClusterRankOrderDistance` | src/commonMain/kotlin/com/jwoolston/cluster/RankOrderCluster.kt:30-41 | the denominator is the smaller of the two mutual ranks; when each cluster is in the other's list and the lists hold the same clusters, the numerator lies between 0 and each rank times the other list's length less one, summed |
| `RankOrder.NumeratorFitsInt` | src/commonMain/kotlin/com/jwoolston/cluster/RankOrderCluster.kt:40 | for order lists of at most 32768 clusters over the same clusters, `asym_ij + asym_ji` lies in 0 .. 2^31 - 1, so the 32-bit `Int` sum does not wrap |
| `RankOrder.ClusterRankOrderDistanceSymmetric` | src/commonMain/kotlin/com/jwoolston/cluster/RankOrderCluster.kt:30-41 | swapping the roles of the two clusters gives the same numerator and denominator |
| `RankOrder.RankOrderDenominator` | src/commonMain/kotlin/com/jwoolston/cluster/RankOrderCluster.kt:39 | the denominator is -1 exactly when a cluster is missing from the other's list, and 0 exactly when one heads the other's list |
| `RankOrder.MutualNearestRatio` | src/commonMain/kotlin/com/jwoolston/cluster/RankOrderCluster.kt:30-41 | for mutual nearest neighbours the ratio is 2 / 1 |
| `Consolidation.CountFalseSet` | src/commonMain/kotlin/com/jwoolston/cluster/RankOrderCluster.kt:76 | flagging one more set lowers the number of unflagged sets by one, which bounds the inner `while (true)` |
| `Consolidation.InitialState` | src/commonMain/kotlin/com/jwoolston/cluster/RankOrderCluster.kt:64-67 | the copied list and the all-false flags satisfy the loop invariant |
| `Consolidation.AbsorbStep` | src/commonMain/kotlin/com/jwoolston/cluster/RankOrderCluster.kt:74-77 | folding a meeting set into `copy[i]` keeps the invariant: coverage, origins, connecting paths, and finished sets staying disjoint from later survivors |
| `Consolidation.FinishStep` | src/commonMain/kotlin/com/jwoolston/cluster/RankOrderCluster.kt:80-83 | a pass that folds nothing finishes position `i`: its set then meets no other survivor |
| `Consolidation.FinalState` | src/commonMain/kotlin/com/jwoolston/cluster/RankOrderCluster.kt:85 | the survivors collected at the end form a consolidation of the input |
| `Consolidation.Absorb` | src/commonMain/kotlin/com/jwoolston/cluster/RankOrderCluster.kt:75-76 | `copy[i]` becomes the union with `copy[j]`, `consolidated[j]` becomes true, nothing else changes |
| `Consolidation.PassStep` | src/commonMain/kotlin/com/jwoolston/cluster/RankOrderCluster.kt:73-78 | one `j` step leaves `copy`, the flags and `intersects` unchanged when `copy[j]` is flagged or disjoint from `copy[i]`; otherwise `copy[i]` becomes the union, `consolidated[j]` becomes true and `intersects` grows by one; the loop invariant is kept |
| `Consolidation.AbsorbInto` | src/commonMain/kotlin/com/jwoolston/cluster/RankOrderCluster.kt:74-77 | absorbing a meeting set sets `copy[i]` to the union and flags `j`, changing nothing else, and keeps the loop invariant |
| `Consolidation.MergePass` | src/commonMain/kotlin/com/jwoolston/cluster/RankOrderCluster.kt:71-79 | one pass flags exactly `intersects` sets, and if it flags none then `copy[i]` meets no later survivor |
| `Consolidation.ConsolidateAt` | src/commonMain/kotlin/com/jwoolston/cluster/RankOrderCluster.kt:69-82 | the rescan-until-no-change loop terminates and leaves position `i` finished |
| `Consolidation.CollectSurvivors` | src/commonMain/kotlin/com/jwoolston/cluster/RankOrderCluster.kt:85 | the unflagged sets, collected into a set, form a consolidation no larger than the input |
| `Consolidation.TransitiveMerge` | src/commonMain/kotlin/com/jwoolston/cluster/RankOrderCluster.kt:63-86 | the output blocks are distinct and pairwise disjoint, each inside the input's union and connected through overlapping inputs; every input set lies in a block; the output is no larger than the input |
| `ConsolidationFacts.SameBlockIffLinked` | src/commonMain/kotlin/com/jwoolston/cluster/RankOrderCluster.kt:70-81 | two elements share a block exactly when a chain of overlapping input sets links them |
| `ConsolidationFacts.ExactlyOneBlock` | src/commonMain/kotlin/com/jwoolston/cluster/RankOrderCluster.kt:63-86 | every input element lies in exactly one output block |
| `ConsolidationFacts.InputInOneBlock` | src/commonMain/kotlin/com/jwoolston/cluster/RankOrderCluster.kt:72-78 | every non-empty input set is a subset of exactly one output block |
| `ConsolidationFacts.BlockIsUnionOfInputs` | src/commonMain/kotlin/com/jwoolston/cluster/RankOrderCluster.kt:75 | every output block is the union of the input sets inside it |
| `ConsolidationFacts.ConsolidationUnion` | src/commonMain/kotlin/com/jwoolston/cluster/RankOrderCluster.kt:63-86 | the union of the output blocks equals the union of the input sets |
| `ConsolidationFacts.ConsolidationUnique` | src/commonMain/kotlin/com/jwoolston/cluster/RankOrderCluster.kt:63-86 | the output, as a set of blocks, is determined by the input |
| `ConsolidationFacts.ConsolidationReorder` | src/commonMain/kotlin/com/jwoolston/cluster/RankOrderCluster.kt:63-86 | the output's promise does not depend on the order or repetition of the input sets |
| `ConsolidationFacts.ConsolidationOrderInvariant` | src/commonMain/kotlin/com/jwoolston/cluster/RankOrderCluster.kt:63-86 | reordering the input leaves the set of output blocks unchanged |
| `ConsolidationFacts.ConsolidationOfDisjoint` | src/commonMain/kotlin/com/jwoolston/cluster/RankOrderCluster.kt:63-86 | when no two input sets meet, the output blocks are the input sets |
| `MergeRounds.CandidatesStep` | src/commonMain/kotlin/com/jwoolston/cluster/RankOrderCluster.kt:118-135 | visiting one more ordered pair adds exactly that pair's candidates |
| `MergeRounds.CandidateShape` | src/commonMain/kotlin/com/jwoolston/cluster/RankOrderCluster.kt:128-133 | every candidate is one cluster's node set, or the union of two clusters the merge test joins |
| `MergeRounds.FewClustersNoCandidates` | src/commonMain/kotlin/com/jwoolston/cluster/RankOrderCluster.kt:118-120 | with at most one cluster no pair is visited and there are no candidates |
| `MergeRounds.NoEmptyCandidate` | src/commonMain/kotlin/com/jwoolston/cluster/RankOrderCluster.kt:128-133 | candidates of non-empty clusters are never empty |
| `MergeRounds.CandidatesUnion` | src/commonMain/kotlin/com/jwoolston/cluster/RankOrderCluster.kt:118-135 | with two clusters or more, the candidates together hold exactly the clusters' nodes |
| `MergeRounds.RoundShrinks` | src/commonMain/kotlin/com/jwoolston/cluster/RankOrderCluster.kt:137-144 | a round never yields more blocks than it had clusters, and yields as many only when there are as many candidates as blocks, which stops the loop |
| `MergeRounds.FewRoundEmpty` | src/commonMain/kotlin/com/jwoolston/cluster/RankOrderCluster.kt:118-144 | a round starting with at most one cluster has no candidates and no blocks |
| `MergeRounds.RoundBlocks` | src/commonMain/kotlin/com/jwoolston/cluster/RankOrderCluster.kt:137-144 | the blocks are non-empty and disjoint, and hold all the clusters' nodes when there were two clusters or more |
| `MergeRounds.QuietRound` | src/commonMain/kotlin/com/jwoolston/cluster/RankOrderCluster.kt:128-142 | when no pair passes the merge test, the candidates are the clusters' node sets, merging changes nothing and the counts agree |
| `MergeRounds.PartitionHasElements` | src/commonMain/kotlin/com/jwoolston/cluster/RankOrderCluster.kt:105 | a partition with at least one cluster holds at least one node |
| `MergeRounds.ClustersOfBlocks` | src/commonMain/kotlin/com/jwoolston/cluster/RankOrderCluster.kt:144 | one cluster per disjoint non-empty block gives a partition of the blocks' nodes |
| `Clustering.RodBelow` | src/commonMain/kotlin/com/jwoolston/cluster/RankOrderCluster.kt:40 | `rodCluster < threshold` with the ratio divided in doubles: for a positive denominator, numerator < threshold × denominator; for a negative one, numerator > threshold × denominator; for a zero one (an infinity or NaN), exactly when the numerator is negative |
| `Clustering.Linkage` | src/commonMain/kotlin/com/jwoolston/cluster/RankOrderCluster.kt:125-126 | `lndCluster`, which `RankOrderCluster.LinkageDistance` computes from the clusterer's `kNeighborAverage`: when either cluster is empty it is the neighbourhood average times `Double.MAX_VALUE` |
| `Clustering.LinkageBelow` | src/commonMain/kotlin/com/jwoolston/cluster/RankOrderCluster.kt:125-126 | with a non-negative neighbourhood average `k`, `lndCluster` is at most `k` times the distance of any node pair across the two clusters |
| `Clustering.Enumerate` | src/commonMain/kotlin/com/jwoolston/cluster/RankOrderCluster.kt:144 | a merged node set is handed to `Cluster(...)` as a repeat-free collection of exactly its nodes |
| `Clustering.BuildClusters` | src/commonMain/kotlin/com/jwoolston/cluster/RankOrderCluster.kt:144 | `merged.map { Cluster(it) }` builds one cluster per block, holding that block's nodes |
| `Clustering.Singletons` | src/commonMain/kotlin/com/jwoolston/cluster/RankOrderCluster.kt:105 | one singleton cluster per accumulated node, together a partition of the nodes |
| `Clustering.RankOrderCluster.constructor` | src/commonMain/kotlin/com/jwoolston/cluster/RankOrderCluster.kt:88-90 | a new clusterer has no nodes and keeps its configuration |
| `Clustering.RankOrderCluster.MergeTest` | src/commonMain/kotlin/com/jwoolston/cluster/RankOrderCluster.kt:128 | a pair passes only with `lndCluster < 1.0`; with a positive denominator it passes exactly when also numerator < threshold × denominator; a zero denominator with a non-negative numerator never passes |
| `Clustering.RankOrderCluster.OrderLists` | src/commonMain/kotlin/com/jwoolston/cluster/RankOrderCluster.kt:110-113 | every cluster of the round maps to its ordered neighbour list |
| `Clustering.RankOrderCluster.AddPair` | src/commonMain/kotlin/com/jwoolston/cluster/RankOrderCluster.kt:120-133 | a pair adds nothing for the same cluster, the union when the merge test passes, and both node sets otherwise |
| `Clustering.RankOrderCluster.MergeCandidates` | src/commonMain/kotlin/com/jwoolston/cluster/RankOrderCluster.kt:115-135 | `mergeCandidates` holds, once each, exactly the candidates of every ordered pair |
| `Clustering.RankOrderCluster.Round` | src/commonMain/kotlin/com/jwoolston/cluster/RankOrderCluster.kt:109-144 | one round's order lists, candidates, merge and new clusters: the candidates are those of every ordered pair, the new clusters hold the blocks of their merge and form a partition, holding all the old clusters' nodes when there were two or more (none when the round starts with at most one cluster), and the count never grows |
| `Clustering.RankOrderCluster.RoundFacts` | src/commonMain/kotlin/com/jwoolston/cluster/RankOrderCluster.kt:137-144 | a round over a partition yields a partition; with two clusters or more it keeps the nodes and is non-empty, with at most one it yields no candidates and no clusters; equal counts mean no merge |
| `Clustering.RankOrderCluster.TraceStep` | src/commonMain/kotlin/com/jwoolston/cluster/RankOrderCluster.kt:107-145 | appending a round that follows from the last keeps the record chained; the loop goes on exactly while every round had more candidates than blocks, and once it stops the record is a whole run of `update` |
| `Clustering.RankOrderCluster.Update` | src/commonMain/kotlin/com/jwoolston/cluster/RankOrderCluster.kt:102-147 | the loop runs from one singleton per node, each round following from the one before, repeating exactly while candidates outnumber blocks; the last round starts from a partition `last` of all the nodes, and the result is empty exactly when `last` has at most one cluster, otherwise a partition of all the nodes; with at most one node the result is empty |
| `Clustering.RankOrderCluster.AddNode` | src/commonMain/kotlin/com/jwoolston/cluster/RankOrderCluster.kt:92-95 | the node is added to `nodes` unless present, and the result is `update`'s run over all the nodes, with the same guarantees |
| `Clustering.RankOrderCluster.AddNodes` | src/commonMain/kotlin/com/jwoolston/cluster/RankOrderCluster.kt:97-100 | the new nodes are appended in order without repeats, and the result is `update`'s run over all the nodes, with the same guarantees |
| `Examples.OrderFromZero` | src/commonTest/kotlin/com/jwoolston/cluster/RankOrderClusterTest.kt:21-31 | on the seven test points, cluster 0's order list is the input order |
| `Examples.OrderFromOne` | src/commonTest/kotlin/com/jwoolston/cluster/RankOrderClusterTest.kt:46 | cluster 1's order list starts with 1, then 0, then the rest in input order |
| `Examples.OrderFromFive` | src/commonTest/kotlin/com/jwoolston/cluster/RankOrderClusterTest.kt:32-39 | cluster 5's order list is 5, 4, 3, 2, 1, 0, 6 |
| `Examples.AsymmetricExamples` | src/commonTest/kotlin/com/jwoolston/cluster/RankOrderClusterTest.kt:43-53 | the asymmetric rank-order distances are 1 (from 0 to 1) and 15 (from 0 to 5) |
| `Examples.RankOrderExample` | src/commonTest/kotlin/com/jwoolston/cluster/RankOrderClusterTest.kt:56-62 | the rank-order distance between clusters 0 and 5 is 30 / 5 |
| `Examples.TransitiveMergeExample` | src/commonTest/kotlin/com/jwoolston/cluster/RankOrderClusterTest.kt:74-93 | any valid result for the test input holds exactly the blocks ABC, DE, F and G |
| `Examples.ExpectedIsConsolidation` | src/commonTest/kotlin/com/jwoolston/cluster/RankOrderClusterTest.kt:84-92 | ABC, DE, F, G is a valid consolidation of the test input |

## Left out

- Node's Euclidean distance (`pow`, `sqrt` over doubles) is not modelled. The node distance is a parameter `dist`. The length-mismatch exception becomes the caller's concern, since `dist` is total.
- `kNeighborAverage` is floating-point sums, a division by `k` and a reciprocal. It is a parameter of the clusterer. The driver passes it the two clusters' elements, all the nodes and `k`, as the source does.
- Floating-point arithmetic in general is modelled as exact reals. This covers rounding, NaN, signed zeros and the final `toDouble()` division of `clusterRankOrderDistance`. `Double.MAX_VALUE` is its exact value. The merge test divides the numerator by the denominator in the reals. A zero denominator follows IEEE rules: a positive numerator gives +infinity and 0 / 0 gives NaN, so both fail the test, and only a negative numerator passes.
- The generic `Number` bound, `toDouble` conversions and the `toString` methods are not modelled. They carry no logic.
- Clustering.Enumerate: within a cluster built from a merged set, the element order is left unspecified. The Kotlin code uses the `LinkedHashSet` insertion order of the unions. Two things read that order: the min-fold of `distance`, which does not depend on it, and `kNeighborAverage`, which is handed the clusters' elements and whose double sums depend on it only through floating-point rounding, which is not modelled.
- Consolidation.TransitiveMerge: the contract does not state the order of the output blocks. It also does not state that each block holds the first surviving input position. The source returns a `Set` and promises neither. The model's output is in surviving-position order.
- Clustering.RankOrderCluster.MergeCandidates: the contract gives the candidates as a set, not their insertion order. The consolidation it feeds is proved independent of that order only as a set of blocks. The order of the blocks becomes the next round's cluster order, and the stable sort of `clusterOrderedList` reads that order when distances tie; the contract does not fix that order or those tie-breaks.
- RankOrder.AsymmetricRankOrderDistance: the 32-bit `Int` wrap-around of `accumulator` is not modelled; integers are unbounded. `NumeratorFitsInt` bounds the final sum below 2^31 for lists of at most 32768 clusters; the partial sums are not bounded separately.
- RankOrder.ClusterRankOrderDistance: the 32-bit `Int` wrap-around of `asym_ij + asym_ji` is not modelled either, for the same reason and with the same bound.
- Clustering.RankOrderCluster.Update: the contract states termination, the chain of rounds, disjointness and coverage. It does not state which nodes end up together; that depends on the numeric merge test.
- Concurrency is not modelled; the library is single-threaded.
- The end-to-end test (three clusters from the seven points) is not modelled. It depends on `kNeighborAverage` and floating-point values that the model leaves abstract.
