# RanAgg clustering core in Dafny

RanAgg clusters a graph by random aggregation. Each vertex starts as a
player. A variant's loop repeatedly draws a candidate. A candidate with no
edges becomes a winner. Otherwise the loop picks a neighbour, decides a
winner and a loser, records the pair in `hierarchy` and drops the loser
from the players. The clusters are then read off the run in one of two ways:

- Destructive variants: one cluster per winner (`centroid`) plus what it absorbed.
- Retentive variants: the connected components of the graph whose edges are the hierarchy pairs.

Finally the clustering is scored against ground-truth communities, by the
pair counts `a`, `b`, `c`, `d` behind the Rand index and by the intra/inter
edge counts behind modularity.

The project models this core of `graph.cpp` and the edge bookkeeping of
`edge.cpp`. It has eight modules:

- `Lists`: the QList operations the code relies on (`removeOne`, sums, flattening).
- `EdgeStore`: the `Vertex`/`Edge` objects. Constructing an edge registers it with both endpoints. `removeAll` detaches it again. Each vertex's edge list and neighbour-index list stay in step.
- `Aggregation`: the sixteen `random_aggregate_*` loops.
  - One driver (`Run`) with per-variant policies: candidate choice, comparator, pair orientation, weight initialisation.
  - Every random draw is a nondeterministic choice.
  - One iteration is `Step`, specified by `StepSpec`.
- `Clusters`: the two cluster builders, `large_graph_parse_result` and `large_parse_retain_result`.
- `Evaluation`:
  - `count_unique_element` and the excluded-id set.
  - Adjacency read off an edge list.
  - The modularity counts, with the six-vertex fixture of `read_large_graph_with_ground_truth_communities`.
- `Pairwise`: the integer part of `LARGE_compute_Pairwise_efficient` and `calA`–`calD`, in 64-bit unsigned arithmetic.
- `Overlap`: `large_process_overlap` on the ground truth.
- `GraphModel`: the `Graph` object, whose methods update its fields in place. Its methods are the constructor, building the graph, running a variant, the two builders, the overlap step, modularity and `LARGE_reset`.

## Model

| member | source | states |
|---|---|---|
| Lists.RemoveOne | edge.cpp:39-42 | `QList::removeOne` takes exactly one copy of the value out, as multisets, and leaves a list without the value unchanged |
| Lists.RemoveOneAfterAppend | edge.cpp:9-13 | appending a value that is not present and removing it gives the original list back |
| Lists.RemoveOneAfterAppendPresent | edge.cpp:9-13 | appending a value that is already present and removing it removes the earlier copy instead |
| Lists.RangeMultiset | graph.cpp:55 | the initial player list (every vertex id) holds each id below `n` exactly once, and no other id |
| Lists.DistinctCounts | graph.cpp:1651-1658 | in a list without repeats, every value occurs once or not at all |
| Lists.SumConcat | graph.cpp:1788-1789 | the accumulated sum of two lists one after the other is the sum of the two sums |
| Lists.ElementsSize | graph.cpp:1681-1683 | a list has no more distinct values than elements |
| Lists.FlattenMembership | graph.cpp:1676-1694 | an id is in the flattened partition exactly when one of its lists holds it |
| EdgeStore.Vertex.constructor | graph.cpp:1083-1084 | a new vertex has its index and empty edge and neighbour lists |
| EdgeStore.Vertex.AddEdge | edge.cpp:9-10 | `addEdge` appends the edge and leaves the neighbour list alone |
| EdgeStore.Vertex.RemoveEdge | edge.cpp:39-40 | `removeEdge` removes one occurrence of the edge and leaves the neighbour list alone |
| EdgeStore.Vertex.AddAdj | edge.cpp:12-13 | `addAdj` appends the neighbour index and leaves the edge list alone |
| EdgeStore.Vertex.RemoveAdj | edge.cpp:41-42 | `removeAdj` removes one occurrence of the index and leaves the edge list alone |
| EdgeStore.Edge.constructor | edge.cpp:4-17 | `fromVertex`, `toVertex` and `getIndex` return the constructor's arguments. The edge is appended to both endpoints' edge lists, and each endpoint's index to the other's neighbour list; a self-loop lands twice on one vertex. Only the two endpoints change, and a vertex whose lists were in step stays in step |
| EdgeStore.Edge.RemoveAll | edge.cpp:37-43 | the four detachments of `removeAll` (and of the destructor, edge.cpp:19-25): one copy of the edge out of each endpoint's edge list and one copy of each endpoint's index out of the other's neighbour list. Only the endpoints change, and a registered edge leaves both endpoints in step |
| EdgeStore.ConstructThenRemoveAll | edge.cpp:4-43 | constructing an edge and then calling `removeAll` restores both endpoints' edge lists exactly. It restores their neighbour lists as multisets, and exactly when the endpoints were not already neighbours |
| EdgeStore.InStepAppend | edge.cpp:9-13 | registering an incident edge together with its other end keeps a vertex's two lists in step |
| EdgeStore.InStepRemove | edge.cpp:39-42 | detaching a registered edge together with its other end keeps a vertex's two lists in step |
| EdgeStore.NeighbourIndexesAppend | edge.cpp:9-13 | the neighbours that an edge list stands for are, for two lists one after the other, the two neighbour lists one after the other |
| EdgeStore.NeighbourIndexesRemoveOne | edge.cpp:39-42 | taking one occurrence of an edge out of the edge list takes its other end out of the neighbours it stands for |
| EdgeStore.SelfLoopRoundTrip | edge.cpp:9-13 | a self-loop's two appends and two removals restore the list as a multiset, and exactly when the value was absent |
| EdgeStore.RestoreIndex | edge.cpp:12-13 | appending an index and removing it restores the list as a multiset, and exactly when the index was absent |
| GraphModel.Graph.constructor | graph.cpp:24-28 | a new graph is empty and not ready; its registrations are trivially in step |
| GraphModel.Graph.Adj | graph.cpp:2122-2127 | each vertex's neighbour list is the other end of each of its edges, in edge order |
| GraphModel.Graph.CheckGraphCondition | graph.cpp:1054-1067 | the graph may be clustered only if it has vertices and is ready; a false answer means one of the two fails |
| GraphModel.Graph.AddVertex | graph.cpp:1081-1086 | a fresh vertex whose index is its position is appended; the registrations stay in step |
| GraphModel.Graph.AddEdge | graph.cpp:1489-1497 | a fresh edge between vertices `i` and `j`, with the next index, is appended to the edge list. Every vertex's lists are then those the longer edge list gives it |
| GraphModel.Graph.AddEdges | graph.cpp:1489-1497 | the edges added are exactly the given index pairs, in order, and the registrations stay in step |
| GraphModel.Graph.LargeReset | graph.cpp:1910-1922 | edges, hierarchy, centroids and result are emptied and the graph is not ready, so `checkGraphCondition` fails; vertices, truth and excluded ids are kept |
| GraphModel.Graph.Aggregate | graph.cpp:46-98 | the III variants clear `hierarchy` first. A graph that fails `checkGraphCondition` is reset as `LARGE_reload` does (edges, hierarchy, centroids and result emptied) and is ready afterwards. When no reload happens, the run starts from the graph's own neighbour lists. The hierarchy it starts from stays a prefix, and only pairs of vertex ids are appended. `t` never exceeds \|V\| and equals \|V\| for a finished run (except III.d); it counts the winners stored as centroids plus the pairs appended (for a retentive run, the pairs alone). A finished destructive run stores its winners, all vertex ids, as centroids and leaves every vertex edgeless in the returned snapshot; a retentive run keeps the neighbour lists. Each early return is ruled out by its premise. Vertices, truth, excluded ids and `global_e` are not touched |
| GraphModel.Graph.LargeGraphParseResult | graph.cpp:1582-1621 | the graph is marked not ready. With no centroids it returns before touching the result; otherwise the result is the parsed clusters. The clustering is compared exactly when the result and the truth have the same positive number of distinct ids, and the tally then has the meaning of `TallyOf` |
| GraphModel.Graph.LargeComputeClusterMatching | graph.cpp:1713-1723 | nothing is compared without ground truth; otherwise the tally is the pair counts of truth against result |
| GraphModel.Graph.LargeParseRetainResult | graph.cpp:1626-1666 | the graph is marked not ready, and there is one cluster per component, each holding that component's non-excluded ids. `uniq` is as `count_unique_element` promises, the tally means what `TallyOf` says, and the score is the modularity of the new result |
| GraphModel.Graph.LargeProcessOverlap | graph.cpp:1327-1375 | only copies of ids leave the communities; when no community repeats an id, every id of the truth ends in exactly one community; nothing else changes |
| GraphModel.Graph.ComputeModularity | graph.cpp:2104-2141 | `global_e` falls back to the edge count when it is 0. The score is the sum over clusters of `intra/m - ((intra+inter)/m)^2` with `m = 2 global_e`, or NaN when `m` is 0 and there is a cluster |
| GraphModel.Graph.CountCluster | graph.cpp:2114-2133 | `intra` counts the member edge ends leading into the cluster and `inter` those leading out; together they are the members' degree sum |
| GraphModel.EdgePairs | graph.cpp:1491-1495 | the endpoints of each edge, as an index pair, in edge-list order |
| GraphModel.EdgePairsSnoc | graph.cpp:1496 | listing one more edge lists one more index pair |
| GraphModel.RegisterAll | graph.cpp:1495-1496 | constructing edge `i`–`j` keeps every vertex's lists in step with the longer edge list; vertices other than the two endpoints are untouched |
| GraphModel.RegisterAt | edge.cpp:9-13 | for one vertex, the construction appends exactly what the pair `(i, j)` adds to its neighbours |
| GraphModel.RegisterSelfLoop | edge.cpp:9-13 | a self-loop adds the vertex itself to its own lists twice |
| GraphModel.AppendVertex | graph.cpp:1083-1085 | a fresh vertex with the next index and no edges keeps the registrations in step |
| GraphModel.NoEndsAtNewVertex | graph.cpp:1083-1085 | no existing edge touches the index of a new vertex |
| GraphModel.EdgesListedAppend | graph.cpp:1494 | appending an edge between listed vertices keeps every edge's endpoints listed at their indices |
| GraphModel.RetainedWithin | graph.cpp:1651-1660 | the clusters built from a labelling of all vertices name only vertex ids |
| GraphModel.RegisteredAdjacency | graph.cpp:2122-2127 | with registrations in step, the graph's neighbour lists are those of its edge list read as index pairs |
| GraphModel.NewGraph | graph.cpp:1081-1094 | `n` vertices indexed `0..n-1` and one edge per given pair, in order; its neighbour lists are `AdjList(pairs, n)`, which links the object graph to the fixture's value-level modularity |
| Clusters.Kept | graph.cpp:1598-1606 | an id is kept exactly when it is listed and not excluded; never more ids than listed |
| Clusters.ParseResult | graph.cpp:1591-1613 | the builder loop yields `ParseSpec`: one cluster per centroid, in order, without empty clusters |
| Clusters.CentroidCluster | graph.cpp:1594-1608 | one centroid's cluster is its id unless excluded, then its non-excluded absorbed ids |
| Clusters.ParseNoEmptyNoExcluded | graph.cpp:1598-1609 | no parsed cluster is empty and none holds an excluded id |
| Clusters.ParseClusterShape | graph.cpp:1593-1610 | every parsed cluster is some centroid's cluster, and there are never more clusters than centroids |
| Clusters.ParseMembership | graph.cpp:1593-1610 | an id is in some cluster exactly when it is a centroid, or was absorbed by one, and is not excluded |
| Clusters.ParseClusterKept | graph.cpp:1608-1609 | every non-empty centroid cluster is kept |
| Clusters.ParseRetainResult | graph.cpp:1644-1660 | `num` clusters; cluster `k` lists the non-excluded ids labelled `k`, ascending |
| Clusters.MembersSpec | graph.cpp:1651-1658 | an id is a member of label `k` exactly when it is a vertex id with label `k` and not excluded; members ascend |
| Clusters.RetainPartition | graph.cpp:1651-1660 | every non-excluded vertex id is in exactly one cluster, exactly once; excluded ids are in none |
| Clusters.RetainClustersAreComponents | graph.cpp:1634-1660 | two non-excluded ids share a cluster exactly when hierarchy pairs connect them |
| Clusters.PairTogether | graph.cpp:1634-1638 | both ids of any hierarchy pair land in the same cluster, unless excluded |
| Clusters.ClusterCountIsComponentCount | graph.cpp:1641-1649 | the number of clusters is the number of components |
| Aggregation.Record | graph.cpp:384-396 | the pair appended is (neighbour, selected) in II.c whatever was decided; otherwise it holds winner and loser, the winner second for (loser, winner) and first for (winner, loser) |
| Aggregation.Isolate | graph.cpp:89 | deleting every edge of the loser meets the contract given to the unseen `absorb_removeEdge`, so that contract can be met |
| Aggregation.MaxMetricBound | graph.cpp:639-654 | no player's degree or weight exceeds `max_d` |
| Aggregation.MaxMetricAttained | graph.cpp:639-654 | `max_d`, starting at 0, is 0 or some player's metric |
| Aggregation.TiesMember | graph.cpp:644-653 | an id is in the list for a value `m` exactly when it is a player of metric `m` |
| Aggregation.TieListSpec | graph.cpp:639-654 | the tie list holds exactly the players whose metric no player exceeds (all-zero players included), and is non-empty when there are players |
| Aggregation.TieList | graph.cpp:638-654 | the clear-and-append loop computes the tie list of the maximum |
| Aggregation.NoTiesAbove | graph.cpp:644-648 | no player ties a value above every player's metric, so the list restarts on a new maximum |
| Aggregation.CopiesCount | graph.cpp:485-489 | `k` copies of `x` hold `x` exactly `k` times |
| Aggregation.RepeatedCount | graph.cpp:483-489 | the weighted list holds each player exactly deg(v) or w(v) times per occurrence in `players` |
| Aggregation.RepeatedLength | graph.cpp:483-489 | the weighted list is as long as the sum of the players' metrics |
| Aggregation.RepeatedMember | graph.cpp:483-490 | an id is in the weighted list exactly when it is a player of positive metric, so an empty list means every player's metric is 0 |
| Aggregation.WeightedList | graph.cpp:561-568 | the nested append loop builds the weighted list |
| Aggregation.Decide | graph.cpp:143-152 | winner and loser are the candidate and the neighbour in some order. Under a comparison the candidate wins exactly when its metric is `>=` the neighbour's, so ties go to the candidate. The candidate always wins in the plain variants; the neighbour always wins in the retentive ones |
| Aggregation.PickCandidate | graph.cpp:483-504 | the candidate is a player. II.g/h draw one whose metric no player exceeds; II.e/f draw one of positive metric, or fall back to a uniform draw only when the weighted list is empty |
| Aggregation.TopMetric | graph.cpp:656-659 | a member of the tie list is a player whose metric no player exceeds |
| Aggregation.WeightedPositive | graph.cpp:501-504 | a member of the weighted list is a player of positive metric |
| Aggregation.DestructiveMerge | graph.cpp:143-157 | a merge decides winner and loser by the comparator and appends exactly one pair in the variant's orientation. The loser leaves `players` (one fewer), the absorb contract holds, and II.f/h accumulate weight. The loop invariant, loop-freeness and unclustered players are kept |
| Aggregation.NeighbourIsPlayer | graph.cpp:87-90 | in a destructive variant a neighbour of a player is still a player, so `players.removeOne(loser)` removes something |
| Aggregation.MergeKeepsCore | graph.cpp:89-91 | a destructive merge of two players keeps the loop invariant: distinct players, every removed vertex edgeless, and in II.f every weightless player edgeless |
| Aggregation.PlayersAfterRemoval | graph.cpp:79 | removing a present player shortens the list by one, keeps every other player and adds none |
| Aggregation.RemovalKeepsCore | graph.cpp:76-81 | declaring an edgeless candidate a winner (or III.d's drop) keeps the loop invariant and shortens `players` by one |
| Aggregation.FallbackIsolated | graph.cpp:490-498 | when the weighted list is empty, the uniformly drawn fallback candidate has no edges, so declaring it a winner is sound |
| Aggregation.RetentiveStep | graph.cpp:866-888 | a retentive iteration has one of three outcomes. In III.a/b/e an isolated candidate gets no edge; the source would dereference that null edge, and the model stops the run with a fatal outcome instead. In III.d the candidate is dropped and its parent set. Otherwise the pair (selected, neighbour) is recorded with the neighbour as winner, and the graph is kept. Every non-fatal outcome shortens `players` by one |
| Aggregation.DestructiveStep | graph.cpp:74-92 | an edgeless candidate becomes a winner. Otherwise there is a merge, or III.c's self-neighbour return, which cannot happen in a loop-free graph |
| Aggregation.Step | graph.cpp:62-93 | exactly one `StepSpec` event. Unless the loop returns early, `players` loses exactly one element and the invariant holds again; with no vertex clustered, the "already clustered" return never fires |
| Aggregation.InitialiseWeights | graph.cpp:955-960 | each weight becomes the degree, 1 or stays, by the variant; nothing else changes |
| Aggregation.AdvanceKeepsRunInv | graph.cpp:62-93 | one non-fatal iteration keeps the driver's invariant: players plus iterations equal the vertex count, `t` counts winners and pairs, and the hierarchy grows only by pairs of vertex ids |
| Aggregation.MergedKeepsRunInv | graph.cpp:88-91 | a merge keeps the driver's invariant and counts one in `t` |
| Aggregation.DroppedKeepsRunInv | graph.cpp:977-982 | III.d's drop keeps the driver's invariant and does not count in `t` |
| Aggregation.Run | graph.cpp:46-98 | the loop ends after at most \|V\| iterations; `t` is at most \|V\|, and exactly \|V\| when it finishes (except III.d). Winners and pairs are vertex ids, and a finished destructive run leaves every vertex edgeless. Each abnormal end is ruled out by its premise: the "already clustered" return when no vertex is clustered, the III.c return when there are no self-loops, and the null-edge dereference of III.a/b/e when no vertex is isolated. Retentive runs keep the graph |
| Aggregation.StartKeepsCore | graph.cpp:55-58 | with every vertex a player, the invariant holds before the first iteration |
| Aggregation.NotFatal | graph.cpp:69-73 | the early returns fire only where their guard's condition is met |
| Evaluation.IdsMembership | graph.cpp:1686-1694 | an id is in a partition's id set exactly when one of its lists holds it |
| Evaluation.IdsBound | graph.cpp:1681 | there are never more distinct ids than listed elements (`sum`) |
| Evaluation.CollectIds | graph.cpp:1676-1694 | the double loop collects exactly the distinct ids and counts the listed elements |
| Evaluation.CountUniqueElement | graph.cpp:1672-1705 | 0 exactly when result and truth hold different numbers of distinct ids (or none); otherwise that common number |
| Evaluation.SameCountMeansSameIds | graph.cpp:1696-1704 | with the excluded set built from the truth and a result of non-excluded vertex ids, equal counts mean equal id sets |
| Evaluation.SubsetOfSameSize | graph.cpp:1696 | a subset as large as its superset is the superset |
| Evaluation.ReportMissesLastId | graph.cpp:1554-1555 | the written test `id > size` does not report the id `size`, which is not a vertex index |
| Evaluation.OutOfRangeExact | graph.cpp:1554 | the intended test `id >= size` reports exactly the ids that are not vertex indices |
| Evaluation.ExcludedIds | graph.cpp:1545-1562 | the excluded set gains exactly the vertex ids that no community lists. The report flag is set exactly when some community lists an id that is not a vertex index |
| Evaluation.AdjList | graph.cpp:2123-2127 | one neighbour list per vertex, read off the edge list |
| Evaluation.EndsTotal | graph.cpp:2119-2132 | one more edge adds one neighbour entry per endpoint |
| Evaluation.Handshake | graph.cpp:2119-2132 | the neighbour lists of all vertices hold two entries per edge |
| Evaluation.InsideOutside | graph.cpp:2128-2131 | every neighbour is counted once, inside or outside |
| Evaluation.IntraPlusInter | graph.cpp:2119-2132 | for every cluster, intra + inter is the sum of its members' adjacency-list lengths |
| Evaluation.ClosedClusterNoInter | graph.cpp:2128-2131 | a cluster with all neighbours inside has `inter = 0` and `intra` equal to its degree sum |
| Evaluation.DegreeSumRange | graph.cpp:2119-2132 | the degree sum over all vertex ids is the handshake total |
| Evaluation.WholeGraphCluster | graph.cpp:2107-2139 | one all-inclusive cluster with `global_e = \|E\|` has `intra = 2 global_e`, `inter = 0` and `Q = 0` |
| Evaluation.FullTermIsZero | graph.cpp:2136-2138 | a cluster with every edge end inside and `m = intra` scores `1 - 1^2 = 0` |
| Evaluation.WholeGraphCounts | graph.cpp:2119-2132 | the all-vertices cluster counts every edge twice inside and none outside |
| Evaluation.AdjacencyWithin | graph.cpp:2126-2127 | neighbour ids of a vertex are vertex ids |
| Evaluation.FixtureModularity | graph.cpp:1081-1099 | the six-vertex, seven-edge fixture clustered as `{0,1,2,3}`, `{4,5}` with `global_e = 7` has modularity exactly 6/49 |
| Evaluation.TwoClusters | graph.cpp:2114-2140 | the modularity of two clusters is the sum of their two terms |
| Evaluation.FixtureTerms | graph.cpp:2135-2139 | the fixture's terms `8/14 - (10/14)^2` and `2/14 - (4/14)^2` add to 6/49 |
| Evaluation.FixtureFirstCluster | graph.cpp:1087-1096 | `{0,1,2,3}` has 8 edge ends inside and 2 out |
| Evaluation.FixtureSecondCluster | graph.cpp:1087-1097 | `{4,5}` has 2 edge ends inside and 2 out |
| Evaluation.FixtureAdjacency | graph.cpp:1087-1094 | the fixture's neighbour lists, in edge order |
| Evaluation.AdjacencySnoc | edge.cpp:9-13 | registering one more edge extends each neighbour list by that edge's ends |
| Pairwise.ContingencyCounts | graph.cpp:1773-1795 | the first double loop yields the row totals, the column totals, and the sum, sum of squares, sum of `n_ij(n_ij-1)` and sum of `C(n_ij,2)` of the table `n_ij = \|X_i ∩ Y_j\|` |
| Pairwise.AddRow | graph.cpp:1778-1794 | one row's pass adds its entries to the running sums, its total to `ni` and each entry to its column's total |
| Pairwise.Accumulate | graph.cpp:1785-1788 | one entry's four running-sum updates give the sums over the longer list |
| Pairwise.AppendSums | graph.cpp:1785-1789 | what one more value adds to each of the sums |
| Pairwise.MarginalSums | graph.cpp:1806-1824 | corrected second and third loops: the totals' sum, sum of squares and sum of `C(x,2)`, squares computed in full |
| Pairwise.SquareAsWritten | graph.cpp:1808-1809 | the square formed in `int` and widened to 64 bits always lies below 2^64 |
| Pairwise.SquareAsWrittenSmall | graph.cpp:1808-1809 | while the square fits in an `int`, the code as written is right |
| Pairwise.SquareAsWrittenOverflows | graph.cpp:1818-1819 | a total of 46341 squares to 2147488281, but the code as written gives 18446744071562072601 |
| Pairwise.PairCounts | graph.cpp:1765-1841 | when `n` is the number of ids the table counts and `n^2` fits in 64 bits: `a` = Σ C(n_ij,2), `2b` and `2c` are the rows' and columns' surplus of squares, and `a+b+c+d = n(n-1)/2` |
| Pairwise.PairCountsMeaning | graph.cpp:1838-1841 | the four values `calA`–`calD` return from the table's sums mean what `PairCounts` promises |
| Pairwise.PairCountIdentity | graph.cpp:1856-1890 | `nij_minus` is even and `calA` is Σ C(n_ij,2). Each of `calB`, `calC`, `calD` halves an even, non-negative number without wrap-around, and `a+b+c+d = n(n-1)/2` |
| Pairwise.CountsFromSquares | graph.cpp:1856-1890 | the same identity on plain numbers |
| Pairwise.HalfOfEven | graph.cpp:1864-1878 | `calB`/`calC` on an even, non-negative difference below 2^64 is its exact half |
| Pairwise.HalfOfEvenChain | graph.cpp:1880-1890 | `calD` on an even, non-negative result below 2^64 is its exact half |
| Pairwise.PairsHalf | graph.cpp:1838-1843 | the number of id pairs `n(n-1)/2`, which `a+b+c+d` must add up to, is an exact half of `n^2 - n` |
| Pairwise.TableSquares | graph.cpp:1797-1836 | the table's sums of squares satisfy `sf <= sr <= n^2`, `sf <= sc` and `sr + sc <= n^2 + sf`, and each exceeds `n` by an even number |
| Pairwise.RowSquaresBound | graph.cpp:1811 | the row totals' squares sum to at most `n^2` |
| Pairwise.SquaresSplit | graph.cpp:1785-1787 | Σx^2 = Σx + 2 Σ C(x,2) and Σx(x-1) = 2 Σ C(x,2) |
| Pairwise.SubChain | graph.cpp:1886 | wrapping after each step of `n^2 + nij^2 - ni^2 - nj^2` gives the residue of the exact result |
| Pairwise.PairCount | graph.cpp:1787 | `n(n-1)` is even, so the halving is exact |
| Pairwise.PairsTwice | graph.cpp:1787 | `x(x-1)` is twice the triangle number |
| Pairwise.PairsAreSquaresMinusSum | graph.cpp:1785-1786 | Σ n_ij(n_ij-1) = Σ n_ij^2 - Σ n_ij |
| Pairwise.Choose2IsHalfPairs | graph.cpp:1785-1787 | Σ n_ij(n_ij-1) is twice Σ C(n_ij,2), so `calA` equals `nij_choose_2` |
| Pairwise.SquareOfSumBound | graph.cpp:1809-1811 | a sum of squares is at most the square of the sum |
| Pairwise.SumSqConcat | graph.cpp:1786 | the sum of squares of two lists one after the other is the sum of the two |
| Pairwise.RowFacts | graph.cpp:1789-1794 | the row totals add up to Σ n_ij, and their squares to at least Σ n_ij^2 |
| Pairwise.ColFacts | graph.cpp:1790-1792 | the column totals add up to Σ n_ij (so the comparison at graph.cpp:1827 holds), and their squares to at least Σ n_ij^2 |
| Pairwise.ZerosSums | graph.cpp:1773-1774 | the initial column totals sum, and square-sum, to 0 |
| Pairwise.AddVecSums | graph.cpp:1790-1792 | adding a row into the column totals: the sums add, and the squares follow `\|a+b\|^2 = \|a\|^2 + 2a·b + \|b\|^2` |
| Pairwise.AddVecSnoc | graph.cpp:1790-1792 | an entry-wise sum splits at its last entry |
| Pairwise.AddVecOf | graph.cpp:1790-1792 | column totals updated entry by entry are the entry-wise sum |
| Pairwise.EntryBelowSum | graph.cpp:1790-1791 | one column total is at most all entries |
| Pairwise.DotBound | graph.cpp:1790-1792 | with every column total at most `n`, the column totals dotted with a row are at most `n` times the row's total |
| Pairwise.ApartCountNonNegative | graph.cpp:1886 | `n^2 + Σn_ij^2 - Σn_i.^2 - Σn_.j^2` (twice `d`) is never negative |
| Overlap.Repeat | graph.cpp:1337-1339 | `k` copies of a community index |
| Overlap.Bound | graph.cpp:1342 | a number above every id of the partition |
| Overlap.GroupByMember | graph.cpp:1329-1341 | the map built with `insert`/`insertMulti` has a key for exactly the ids that some community lists, and `values(id)` is the list of their communities, most recent first |
| Overlap.GroupInsert | graph.cpp:1336-1339 | one insertion puts the community in front of the id's values |
| Overlap.ValuesMembership | graph.cpp:1346 | `values(id)` names exactly the communities that list `id` |
| Overlap.ValuesDescending | graph.cpp:1346 | without repeats inside a community, `values(id)` strictly descends, naming each community once |
| Overlap.KeysSorted | graph.cpp:1342 | `keys()` ascend and lie below the bound |
| Overlap.KeysMembership | graph.cpp:1342 | an id is among the keys exactly when it has values |
| Overlap.ChooseLargest | graph.cpp:1349-1359 | the scan picks the first community of the largest current size; none before it is as large |
| Overlap.Detach | graph.cpp:1361-1367 | the id is removed once from every listed community except the kept one |
| Overlap.ResolveKey | graph.cpp:1345-1368 | an id with one community is left alone. Otherwise the first largest community is kept and the id is removed once from each other one; only copies of this id are taken out |
| Overlap.DetachStep | graph.cpp:1363-1365 | one removal step extends the detach by one community |
| Overlap.OnlyRemovedStep | graph.cpp:1365 | removing the id once more from one community only takes out copies of that id |
| Overlap.ProcessOverlap | graph.cpp:1327-1375 | only copies of ids are taken out. When no community lists an id twice, every id of the truth ends in exactly one community |
| Overlap.KeyStep | graph.cpp:1343-1369 | one turn of the key loop keeps the invariant: processed ids are settled and unprocessed ids untouched. The id just processed sits in a community strictly larger than its other original ones |
| Overlap.FlattenValues | graph.cpp:1342-1346 | every id of the partition is below the bound and has values |
| Overlap.SortedRepeat | graph.cpp:1342-1345 | a repeated key follows directly on its earlier copy |
| Overlap.StandingRepeat | graph.cpp:1345-1347 | processing a key a second time changes nothing further |
| Overlap.StandingFresh | graph.cpp:1347-1367 | processing a new key settles it in its largest community and leaves other ids where they were |
| Overlap.RepeatKey | graph.cpp:1345-1367 | a repeated key changes nothing. `comms` is read again from the unchanged map and still lists every original community of the id. But the id's first turn left it only in the community that is strictly the largest of those, so the scan picks that community again and every `removeOne` finds nothing |

## Left out

- Randomness: the `std::mt19937` generator seeded from the clock (graph.cpp:21-27) becomes nondeterministic choice (`:|`). The distributions are not modelled.
- Floating point: RAND, Jaccard, ARI and `calAdRand` are not modelled. Modularity is exact `real` arithmetic, with NaN for `0/0`.
- `n_square = qPow(n,2)` (graph.cpp:1829) goes through a `double`. The model takes it as the exact square, which it is for `n < 2^26`.
- `n_choose_2 = n*(n-1)/2` is computed in `int` at graph.cpp:1798. It only feeds the ARI, so it is not modelled.
- I/O and logging are not modelled: `read_DUMEX_input`, `LARGE_reload`, `LARGE_reload_edges`, `reindexing`, `read_large_ground_truth_communities`, `qDebug`, `QTime`, and main.cpp's driver.
- `LARGE_rerun` run-selection dispatch: not modelled; it only chooses which variant to call.
- GraphModel.Graph.LargeComputeClusterMatching: the edge reload from file and the printed modularity that follow the comparison (graph.cpp:1727-1729) are not modelled. They are file I/O and a print; `ComputeModularity` is modelled on its own.
- GraphModel.Graph.Aggregate: the run's edge removals (`absorb_removeEdge`) and weight updates (`setWeight`, graph.cpp:179-183, 955-960) are not applied to the Vertex objects. The model's `Vertex` has no weight or parent fields, and the run works on a snapshot, whose final state is returned as `g`.
- GraphModel.Graph.Aggregate: after `LARGE_reset`, the edges `LARGE_reload` reads back from file (`LARGE_reload_edges`) are not modelled. The run then starts from the snapshot given, and the graph's own edge list stays empty. The early `return false` of `LARGE_reload` when no input directory is set is not modelled either; the model takes the configured path and marks the graph ready.
- GraphModel.Graph.Aggregate: the final call of a cluster builder is not modelled. The builders are separate methods.
- vertex.cpp is not part of this model. `addEdge`/`addAdj` are taken as appends and `removeEdge`/`removeAdj` as `QList::removeOne`.
  - `absorb_removeEdge` is given only the contract `AbsorbPost`: the loser ends with no edges, only the winner may gain edges, the graph stays symmetric and loop-free, and weights are kept.
  - `absorb_retainEdge` is taken to leave the neighbour lists unchanged.
  - The neighbour selectors (`getMostMutualVertex`, the triangulation helpers) are "any incident edge". In III.a/b/e a helper returning null is modelled as "the candidate has no edges". In III.d the helper may return null whether or not the candidate has edges, since its probabilistic choice is not modelled.
  - `resetClusterRelevant` in `LARGE_reset` is not modelled.
- `boost::connected_components` is a foreign call. Its result is a parameter specified by `IsComponentLabelling` (labels agree exactly when hierarchy pairs connect two ids).
- Vertex objects are indexed by position; the model fixes a vertex's index at construction, since re-indexing is file loading.
- Integer widths: vertex ids, counts and sums are unbounded naturals. The 64-bit wrap-around is written out only in `calB`–`calD`.
  - Pairwise.PairCounts: it promises the meaning of `a`–`d` only when `n` is the number of ids the table counts and `n^2 < 2^64`. Outside that, the source's values are unspecified.
- The class-level fixture graph is not scored through `Graph.ComputeModularity`. The fixture's score is proved on values (`Evaluation.FixtureModularity`), and `GraphModel.NewGraph` proves that the object graph's neighbour lists are those values.
- Overlap.ProcessOverlap: "exactly one community per id" is proved only when no community lists an id twice; with repeats it promises only that copies are removed.

## Findings

| source | as written | input that shows it | evidently intended | confidence | as-written member | corrected member |
|---|---|---|---|---|---|---|
| graph.cpp:1808-1809, 1818-1819 | `int entry = ni[i]; quint64 entry_square = entry*entry;` squares in 32-bit `int`, then widens | a community (row) or cluster (column) total of 46341: 46341² = 2147488281 exceeds `INT_MAX`, and the widened result is 18446744071562072601 | the square computed in 64 bits, so `calB`–`calD` get the true sums of squares | high for the wrap, which is signed overflow in C++; not executed | Pairwise.SquareAsWrittenOverflows | Pairwise.MarginalSums |
| graph.cpp:1554 | the "index > size" report tests `c[j] > myVertexList.size()` | a community listing the id `size` (one past the last vertex) is not reported | `c[j] >= myVertexList.size()` | medium, since the report is only a log line; not executed | Evaluation.ReportMissesLastId | Evaluation.ExcludedIds |
