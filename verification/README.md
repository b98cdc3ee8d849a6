# Verified models of GKlib's algorithms

GKlib is a C library of array-based algorithms with much state updated in place. This project models its most
intricate routines in Dafny, keeping their arrays, loops and branches, and proves what callers rely on. Most
results say that a fast in-place routine computes a simple mathematical object: minimum walk weights, a sorted
permutation, the set of frequent itemsets, the components of a graph, the most recently used lines, a stable
partition of the arguments.

`dafny verify dfyconfig.toml` checks the whole project.

## Structure

| file | what it models |
|---|---|
| `Finite.dfy`, `Sequences.dfy`, `Arrays.dfy`, `Sizes.dfy` | finite sets, sums and bags of sequences, array set-up, overflow-checked sizes |
| `PriorityQueue.dfy` | the indexed heap as a map from nodes to keys |
| `Graphs.dfy` | compressed-row graphs, walks, structure validation |
| `ShortestPaths.dfy` | Dijkstra's algorithm on negated keys |
| `BestFirst.dfy` | best-first ordering, all six types |
| `BestFirstChoices.dfy`, `BestFirstOrders.dfy`, `BestFirstLevels.dfy`, `BestFirstBounds.dfy` | what each type takes next, what the orders are, and up to how many arcs |
| `BreadthFirst.dfy`, `Components.dfy` | BFS ordering and connected components |
| `Csr.dfy`, `Transpose.dfy`, `Picks.dfy`, `GraphTranspose.dfy` | counting-sort transposes |
| `MakeSymmetric.dfy`, `SymmetryCheck.dfy` | multigraph symmetrisation and the METIS symmetry check |
| `QSort.dfy` | the quicksort macro with its stack and sentinel |
| `Select.dfy`, `SimilarRows.dfy` | quickselect and inverted-index search |
| `Itemsets.dfy` | frequent-itemset mining |
| `Cache.dfy` | the set-associative LRU cache simulator |
| `HashTable.dfy`, `Triangles.dfy` | the open-addressing multimap and hash-based triangle counting |
| `Getopt.dfy`, `GetoptRules.dfy` | the permuting option scanner, and what it makes of single arguments |
| `MallocStack.dfy`, `Mcore.dfy`, `MemoryTracker.dfy` | frame-based allocation and the heap tracker |

Where a routine works on arrays, a method does the same and is tied to predicates on the contents of the arrays
(`a[..]`); the lemmas about those predicates carry the argument. `Valid()` of a class is its representation
invariant, kept by every method.

Conventions: integers are unbounded except where the code checks a range; float and double keys, weights and scores
are integers, so that sums are exact; allocations succeed; comparison macros are an arbitrary strict weak order.

Where code and documentation disagree, the model follows the code, and lemmas say exactly when the two agree:

- The frequency limit `maxfreq` of the itemset search filters projected columns, so it applies to single items
  (`Itemsets.FrequentWithinLimits`, `Itemsets.UpperLimitMisses`).
- `maxlen` 0 still reports single items (`Itemsets.LengthLimitHolds`, `Itemsets.LengthZeroReports`).
- Frequencies are occurrences, not transactions, if a transaction lists an item twice
  (`Itemsets.CountsAreSupports`, `Itemsets.RepeatsCount`).
- "Select the median" in `src/fkvkselect.c` holds exactly if the first of the three keys does not lose to both others
  (`Select.PivotIsMedian`, `Select.SmallestPicked`). The partition does not depend on it, so `Select.Split` holds for
  any of the three.
- The depth-first and the breadth-first type of the best-first ordering are what they are called exactly up to 1000
  arcs into a vertex, the factor in their keys (`BestFirstBounds.DepthFirstBound`,
  `BestFirstBounds.BreadthFirstBound`). From 1003 and 1002 on, there are graphs on which every run goes wrong,
  whichever way ties are broken (`BestFirstBounds.DepthFirstFails`, `BestFirstBounds.BreadthFirstFails`).

## Model

| member | source | states |
|---|---|---|
| `PriorityQueue.Create` | include/gk_mkpqueue.h:19-123 | refused exactly for more than PTRDIFF_MAX nodes; otherwise an empty queue |
| `PriorityQueue.PQueue.constructor` | include/gk_mkpqueue.h:88-113 | a new queue is empty: no node has a key, the locator is -1 everywhere |
| `PriorityQueue.PQueue.Insert` | include/gk_mkpqueue.h:190-218 | a node without a key gets one; every other node keeps its key; heap order and the locator as inverse of the heap column are kept (they are part of Valid) |
| `PriorityQueue.PQueue.Delete` | include/gk_mkpqueue.h:224-286 | exactly the given node loses its key, whichever way the replacement has to be sifted |
| `PriorityQueue.PQueue.Update` | include/gk_mkpqueue.h:292-349 | exactly the given node changes its key, to the new one |
| `PriorityQueue.PQueue.GetTop` | include/gk_mkpqueue.h:356-407 | -1 exactly on an empty queue; otherwise a node whose key no other key exceeds is returned and removed, and nothing else changes |
| `PriorityQueue.PQueue.Reset` | include/gk_mkpqueue.h:143-152 | no node has a key afterwards, although only the occupied slots are cleared |
| `PriorityQueue.PQueue.FilterUp` | include/gk_mkpqueue.h:245-256 | sifting up restores heap order without changing the map from nodes to keys |
| `PriorityQueue.PQueue.FilterDown` | include/gk_mkpqueue.h:257-276 | sifting down restores heap order without changing the map from nodes to keys |
| `PriorityQueue.TopIsMax` | include/gk_mkpqueue.h:366-375 | the first slot of an ordered heap holds a maximal key of the whole map |
| `PriorityQueue.FreeSlot` | include/gk_mkpqueue.h:198-200 | a node that is not located leaves room for one more: Insert never runs past the heap array |
| `Graphs.ValidateStructure` | src/graph.c:161-204 | accepts exactly the graphs in compressed-row form (monotone pointers from 0, targets in range) whose arrays have addressable sizes |
| `ShortestPaths.SingleSourceShortestPaths` | src/graph.c:2161-2217 | for non-negative weights: -1 exactly at the vertices no walk reaches, and the minimum weight of a walk everywhere else; no result for an empty graph |
| `ShortestPaths.FindPaths` | src/graph.c:2186-2212 | the same for a graph with vertices; the loop ends because no closed vertex is queued again |
| `ShortestPaths.RelaxArcs` | src/graph.c:2195-2211 | after the loop no arc of the closed vertex is tense, closed distances are unchanged, and every queue key is the negated tentative distance |
| `ShortestPaths.CloseStep` | src/graph.c:2192-2193 | the vertex of largest negated key has its final distance: no queued vertex is nearer |
| `ShortestPaths.WalksAreLonger` | src/graph.c:2192-2212 | any walk weighs at least the value at its end once no arc is tense |
| `ShortestPaths.Finished` | src/graph.c:2192-2212 | an empty queue means that all tentative distances are distances |
| `BestFirst.ComputeBestFOrdering` | src/graph.c:1963-2138 | perm and iperm are inverse bijections for every type and every graph, connected or not; the start comes first and the order is greedy: no vertex that could have been taken had a larger priority under the formula of its type |
| `BestFirst.Step` | src/graph.c:2020-2105 | one turn; the four internal error calls about the vertex taken are unreachable, and so is, through BestFirst.Publish, the fifth, about closed vertices in the type 4 loop; the queue holds exactly the open vertices ot[0..nopen) |
| `BestFirst.Traverse` | src/graph.c:2013-2115 | the main loop, with restarts from ot[0] on disconnected graphs |
| `BestFirst.CloseVertex` | src/graph.c:2025-2040 | moving the last open and the last todo vertex into the holes keeps ot[0..ntodo) and pos inverse and closes only the given vertex |
| `BestFirst.OpenVertex` | src/graph.c:2048-2052 | exchanging with ot[nopen] opens exactly the given vertex |
| `BestFirst.MarkArc` | src/graph.c:2045-2092 | one arc updates degree, weighted degree, level and key of its target as the formula of the type says, and nothing else |
| `BestFirst.VisitArcs` | src/graph.c:2042-2094 | after the loop the bookkeeping of every unclosed vertex is that of the list of arcs that have reached it |
| `BestFirst.Publish` | src/graph.c:2096-2105 | type 4: every open vertex gets its sum of differences, published in the rounds the code publishes in; the error call for a closed vertex in the open list is unreachable |
| `BestFirst.Restart` | src/graph.c:2015-2018 | with no open vertex, ot[0] is unreached, so it may be queued |
| `BestFirst.PopIsGreedy` | src/graph.c:2020-2025 | taking the top of the queue is no worse than taking any other unclosed vertex |
| `BestFirstChoices.DepthFirstChoice` | src/graph.c:2064-2066 | type 1: 1000 times the position of the latest neighbour, plus the number of arcs received, is largest for the vertex taken |
| `BestFirstChoices.PositionChoice` | src/graph.c:2072-2075 | type 3: the root of the sum of the positions from which arcs were received is largest for the vertex taken |
| `BestFirstChoices.PositionChoiceBySquares` | src/graph.c:2072-2075 | so no square lies above its sum and not above that of another vertex |
| `BestFirstChoices.RunningChoice` | src/graph.c:2096-2105 | type 4: the numbers of arcs received, summed over the turns up to the last update, are largest for the vertex taken; updates happen in the first 1000 turns and every 25th one after them |
| `BestFirstChoices.LevelChoice` | src/graph.c:2081-2083 | type 5: the number of arcs received less 1000 times the level is largest for the vertex taken |
| `BestFirstChoices.HybridChoice` | src/graph.c:2086-2087 | type 6: the position of the latest neighbour, counted from one, times the number of arcs received is largest for the vertex taken |
| `BestFirstChoices.Taken` | src/graph.c:2015-2020 | for every type a vertex that an arc has reached is taken before one that none has |
| `BestFirstOrders.MaximumAdjacency` | src/graph.c:2068-2070 | type 2 is a maximum-adjacency ordering: each vertex receives at least as many arcs from the vertices before it as any later vertex does |
| `BestFirstOrders.DepthFirst` | src/graph.c:2064-2066 | type 1 is depth-first as long as the vertices taken have received at most 1000 arcs: the latest neighbour of the vertex taken is no earlier than that of any other candidate |
| `BestFirstOrders.DepthFirstGap` | src/graph.c:2064-2066 | with no such bound: the latest neighbour of the vertex taken lags behind by less than a thousandth of the arcs that this vertex has received |
| `BestFirstOrders.DepthFirstGraph` | src/graph.c:2064-2066 | type 1 is depth-first on every graph in which no vertex has more than 1000 incoming arcs |
| `BestFirstBounds.DepthFirstBound` | src/graph.c:2064-2066 | all greedy orders of type 1 of graphs with at most n arcs into a vertex are depth-first, if and only if n is at most 1000 |
| `BestFirstBounds.DepthFirstMayFail` | src/graph.c:2064-2066 | for every n from 1001 on, a graph with at most n arcs into a vertex and a greedy order of it that is not depth-first |
| `BestFirstBounds.DepthFirstFails` | src/graph.c:2064-2066 | with a > b > 1001 arcs from 0 to 1 and to 2 and one arc from 1 to 3, no order that type 1 can produce from 0 is depth-first, however ties are broken |
| `BestFirstLevels.HopsAscend` | src/graph.c:2081-2083 | type 5 is breadth-first on every graph in which no vertex has more than 1000 incoming arcs: what the start reaches comes first and in non-decreasing hop distance |
| `BestFirstLevels.LevelsAscend` | src/graph.c:2081-2083 | on such graphs the recorded levels never decrease along the order |
| `BestFirstLevels.WithinLevel` | src/graph.c:2048-2056 | a recorded level is the length of some walk from the start, for any number of arcs |
| `BestFirstLevels.LevelAtMost` | src/graph.c:2048-2056 | and on such graphs no walk is shorter: levels are hop distances |
| `BestFirstBounds.BreadthFirstBound` | src/graph.c:2081-2083 | all greedy orders of type 5 of graphs with at most n arcs into a vertex are breadth-first, if and only if n is at most 1000 |
| `BestFirstBounds.BreadthFirstMayFail` | src/graph.c:2081-2083 | for every n from 1001 on, a graph with at most n arcs into a vertex and a greedy order of it that is not breadth-first |
| `BestFirstBounds.BreadthFirstFails` | src/graph.c:2081-2083 | with two arcs from 0 to 1, one from 0 to 2 and more than 1001 from 1 to 3, no order that type 5 can produce from 0 is breadth-first |
| `BestFirstOrders.InverseListsAll` | src/graph.c:2117-2131 | an inverse pair, as the routine returns it, lists every vertex, which is what the consequences ask of an order |
| `BestFirstOrders.ReachableFirst` | src/graph.c:2013-2018 | whatever the type, the vertices reachable from the start precede all others |
| `BestFirstOrders.VisitsCountArcs` | src/graph.c:2059-2060 | the number of visits to a vertex is the number of arcs into it from the vertices before |
| `MakeSymmetric.MakeSymmetric` | src/graph.c:2346-2627 | Overflow exactly if the pointers are in order and the arrays would be too large, or the graph is well-formed and some SUM of partners leaves int32_t; Invalid exactly for malformed pointers, or for targets out of range in a graph that is not too large; otherwise, for every ordered pair (i, j), the new arc list combines the k-th arc i->j with the k-th arc j->i and handles the unpaired rest as the operation says |
| `MakeSymmetric.PartnersCombine` | src/graph.c:2530-2571 | two partners become their sum, the smaller of them, the larger, or half of their sum rounded towards zero |
| `MakeSymmetric.SinglesRemain` | src/graph.c:2511-2588 | except for MIN, an arc without a partner goes both ways in the result, with its weight or, for AVG, half of it rounded towards zero |
| `MakeSymmetric.ListLengths` | src/graph.c:2511-2588 | the result has as many arcs between two vertices as the shorter of the two lists for MIN, and as the longer one otherwise |
| `MakeSymmetric.CheckInput` | src/graph.c:2359-2397 | pointers are checked before sizes and sizes before targets, which decides between Invalid and Overflow |
| `MakeSymmetric.SymmetrizeRows` | src/graph.c:2490-2606 | all rows; marker and last are -1 between rows; overflow is reported exactly when some sum does not fit |
| `MakeSymmetric.SymmetrizeRow` | src/graph.c:2491-2605 | one row of the result |
| `MakeSymmetric.OutArcs` | src/graph.c:2493-2507 | the out-arcs are threaded into one list per target, in row order |
| `MakeSymmetric.InArc` | src/graph.c:2511-2573 | an in-arc meets the first unmatched out-arc to the same vertex, or is appended (dropped for MIN) when there is none |
| `MakeSymmetric.InArcs` | src/graph.c:2509-2574 | after all in-arcs the k-th in-arc from t has met the k-th out-arc to t |
| `MakeSymmetric.ResolveOutArcs` | src/graph.c:2576-2588 | unmatched out-arcs are removed (MIN), halved (AVG) or left alone |
| `MakeSymmetric.ClearMarkers` | src/graph.c:2589-2592 | marker and last are -1 everywhere again |
| `MakeSymmetric.AppendRow` | src/graph.c:2594-2604 | the surviving entries go to the row in order |
| `MakeSymmetric.CombineSymmetric` | src/graph.c:2509-2588 | combining two arc lists does not depend on which of them is the out-list |
| `MakeSymmetric.ColumnIsReverse` | src/graph.c:2425-2443 | the in-arcs of i from j, in column order, are the arcs j->i in row order |
| `SymmetryCheck.SymmetrizedIsReversible` | src/graph.c:2346-2610 | for all four operations the result equals its own reversal as a multiset of weighted arcs |
| `SymmetryCheck.SumDoublesWeight` | src/graph.c:2556-2566 | with SUM the total weight is exactly twice the total weight of the input |
| `SymmetryCheck.ValidateSymmetry` | src/graph.c:1014-1069 | 1 exactly for the loop-free graphs whose multiset of weighted arcs equals its reversal, 0 for the others, and -1 exactly for an even number of arcs whose array cannot be addressed |
| `SymmetryCheck.CheckGroups` | src/graph.c:1045-1065 | the loop over the groups of equal arcs decides exactly that on a sorted array |
| `SymmetryCheck.CollectArcs` | src/graph.c:1033-1042 | the array lists all arcs in storage order |
| `SymmetryCheck.LowerBound` | src/graph.c:979-1002 | the first position whose arc does not come before the key, on any sorted array |
| `SymmetryCheck.RunIsCount` | src/graph.c:1046-1060 | a maximal run in a sorted array is as long as the multiplicity of its arc |
| `SymmetryCheck.EvenSize` | src/graph.c:1021-1023 | a loop-free reversible multiset has even size: the early rejection loses nothing |
| `SymmetryCheck.AcceptsSymmetrized` | src/graph.c:2346-2610 | the check accepts what MakeSymmetric makes of a graph without self-loops |
| `GraphTranspose.TransposeGraph` | src/graph.c:1317-1380 | fails exactly if the structure check does; otherwise the arcs j->i of the input are the arcs i->j of the result, in the same order |
| `GraphTranspose.TwiceReversed` | src/graph.c:1317-1380 | two transpositions change no arc list |
| `GraphTranspose.ReversibleIsTranspose` | src/graph.c:1014-1069 | a graph is reversible exactly when it has the same arcs as its transpose |
| `BreadthFirst.ComputeBFSOrdering` | src/graph.c:1741-1816 | perm and iperm are mutually inverse, the seed comes first, parents never decrease along the order, and vertices with the same parent come in the order of its arcs; an empty graph returns nothing |
| `BreadthFirst.Traverse` | src/graph.c:1769-1795 | the single array stays split into closed, open and todo parts, pos is valid on the todo part and -1 elsewhere, and a restart always finds an unvisited vertex |
| `BreadthFirst.Open` | src/graph.c:1784-1792 | exchanging with the head of the todo part opens exactly the given vertex |
| `BreadthFirst.OpenNeighbours` | src/graph.c:1779-1794 | expanding a vertex opens its unvisited neighbours in adjacency order |
| `BreadthFirst.HopsAscend` | src/graph.c:1769-1795 | a vertex that comes earlier is no farther, in hops, from the seed |
| `BreadthFirst.ReachableFirst` | src/graph.c:1769-1795 | all vertices reachable from the seed come before all others |
| `BreadthFirst.Determined` | src/graph.c:1769-1795 | any two such orders with the same seed agree on everything the seed reaches |
| `Components.FindComponents` | src/graph.c:1637-1719 | -1 exactly when one output is missing or the structure check fails, on malformed or unaddressable arrays, with the outputs untouched; otherwise cptr and cind (or, without them, the count) describe the blocks of a breadth-first order |
| `Components.Traverse` | src/graph.c:1665-1698 | every restart opens a block; the todo list loses no vertex |
| `Components.RemoveKeepsPending` | src/graph.c:1686-1695 | moving the last todo vertex into the hole removes exactly one vertex |
| `Components.BlocksAreComponents` | src/graph.c:1670-1698 | on a symmetric graph two vertices share a block exactly when a path joins them |
| `Components.CountIsComponents` | src/graph.c:1670-1698 | on a symmetric graph the returned count is the number of components |
| `QSort.QSort` | include/gk_mksort.h:118-273 | for any strict weak order and any length below the range of size_t: a sorted permutation |
| `QSort.Partition` | include/gk_mksort.h:152-191 | both unguarded scans stay inside the segment although the pivot moves during swaps; the two parts are separated from each other and from the rest |
| `QSort.QuickPhase` | include/gk_mksort.h:132-220 | the pending segments fit the fixed stack, and when it is empty any two elements more than eight apart are in order |
| `QSort.StackFits` | include/gk_mksort.h:206-218 | since the larger part is pushed, segment k is at most a 2^k-th part of the array: the stack has a slot for it |
| `QSort.PlaceSentinel` | include/gk_mksort.h:234-247 | the smallest of the first nine elements is the smallest of all |
| `QSort.InsertOne` | include/gk_mksort.h:253-269 | the unguarded search stops inside the array after at most eight steps, and the element is inserted where it belongs |
| `QSort.InsertionSort` | include/gk_mksort.h:228-271 | sorts an array in which elements more than eight apart are in order |
| `Csr.MakeCsr` | include/gk_macros.h:74-79 | turns counts into prefix sums, in place |
| `Csr.ShiftCsr` | include/gk_macros.h:81-85 | moves every pointer one place on and starts at 0 |
| `Csr.CreateIndex` | src/csr.c:2905-2943 | dense two-pass and sparse one-pass code both put every entry into the same slot: index first, position second |
| `Csr.Scatter` | src/csr.c:2911-2942 | one run over the entries fills exactly the slots of the rows, the values or both |
| `Csr.SlotOrder` | src/csr.c:2905-2943 | slots are ordered by index and, for one index, by position: the counting sort is stable |
| `Csr.SlotInjective` | src/csr.c:2905-2943 | no two entries share a slot |
| `Transpose.IndexUnique` | src/csr.c:2905-2943 | a matrix has only one index, so the dense and the sparse path give identical arrays |
| `Transpose.ValuesUnique` | src/csr.c:2905-2943 | and identical values |
| `Transpose.IndexIsValid` | src/csr.c:3498-3512 | the other view is again a valid compressed-row matrix |
| `Transpose.PartHoldsRows` | src/csr.c:3498-3512 | part k of the other view lists only rows that have index k |
| `Transpose.PartListsRow` | src/csr.c:3498-3512 | and it lists all of them |
| `Transpose.PartAscends` | src/csr.c:3498-3512 | in ascending row order |
| `Transpose.TwiceSortsRows` | src/csr.c:3466-3514 | transposing twice sorts each row by column, stably |
| `Transpose.TwiceKeepsEntries` | src/csr.c:3466-3514 | transposing twice keeps every entry with its row, column and value |
| `Transpose.PointersReturn` | src/csr.c:3466-3514 | transposing twice restores the row pointers |
| `Transpose.TwiceIsIdentity` | src/csr.c:3466-3514 | on a matrix with sorted rows transposing twice is the identity |
| `Picks.ColumnPicksRow` | src/csr.c:2905-2943 | what column k says of row i is what row i says of column k, in the same order |
| `Itemsets.FindFrequentItemsets` | src/itemsets.c:47-88 | for all transactions: no itemset is reported twice; an itemset is reported exactly if its items, taken in the order of their frequency, stay within the limits (where a tie between items decides that, it may or may not be reported); each report lists the transactions that contain the set, once per occurrence of its last item. If no transaction lists an item twice: every supported itemset is reported exactly once with exactly its transactions, and nothing else |
| `Itemsets.FindBelow` | src/itemsets.c:95-116 | the recursion reports exactly the wanted extensions of the prefix, each once, up to ties; the prefix and the marker are as before |
| `Itemsets.ProjectMatrix` | src/itemsets.c:128-210 | the projected matrix has exactly the admissible columns behind the chosen one, each cut down to the marked rows, sorted by length; the marker is zero again |
| `Itemsets.SelectColumns` | src/itemsets.c:162-172 | the candidates are the columns whose remaining length lies within the frequency limits |
| `Itemsets.FillColumns` | src/itemsets.c:185-196 | the columns of the new matrix are the marked parts of the chosen ones |
| `Itemsets.ProjectionExtends` | src/itemsets.c:128-210 | projecting the extensions of an itemset along one column gives the extensions of the larger itemset |
| `Itemsets.FirstColumnWanted` | src/itemsets.c:95-116 | what is wanted and uses column i first is wanted below it in the projection: no other column is lost |
| `Itemsets.FirstColumnPossible` | src/itemsets.c:95-116 | and what is possible there is possible here, with column i first: nothing is reported twice |
| `Itemsets.ColumnsAreListings` | src/itemsets.c:77-79 | column k of the index lists the transactions in order, once for each occurrence of item k |
| `Itemsets.CompleteIsExact` | src/itemsets.c:47-88 | without repeated items the reports are exactly the supported itemsets with their transactions |
| `Itemsets.OrderIrrelevant` | src/itemsets.c:162-176 | without repeated items it does not matter in which order the columns stand |
| `Itemsets.FrequentIsReportable` | src/itemsets.c:162-176 | without ties in range it is determined whether an itemset is reported, repeated items or not |
| `Itemsets.CountsAreSupports` | src/itemsets.c:162-166 | the counted length of a column is a number of transactions, for all itemsets, exactly if no transaction lists an item twice |
| `Itemsets.RepeatsCount` | src/itemsets.c:162-172 | a transaction that lists an item twice counts twice, against both limits, and even against the default upper limit |
| `Itemsets.FrequentWithinLimits` | src/itemsets.c:162-172 | with a length limit of at least 1, an itemset is supported, so reported, exactly if it is within all limits and each of its items alone is within maxfreq |
| `Itemsets.UpperLimitMisses` | src/itemsets.c:167-167 | a database in which an itemset within maxfreq is not reported, because one item is too frequent |
| `Itemsets.LengthZeroReports` | src/itemsets.c:105-109 | with maxlen 0 single items are still reported |
| `Itemsets.LengthLimitHolds` | src/itemsets.c:105-109 | everything reported is within maxlen exactly if there is no such limit, or it is at least 1, or single items are too short or out of range |
| `Select.Select` | src/fkvkselect.c:20-78 | the first topk of n elements are a choice of topk largest (smallest); the others keep their bag, and the elements behind n are untouched |
| `Select.Split` | src/fkvkselect.c:43-54 | the partition puts nothing smaller than the pivot before it and nothing larger behind it, whichever pivot was chosen |
| `Select.ChoosePivot` | src/fkvkselect.c:31-40 | the pivot is the candidate the comparisons lead to, and a median of the three exactly if the first key is at least one of the others in the order of the routine |
| `Select.PivotIsMedian` | src/fkvkselect.c:31-40 | the same condition for any three candidates |
| `Select.SmallestPicked` | src/fkvkselect.c:31-40 | of the keys 1, 5, 9 the routine for the largest values picks 1 |
| `SimilarRows.GetSimilarRows` | src/csr.c:3876-4017 | returns all touched rows scoring at least minsim or, if there are more than nsim, nsim of the best in decreasing order; the marker array is -1 everywhere again |
| `SimilarRows.Accumulate` | src/csr.c:3902-3915 | one candidate for each touched row, holding its score; the others have none |
| `SimilarRows.AddOne` | src/csr.c:3906-3912 | one occurrence adds to the score of its row only |
| `SimilarRows.Prune` | src/csr.c:3992-3998 | the candidates of sufficient score move to the front in order and the marker is cleared |
| `SimilarRows.ScoreIsDot` | src/csr.c:3902-3915 | if the columns are the index of rows, a score is the sum, over the entries of the row, of the value times the weight that the query gives to its column |
| `SimilarRows.TouchedIsShared` | src/csr.c:3902-3915 | the touched rows are those that share a column with the query |
| `CacheSimulator.Create` | src/cache.c:20-96 | fails exactly when there is no way, the address bits do not fit or some size overflows size_t; a new cache has seen no load |
| `CacheSimulator.Cache.Load` | src/cache.c:139-179 | the line added to the trace is the block of 2^lnbits bytes that holds the address; a hit is counted exactly when that line is in its set, so always when the load before it was in the same block; hits and misses add up to the clock |
| `CacheSimulator.NewestHeld` | src/cache.c:151-172 | the line loaded last is held |
| `CacheSimulator.Cache.Reset` | src/cache.c:103-115 | a reset cache is one that has seen no load |
| `CacheSimulator.Cache.HoldsMostRecent` | src/cache.c:139-179 | after any run of loads a line is in the cache exactly if fewer than nway other lines of its set were used since |
| `CacheSimulator.Cache.GetHitRate` | src/cache.c:186-190 | the share of the loads that found their line held, 0 before any load |
| `CacheSimulator.MoreWaysHoldMore` | src/cache.c:139-179 | with more ways, every line held before is still held |
| `CacheSimulator.MoreWaysHitMore` | src/cache.c:139-179 | with more ways, the same trace never hits less often |
| `CacheSimulator.SetHolds` | src/cache.c:151-172 | a set in order holds exactly its nway most recently used lines |
| `CacheSimulator.MissStep` | src/cache.c:159-175 | replacing the empty or least recently used slot keeps the set in order |
| `HashTable.Hash` | src/htable.c:447-457 | the hash slot lies in the table, for negative keys too |
| `HashTable.HashIs` | src/htable.c:447-457 | the slot is the remainder of the key, or of the key plus 2^32 if it is negative |
| `HashTable.HTable.constructor` | src/htable.c:125-166 | a new table holds no pair |
| `HashTable.HTable.Reset` | src/htable.c:172-187 | no pair is left, the capacity stays |
| `HashTable.HTable.InsertInto` | src/htable.c:29-56 | adds exactly one pair and keeps every key reachable from its hash slot; fails exactly on a full table |
| `HashTable.HTable.Resize` | src/htable.c:62-119 | keeps the multiset of pairs; refused exactly if the pairs would not fit |
| `HashTable.HTable.Insert` | src/htable.c:209-248 | adds exactly the pair; refused exactly for the two reserved keys, or when doubling would leave int; the full-table error is unreachable; the capacity doubles exactly when the table was more than half full |
| `HashTable.HTable.Delete` | src/htable.c:254-289 | removes the pair a probe meets first, and nothing if there is none |
| `HashTable.HTable.Search` | src/htable.c:295-329 | the value of the pair that Delete would remove, or -1; stopping at an empty slot loses nothing |
| `HashTable.HTable.SearchAndDelete` | src/htable.c:387-428 | removes and returns that pair; a missing key is an error exactly if some slot is empty |
| `HashTable.FindFinds` | src/htable.c:295-329 | a key is found exactly if some pair of the multimap has it |
| `HashTable.StopAtEmpty` | src/htable.c:314-316 | an empty slot on the probe sequence proves that the key is absent |
| `Triangles.CountTriangles` | apps/gkgraph.c:447-576 | for any vertex order, the number of triples i < j < k joined by arcs j->i, i->k and j->k; fails exactly if the table would exceed 2^31 slots or the count would leave int64_t; every row keeps its neighbours, the upper part reversed |
| `Triangles.MutualTriangles` | apps/gkgraph.c:505-551 | on a symmetric graph these are the triples of mutually adjacent vertices |
| `Triangles.FlipRow` | apps/gkgraph.c:473-480 | reverses exactly the part of the row from the first neighbour that is not below the vertex |
| `Triangles.FlipUpper` | apps/gkgraph.c:472-481 | every row keeps its neighbours: the lower ones ascending, the others descending |
| `Triangles.TableSize` | apps/gkgraph.c:483-497 | a power of two of at least sixteen times the largest upper degree, or failure exactly if 2^31 is too small |
| `Triangles.Probe` | apps/gkgraph.c:521-523 | every wrap-around probe ends, at the first slot that meets its goal |
| `Triangles.HashRow` | apps/gkgraph.c:515-525 | the table holds exactly the upper neighbours, each once |
| `Triangles.ResetHash` | apps/gkgraph.c:553-563 | the table is all zero again |
| `Triangles.CountThird` | apps/gkgraph.c:534-550 | adds the number of third vertices, though the scan stops at the first neighbour that is not above vj |
| `Triangles.CountMiddle` | apps/gkgraph.c:512-563 | adds the number of triangles with the given middle vertex |
| `Triangles.LookupTells` | apps/gkgraph.c:537-542 | a probe that stops at an empty slot or at the number tells whether the number is in the table |
| `Getopt.Scanner.Exchange` | src/getopt.c:189-236 | exactly a rotation of the skipped non-options and the options behind them |
| `Getopt.Scanner.Next` | src/getopt.c:330-709 | each call reports the next event of a parser that permutes nothing; -1 leaves argv a stable partition |
| `Getopt.Scanner.Advance` | src/getopt.c:356-426 | skips, exchanges and ends as above; moving gk_optind back is never needed within a scan |
| `Getopt.Scanner.PassNonOptions` | src/getopt.c:366-382 | non-options are collected behind all options found so far |
| `Getopt.Scanner.EndMark` | src/getopt.c:384-410 | "--" moves before the skipped non-options and ends the scan |
| `Getopt.Scanner.Decode` | src/getopt.c:549-708 | one option character, with the argument that belongs to it |
| `Getopt.ScanAll` | src/getopt.c:356-426 | a complete scan reports exactly the events of the parser and leaves argv as its options with their arguments followed by its non-options, with gk_optind at the first non-option |
| `Getopt.ParseIsStable` | src/getopt.c:384-426 | the parser splits the arguments into two lists without reordering either |
| `GetoptRules.KindIs` | src/getopt.c:552-559 | the first occurrence of a character in optstring and the colons behind it decide whether it is an option without, with or with an optional argument; a colon or a character that is not there is none |
| `GetoptRules.PutAside` | src/getopt.c:366-382 | an argument that is shorter than two characters or does not begin with a dash is put aside |
| `GetoptRules.EndOfOptions` | src/getopt.c:384-398 | nothing behind "--" is looked at |
| `GetoptRules.PlainOption` | src/getopt.c:672-708 | an option without a colon takes no argument |
| `GetoptRules.UnknownOption` | src/getopt.c:558-570 | a character that is not listed is reported and skipped |
| `GetoptRules.SeparateArgument` | src/getopt.c:684-704 | an option with one colon takes the next argument, whatever it is |
| `GetoptRules.MissingArgument` | src/getopt.c:691-700 | which is missing at the end of the arguments |
| `GetoptRules.NoSeparateArgument` | src/getopt.c:673-682 | an option with two colons never takes the next argument |
| `GetoptRules.AttachedArgument` | src/getopt.c:673-690 | with one or two colons it takes the rest of its element |
| `GetoptRules.SharedElement` | src/getopt.c:550-557 | options without arguments in one element are reported as if each had its own |
| `GetoptRules.MissingIsTold` | src/getopt.c:696-700 | a missing argument is told from an unknown option exactly if optstring begins with a colon |
| `Getopt.BottomIsShort` | src/getopt.c:202-216 | exchanging a short lower block with the top leaves the same rotation to be done |
| `Getopt.TopIsShort` | src/getopt.c:217-229 | so does exchanging a short upper block with the bottom |
| `MallocStack.FrameRestored` | src/mcore.c:255-375 | Push, any balanced sequence of allocations, deletions, reallocations and frames, Pop: the records are what they were |
| `MallocStack.ApplyAbove` | src/mcore.c:335-375 | no operation reaches below a mark that is not popped |
| `MallocStack.TileCore` | src/mcore.c:282-288 | a new core block extends the tiling of the core at a multiple of 8 |
| `MallocStack.TileWithout` | src/mcore.c:465-489 | moving the last record into the hole keeps the tiling, though it reorders the blocks |
| `MallocStack.TilePopped` | src/mcore.c:335-375 | popping a frame never tears a block apart |
| `Mcore.MCore.constructor` | src/mcore.c:106-149 | a new workspace has no record |
| `Mcore.MCore.Malloc` | src/mcore.c:255-304 | aligned requests that leave at least one byte of the core are served from it at corecpos, others from the heap; NULL exactly on overflow; one record is added, and corecpos and the statistics move accordingly |
| `Mcore.MCore.CanAddIs` | src/mcore.c:22-38 | a request is refused exactly if it exceeds PTRDIFF_MAX or would take a statistic out of size_t |
| `Mcore.MCore.CanReallocIs` | src/memory.c:94-104 | so is a change of size; shrinking never overflows the current count |
| `Mcore.MCore.Push` | src/mcore.c:312-316 | adds a mark, unless the records cannot grow |
| `Mcore.MCore.Pop` | src/mcore.c:335-375 | leaves the records below the frame, gives back exactly its heap blocks, and the over-free error is unreachable; the counters stay the sums over the records |
| `Mcore.MCore.Del` | src/mcore.c:465-489 | gives up the record of a heap block of the active frame, or changes nothing |
| `Mcore.MCore.EnsureCapacity` | src/mcore.c:41-68 | room for one more record, the old ones kept, or failure exactly on overflow |
| `Mcore.MCore.AddReserved` | src/mcore.c:71-99 | one more record and the statistics that go with it |
| `Mcore.MCore.FindRecord` | src/memory.c:23-39 | the topmost record of the pointer in the active frame |
| `Mcore.MCore.UpdateRealloc` | src/memory.c:59-72 | one record changes its pointer and size, the statistics count the request, and the maximum never falls; nothing else moves |
| `MemoryTracker.Tracker.Init` | src/memory.c:288-302 | opens a frame, creating the tracker if there is none; fails exactly if a tracker is there and its records cannot grow |
| `MemoryTracker.Tracker.Cleanup` | src/memory.c:310-319 | frees exactly the blocks of the innermost frame and drops an empty tracker |
| `MemoryTracker.Tracker.Malloc` | src/memory.c:331-362 | records a new block in the innermost frame and counts it; NULL exactly on overflow |
| `MemoryTracker.Tracker.Free` | src/memory.c:464-488 | frees a block of the innermost frame; any other is refused while a frame is open |
| `MemoryTracker.Tracker.Realloc` | src/memory.c:390-438 | moves a block of the innermost frame, or allocates one for NULL, and counts the request; NULL exactly if a frame is open and the block is not in it, or the counters or records cannot take the new size |
| `MemoryTracker.LedgerHolds` | src/memory.c:310-319 | over any run the record stack, in which deletions reorder frames, is a stack of sets of live blocks |
| `MemoryTracker.TopIsFrame` | src/memory.c:310-319 | the records that cleanup frees are the topmost set |
| `Sizes.SizeAdd` | src/memory_internal.h:16-25 | reports exactly whether a sum is representable |
| `Sizes.SizeMul` | src/memory_internal.h:28-37 | reports exactly whether a product is representable, by division |

## Left out

- Floating-point weights, keys and scores: modelled as integers; the float branches of the routines are not repeated.
- Integer overflow that the code does not check, such as long path weights or best-first keys.
- Graphs without weights in `MakeSymmetric`, `ValidateSymmetry` and the transpose: they differ from weighted ones only in dropping the weight arrays, or in using weight 0 everywhere.
- Failing allocations and the clean-up paths behind them, signals, `errno` values and error messages.
- `SymmetryCheck.SortArcs`: the C library's `qsort` is replaced by the library's own verified quicksort; any sorting routine would do.
- `Itemsets.SortPrefix` and `SimilarRows.SortDown`: they sort a copy of the prefix and copy it back instead of sorting part of the array.
- `ComputeBestFOrdering` takes the truncated square root of type 3 as a function parameter: no property of it is needed.
- `MakeSymmetric.MakeSymmetric`: the rejection of an unknown operation and of graphs with both kinds of weights; the operation is one of four. Missing arrays and the size checks of float weights are not modelled either.
- `Graphs.ValidateStructure`: a missing graph or array is not modelled, nor the size check of float weights, which is the same as that of the targets.
- `gk_csr_MakeSymmetric` and `gk_csr_FindConnectedComponents`, which mirror the routines for graphs.
- The heap's `CheckHeap`, `Length`, `SeeTopVal`, `SeeTopKey` and `SeeKey`; the checks are off by default and the others only read.
- `SimilarRows.GetSimilarRows`: only the dot product and the cosine, which accumulate in the same way; the Jaccard and minimum measures rescale the accumulated scores in floating point.
- `GraphTranspose.TransposeGraph`: the copied vertex attributes.
- `Itemsets.FindFrequentItemsets`: an empty list of transactions or one without any item, for which the code reads `tranind[0]`; which of several equally long columns comes first, since any order of them is a sorted one.
- `Getopt.Scanner.Next`: only the PERMUTE ordering and short options; long options, `-W`, REQUIRE_ORDER and RETURN_IN_ORDER are not modelled, nor is a caller that changes `gk_optind` or the arguments during a scan.
- `Getopt.Scanner.Advance`: only the PERMUTE ordering.
- `Getopt.Scanner.Decode`: not `-W` followed by a long option.
- `HTable_GetNext`, which keeps its cursor in a static variable.
- `Triangles.CountTriangles`: the cache simulator that watches the routine has no influence on the count and is modelled on its own; the hit rate that is returned is not, nor that the cache cannot be created.
- Records that `gk_mcoreAdd` adds directly, and the tracking of the record array itself by the heap tracker.
- `Mcore.MCore.Malloc` and the tracker's methods take the address the system answers with as a parameter; it must not belong to a block with a record, or, for the tracker, to one that is still allocated.
- Readers, writers, command lines, PageRank, normalisation, random permutations, BLAS-like templates, base-64 and tokenizing.
