# Elimination-order decomposition problems, modelled in Dafny

This project models the core of the ant-colony tree-width solver in
`acotreewidth/decomp.h`. A candidate solution is an elimination order: a
sequence of the graph's vertices. Eliminating a vertex joins all of its
neighbours pairwise (fill-in) and then detaches it. The width of an order is
read off the neighbour counts the vertices have just before they are
eliminated:

- **Tree decompositions** take the largest such count. The scan stops early once
  the vertices left cannot beat the running maximum.
- **Hypertree decompositions** take the largest number of hyperedges that the
  greedy set cover needs for a bag. A bag is an eliminated vertex together
  with its neighbours.

Around the width computation, the model also covers:

- the per-tour bookkeeping an ant uses while building an order: the
  elimination graph, the visited map and the eliminated count;
- the random perturbation of a solution;
- the max-clique neighbourhood of the local search.

Modules, in dependency order:

- `Graphs` (`graphs.dfy`): graphs as adjacency sets, `EliminationGraph::eliminate`, and the elimination of a prefix of an order.
- `Maxima` (`maxima.dfy`): running maxima of a sequence of counts and the positions that attain them.
- `Scan` (`scan.dfy`): the width profile of an order, and `get_max_clique_positions` with its early exit. It is proved equal to the unpruned reference on the prefix it scans. On elimination orders it is proved equal on the whole order.
- `Neighbourhoods` (`neighbourhood.dfy`): `MaxCliqueNeighbourhood`.
- `Decomp` (`decomp.dfy`): the `DecompProblem` session and `perturbate`.
- `Cover` (`cover.dfy`): `compute_greedy_hyperedge_covering`. It is given both as written and with the tally fix described under Findings.
- `TreeDecomp` (`treedecomp.dfy`): `TreeDecompProblem::compute_width`.
- `HyperTreeDecomp` (`hypertreedecomp.dfy`): `HyperTreeDecompProblem::compute_width` and its `get_feasible_neighbours`.

Representation choices:

- A graph on `n` vertices is `seq<set<nat>>`. `g[u]` holds the neighbours of `u`, and `Valid` asks for symmetry, no self-loops and neighbours below `n`.
- A hypergraph is the list of its hyperedges' vertex sets.
- Vertex lists the source builds without repeats (neighbourhoods, the vertices to cover) are sets.
- Unsigned counters are unbounded naturals. The subtractions `size() - i` happen only for `i < size()`, so they never wrap.

The early exit of the scans is exact on elimination orders, that is, permutations of the vertices. The proof (`Scan.CutoffExact`) rests on position `i` of such an order seeing at most `n - 1 - i` neighbours. On a partial order that bound fails. There the pruned scan is proved to return the maximum over the prefix it scans, and nothing more is claimed.

Two behaviours of the code are easy to miss, and the model follows the code in both:

- The greedy cover keeps its tallies across rounds (see Findings). `compute_width` and `get_feasible_neighbours` of the hypertree problem use that cover as written. The corrected cover, with tallies reset every round, is modelled next to it.
- A second `next_neighbour_solution` without `set_solution` swaps again. It recomputes the max-clique positions of the unchanged solution and applies the swap to the already-swapped neighbour. `Neighbourhoods.NextNeighbourSolution` models that, and its contract holds for repeated calls too.

## Model

| member | source | states |
|---|---|---|
| Graphs.Eliminate | trunk/acotreewidth/trunk/include/acotreewidth/decomp.h:19-29 | Elimination keeps the graph valid and isolates the vertex. Every two distinct neighbours of the vertex become adjacent. Every edge away from the vertex survives. Every edge of the result is either old or a fill-in edge between two former neighbours. |
| Graphs.Eliminated | trunk/acotreewidth/trunk/include/acotreewidth/decomp.h:47-59 | Eliminating a prefix left to right keeps the graph valid and leaves every eliminated vertex without neighbours. |
| Graphs.EliminatedPrefix | trunk/acotreewidth/trunk/include/acotreewidth/decomp.h:47-59 | The elimination graph after `k` steps depends only on the first `k` vertices of the order. |
| Graphs.LiveNeighbours | trunk/acotreewidth/trunk/include/acotreewidth/decomp.h:48-49 | The vertex at position `k` has no neighbour that is itself or an already eliminated vertex. |
| Graphs.LiveNeighbourBound | trunk/acotreewidth/trunk/include/acotreewidth/decomp.h:48-49 | In a repeat-free order, the vertex at position `k` has at most `n - 1 - k` neighbours when its turn comes. |
| Graphs.NeighbourBound | trunk/acotreewidth/trunk/include/acotreewidth/decomp.h:49 | No vertex of a valid graph has more than `n - 1` neighbours. |
| Maxima.MaxOf | trunk/acotreewidth/trunk/include/acotreewidth/decomp.h:45-57 | The running maximum bounds every entry seen, is attained by one of them, and is 0 before any entry. |
| Maxima.PositionsOf | trunk/acotreewidth/trunk/include/acotreewidth/decomp.h:51-56 | Lists the positions holding a given count: strictly increasing, in range, and complete. |
| Maxima.MaxPositionsNonEmpty | trunk/acotreewidth/trunk/include/acotreewidth/decomp.h:51-56 | A non-empty prefix has at least one position attaining its maximum. |
| Maxima.MaxStep | trunk/acotreewidth/trunk/include/acotreewidth/decomp.h:51-57 | One more entry updates the maximum and its positions as the loop does. A tie appends the position. A larger entry restarts the list with it. A smaller entry changes nothing. |
| Scan.Profile | trunk/acotreewidth/trunk/include/acotreewidth/decomp.h:48-49 | Entry `i` is the neighbour count of `order[i]` in the graph with the first `i` vertices eliminated. |
| Scan.ProfileBound | trunk/acotreewidth/trunk/include/acotreewidth/decomp.h:60-62 | On a repeat-free order, entry `i` is at most `n - 1 - i`. This is the bound that makes the early exit exact. |
| Scan.ProfileBelowVertexCount | trunk/acotreewidth/trunk/include/acotreewidth/decomp.h:48-49 | Every entry is below the number of vertices. |
| Scan.Cutoff | trunk/acotreewidth/trunk/include/acotreewidth/decomp.h:60-62 | The number of positions the pruned scan processes. No earlier position triggers the exit, and the last one does unless the order is exhausted. |
| Scan.CutoffUnique | trunk/acotreewidth/trunk/include/acotreewidth/decomp.h:60-62 | Any prefix length with no earlier exit that either exits or ends the order is the cutoff. |
| Scan.LowTail | trunk/acotreewidth/trunk/include/acotreewidth/decomp.h:51-57 | Entries strictly below the running maximum change neither the maximum nor its positions. |
| Scan.ScanStep | trunk/acotreewidth/trunk/include/acotreewidth/decomp.h:49-59 | One iteration reads the count of `order[i]` before eliminating it and leaves the graph with that vertex eliminated; its effect on maximum and positions is stated by `Scan.ScanStepCorrect`. |
| Scan.CutoffExact | trunk/acotreewidth/trunk/include/acotreewidth/decomp.h:60-62 | Under the elimination-order bound, the maximum and max positions over the scanned prefix equal those over the whole order. |
| Scan.ScanStepCorrect | trunk/acotreewidth/trunk/include/acotreewidth/decomp.h:49-59 | One loop iteration advances the reference state (graph, maximum, positions) from `i` to `i + 1` positions. |
| Scan.ScanFrom | trunk/acotreewidth/trunk/include/acotreewidth/decomp.h:48-63 | The loop from position `i` with its early exit; what it returns is stated by `Scan.ScanFromCorrect`. |
| Scan.ScanFromCorrect | trunk/acotreewidth/trunk/include/acotreewidth/decomp.h:48-63 | The loop with its early exit, from any correct state, returns the reference max positions up to the cutoff. |
| Scan.ScanCorrect | trunk/acotreewidth/trunk/include/acotreewidth/decomp.h:44-65 | From the initial state the loop returns the reference max positions of the scanned prefix. |
| Scan.ScanAnswer | trunk/acotreewidth/trunk/include/acotreewidth/decomp.h:44-65 | The reference answer is non-empty for a non-empty order and lies inside the scanned prefix at the maximum count. On elimination orders it is the answer for the whole order. |
| Scan.GetMaxCliquePositions | trunk/acotreewidth/trunk/include/acotreewidth/decomp.h:44-65 | The positions are non-empty for a non-empty order, strictly increasing and inside the scanned prefix. All share the maximum pre-elimination count. They are exactly the maximum's positions, over the whole order when it is an elimination order. |
| Neighbourhoods.Swap | trunk/acotreewidth/trunk/include/acotreewidth/decomp.h:108-110 | The two positions exchange entries and every other entry is unchanged. |
| Neighbourhoods.SwapPermutes | trunk/acotreewidth/trunk/include/acotreewidth/decomp.h:108-110 | A swap preserves the multiset of entries. |
| Neighbourhoods.SwapKeepsPermutation | trunk/acotreewidth/trunk/include/acotreewidth/decomp.h:108-110 | A swap maps an elimination order to an elimination order. |
| Neighbourhoods.NewNeighbourhood | trunk/acotreewidth/trunk/include/acotreewidth/decomp.h:74-79 | The constructor keeps the graph and the solution, starts the neighbour at the solution, and offers a neighbour. |
| Neighbourhoods.SetSolution | trunk/acotreewidth/trunk/include/acotreewidth/decomp.h:85-89 | Installing a solution keeps the graph, resets the neighbour to the solution and offers a neighbour again. |
| Neighbourhoods.NextNeighbourSolution | trunk/acotreewidth/trunk/include/acotreewidth/decomp.h:99-113 | Swaps two distinct positions of the neighbour, one of them a max-clique position of the solution at the maximum count. Everything else is unchanged. The neighbour stays a rearrangement of the solution and an elimination order stays one. The graph and solution are unchanged, and no further neighbour is offered. |
| Neighbourhoods.GetSolutionAfterSet | trunk/acotreewidth/trunk/include/acotreewidth/decomp.h:85-113 | After `set_solution`, `get_solution` returns the installed solution, both before and after a neighbour is taken. A neighbour is offered before and not after. |
| Neighbourhoods.FirstNeighbourDiffersInTwo | trunk/acotreewidth/trunk/include/acotreewidth/decomp.h:99-112 | The first neighbour of an elimination-order solution differs from it at exactly the two swapped positions. |
| Decomp.NewSession | trunk/acotreewidth/trunk/include/acotreewidth/decomp.h:125-131 | The elimination graph starts as the graph, with no vertex eliminated or visited. |
| Decomp.AddedVertexToTour | trunk/acotreewidth/trunk/include/acotreewidth/decomp.h:173-178 | Adding a vertex eliminates it, counts it and marks it visited. Every other vertex keeps its visited status. |
| Decomp.Cleanup | trunk/acotreewidth/trunk/include/acotreewidth/decomp.h:208-212 | Cleanup restores the elimination graph to the graph, zeroes the count and unmarks every vertex. |
| Decomp.FeasibleNeighbours | trunk/acotreewidth/trunk/include/acotreewidth/decomp.h:154-162 | The offered vertices are exactly the unvisited vertices of the graph. |
| Decomp.NewSessionConsistent | trunk/acotreewidth/trunk/include/acotreewidth/decomp.h:125-131 | A new session is in step with the empty tour. |
| Decomp.CleanupConsistent | trunk/acotreewidth/trunk/include/acotreewidth/decomp.h:208-212 | After cleanup, any session is in step with the empty tour. |
| Decomp.AddedVertexConsistent | trunk/acotreewidth/trunk/include/acotreewidth/decomp.h:173-178 | Adding a vertex to a session in step with a tour keeps it in step with the extended tour. In step means: elimination graph = graph with the tour eliminated, count = tour length, visited = on the tour. |
| Decomp.FeasibleAreOffTour | trunk/acotreewidth/trunk/include/acotreewidth/decomp.h:154-162 | In step with a tour, the offered vertices are the graph's vertices minus the tour's. |
| Decomp.FeasibleKeepsDistinct | trunk/acotreewidth/trunk/include/acotreewidth/decomp.h:154-178 | Extending a repeat-free tour with an offered vertex keeps it repeat-free. |
| Decomp.IsTourComplete | trunk/acotreewidth/trunk/include/acotreewidth/decomp.h:180-182 | A tour is complete when it has as many entries as the graph has vertices; `Decomp.CompleteIffNoFeasible` relates this to the offered vertices. |
| Decomp.CompleteIffNoFeasible | trunk/acotreewidth/trunk/include/acotreewidth/decomp.h:180-182 | For a repeat-free tour in step with the session, the tour is complete exactly when no vertex is offered. |
| Decomp.TouchedOnly | trunk/acotreewidth/trunk/include/acotreewidth/decomp.h:191-196 | A position counts as touched only if it is the max-clique position or the drawn position of some swap. |
| Decomp.Swaps | trunk/acotreewidth/trunk/include/acotreewidth/decomp.h:191-196 | The reference chain: the first `i` swaps of position `ps[t]` with position `ds[t]`, applied in increasing `t`; its length is that of the solution. |
| Decomp.SwapsPermute | trunk/acotreewidth/trunk/include/acotreewidth/decomp.h:191-196 | The chain of swaps keeps the multiset of entries. |
| Decomp.SwapsFrame | trunk/acotreewidth/trunk/include/acotreewidth/decomp.h:191-196 | A position that no swap of the chain names keeps its entry. |
| Decomp.SwapsKeepPermutation | trunk/acotreewidth/trunk/include/acotreewidth/decomp.h:191-196 | The chain of swaps maps an elimination order to an elimination order. |
| Decomp.ApplySwaps | trunk/acotreewidth/trunk/include/acotreewidth/decomp.h:191-196 | The loop leaves exactly the reference chain of all swaps applied in order. |
| Decomp.SwapChain | trunk/acotreewidth/trunk/include/acotreewidth/decomp.h:191-196 | The result is the reference chain of all swaps applied in order. It keeps length and multiset, keeps an elimination order one, and leaves every position that no swap touches unchanged. |
| Decomp.Perturbate | trunk/acotreewidth/trunk/include/acotreewidth/decomp.h:188-198 | The perturbed solution is the reference chain that swaps the `t`-th max-clique position of the solution with the `t`-th drawn position, for every `t` in order. It keeps length and multiset and stays an elimination order. Only max-clique positions and drawn positions can change. |
| Cover.Tally | trunk/acotreewidth/trunk/include/acotreewidth/decomp.h:272-278 | A round adds to each hyperedge's tally the number of uncovered vertices it holds. |
| Cover.FirstMaxFrom | trunk/acotreewidth/trunk/include/acotreewidth/decomp.h:283-288 | The ascending scan that replaces its pick only on a strictly larger tally returns, when some tally is positive, a positive maximal tally that every smaller index falls strictly below, so ties go to the smallest index. |
| Cover.MaxEdge | trunk/acotreewidth/trunk/include/acotreewidth/decomp.h:281-288 | The selection returns the smallest hyperedge with the largest tally, and that tally is positive. |
| Cover.Pick | trunk/acotreewidth/trunk/include/acotreewidth/decomp.h:272-288 | The hyperedge a round chooses has a positive, maximal tally after counting and beats every smaller index strictly. |
| Cover.IdleRound | trunk/acotreewidth/trunk/include/acotreewidth/decomp.h:270-300 | A round that covers nothing happens only with accumulated tallies, and it lowers the termination measure. |
| Cover.RoundProgress | trunk/acotreewidth/trunk/include/acotreewidth/decomp.h:271-300 | Every round leaves a coverable set and either shrinks it or lowers the termination measure, so the loop terminates. |
| Cover.GreedyCover | trunk/acotreewidth/trunk/include/acotreewidth/decomp.h:271-302 | The loop returns hyperedges of the hypergraph whose union holds every vertex to cover. The result is empty exactly when there is nothing to cover. |
| Cover.AccumulatedBound | trunk/acotreewidth/trunk/include/acotreewidth/decomp.h:270-302 | With accumulated tallies, the rounds still to come plus those done never exceed the vertices covered so far plus those left: a round that covers nothing is paid for by an earlier round that covered several vertices. |
| Cover.AccumulatedRound | trunk/acotreewidth/trunk/include/acotreewidth/decomp.h:272-300 | One accumulating round keeps that invariant: no tally exceeds the vertices covered so far, every hyperedge still meeting an uncovered vertex has a tally of at least the number of rounds, and the rounds never outnumber the covered vertices. |
| Cover.ComputeGreedyHyperedgeCovering | trunk/acotreewidth/trunk/include/acotreewidth/decomp.h:268-303 | As written, with accumulated tallies: a valid cover of every coverable vertex set, empty exactly for the empty set, and never longer than the set has vertices even though a hyperedge can repeat. |
| Cover.GreedyUnfold | trunk/acotreewidth/trunk/include/acotreewidth/decomp.h:271-300 | One round: the chosen hyperedge followed by the cover of what it leaves, from the updated tallies. |
| Cover.FreshRoundsCover | trunk/acotreewidth/trunk/include/acotreewidth/decomp.h:268-303 | With tallies reset every round, every chosen hyperedge meets the vertices to cover, none is chosen twice, and there are no more than there are vertices. |
| Cover.FreshGreedyHyperedgeCovering | trunk/acotreewidth/trunk/include/acotreewidth/decomp.h:268-303 | The corrected cover is a valid cover, empty exactly for the empty set. Every hyperedge in it meets the set, none repeats, and it has at most as many hyperedges as vertices. |
| Cover.CoverWith | trunk/acotreewidth/trunk/include/acotreewidth/decomp.h:268-303 | Under either tally policy the cover is made of hyperedges of the hypergraph, covers the set, is empty exactly for the empty set and has at most as many hyperedges as the set has vertices. |
| Cover.PickOfTwo | trunk/acotreewidth/trunk/include/acotreewidth/decomp.h:283-288 | With two hyperedges, the second is chosen exactly when its tally is strictly larger, so ties go to the lower index. |
| Cover.AccumulatedTallyRepeatsEdge | trunk/acotreewidth/trunk/include/acotreewidth/decomp.h:270 | As written, covering {0, 1, 2, 3} with hyperedges {0, 1, 2} and {2, 3} yields [0, 0, 1]: hyperedge 0 is chosen twice. |
| Cover.FreshTallyExample | trunk/acotreewidth/trunk/include/acotreewidth/decomp.h:268-303 | With per-round tallies, the same input is covered by [0, 1]. |
| TreeDecomp.PrunedMax | trunk/acotreewidth/trunk/include/acotreewidth/decomp.h:223-236 | The loop with its early exit returns the maximum pre-elimination count over exactly the prefix the exit allows. |
| TreeDecomp.ComputeWidth | trunk/acotreewidth/trunk/include/acotreewidth/decomp.h:222-237 | The width is the maximum count over the scanned prefix, and over the whole order for elimination orders. It equals the count at every max-clique position. It is 0 for the empty order and at most `n - 1` otherwise. |
| TreeDecomp.WidthFacts | trunk/acotreewidth/trunk/include/acotreewidth/decomp.h:222-237 | The scanned-prefix maximum is the count at every max-clique position and is 0 for the empty order. It is the whole-order maximum on elimination orders and at most `n - 1`. |
| TreeDecomp.Cycle5Width | trunk/acotreewidth/trunk/include/acotreewidth/decomp.h:222-237 | On the 5-cycle with order 0, 1, 2, 3, 4 the counts are 2, 2, 2, 1: the scan exits after four positions, the width is 2, and the tied positions 0, 1 and 2 are all reported. |
| TreeDecomp.Complete4Width | trunk/acotreewidth/trunk/include/acotreewidth/decomp.h:222-237 | On the complete graph on four vertices the first count is 3 and the second 2: the scan exits after two positions with width 3, reported at position 0 only. |
| TreeDecomp.Path4Width | trunk/acotreewidth/trunk/include/acotreewidth/decomp.h:222-237 | On the path 0-1-2-3 eliminated from one end the counts are 1, 1, 1, 0: the scan runs to the end, the width is 1, and positions 0, 1 and 2 are reported. |
| HyperTreeDecomp.Bag | trunk/acotreewidth/trunk/include/acotreewidth/decomp.h:256-257 | The bag of a position holds the vertex and lies within the graph's vertices. Its size is the position's neighbour count plus one. |
| HyperTreeDecomp.BagCovers | trunk/acotreewidth/trunk/include/acotreewidth/decomp.h:255-259 | One cover size per position: the greedy cover of that position's bag under the given tally policy. |
| HyperTreeDecomp.BagCoverBounds | trunk/acotreewidth/trunk/include/acotreewidth/decomp.h:255-259 | Under either tally policy, each bag needs at least one hyperedge and at most one more than the position's neighbour count. |
| HyperTreeDecomp.LargestBagCover | trunk/acotreewidth/trunk/include/acotreewidth/decomp.h:253-265 | The loop returns the largest as-written bag cover over the whole order; there is no early exit. |
| HyperTreeDecomp.EliminationStep | trunk/acotreewidth/trunk/include/acotreewidth/decomp.h:256-263 | One iteration advances the elimination graph and the running maximum by one position. |
| HyperTreeDecomp.BagCoverAt | trunk/acotreewidth/trunk/include/acotreewidth/decomp.h:256-259 | The cover size read off the elimination graph reached at position `i` (neighbours of `tour[i]` plus itself) is the as-written bag cover of that position. |
| HyperTreeDecomp.ComputeWidth | trunk/acotreewidth/trunk/include/acotreewidth/decomp.h:252-266 | The width is the largest bag cover over the whole order, with the cover as written (accumulated tallies). It is 0 for the empty order, and otherwise between 1 and the largest neighbour count plus one. |
| HyperTreeDecomp.HyperWidthBounds | trunk/acotreewidth/trunk/include/acotreewidth/decomp.h:252-266 | Under either tally policy, for a non-empty order, the hypertree width lies between 1 and the order's tree width plus one. |
| HyperTreeDecomp.HyperWidthAtMostTreeWidthPlusOne | trunk/acotreewidth/trunk/include/acotreewidth/decomp.h:222-266 | Under either tally policy, on elimination orders, the hypertree width is at most the pruned tree-width result plus one. |
| HyperTreeDecomp.Clique | trunk/acotreewidth/trunk/include/acotreewidth/decomp.h:319-320 | The closed neighbourhood holds the vertex, lies within the graph's vertices and has one more element than the vertex has neighbours. |
| HyperTreeDecomp.CliqueCover | trunk/acotreewidth/trunk/include/acotreewidth/decomp.h:319-321 | The greedy cover of a vertex's closed neighbourhood needs at least one hyperedge and at most the vertex's degree plus one. |
| HyperTreeDecomp.HyperFeasibleNeighbours | trunk/acotreewidth/trunk/include/acotreewidth/decomp.h:315-325 | Exactly the unvisited vertices are scored, each with a score between 1 and its degree in the graph plus one. |
| HyperTreeDecomp.HyperFeasibleScore | trunk/acotreewidth/trunk/include/acotreewidth/decomp.h:318-321 | A feasible vertex's score is the size of the as-written greedy cover of its closed neighbourhood in the graph itself, not in the elimination graph. |
| HyperTreeDecomp.HyperFeasibleIgnoresElimination | trunk/acotreewidth/trunk/include/acotreewidth/decomp.h:315-325 | The scores do not depend on the elimination graph or the eliminated count. |

## Left out

- Parsing of graph and hypergraph files (`parse_dimacs`, `parse_hypertreelib`), and the file-not-found exception: file I/O.
- The heuristic scores (`min_degree`, `min_fill`) and the `double` values the feasible-vertex maps carry. They are floating point and defined outside this file. `Decomp.FeasibleNeighbours` gives the key set only.
- `eval_tour`, `eval_solution`, `pheromone_update` and `vertex_weight_`: floating-point scoring for the colony.
- `apply_local_search`: it runs hill climbing and iterated local search from a library outside this file.
- `get_feasible_start_vertices`, in both problem classes, is not modelled: it scores every vertex with a floating-point value.
- `random_number`: each draw is a parameter. `perturbate` receives the drawn swap positions. `next_neighbour_solution` receives the accepted pair of its rejection loop and requires the two positions to differ. The source redraws forever when no such pair exists, for example on a one-vertex solution; that loop is not modelled.
- Heap ownership, copying and destruction (`new T(graph)`, destructors, `EliminationGraph::operator=`): memory management.
- The default entry `std::map::operator[]` inserts into `visited_vertices_` on a read: it is modelled as reading `false` and not as a growing map.
- The `Graph` and `HyperGraph` classes (`add_edge`, `remove_edge`, `get_neighbours`, `get_edges_for_vertex`, `get_primal_graph`) are not part of this model. They appear as adjacency sets and hyperedge sets. That `get_primal_graph` relates the two is assumed: the hypertree members require every vertex to lie in some hyperedge.
- Cover.ComputeGreedyHyperedgeCovering: requires every vertex to lie in some hyperedge. Otherwise the source never empties its vertex list. In a round where no hyperedge has a positive tally it may read an uninitialised `maximum_edge`; with tallies left from earlier rounds it picks a stale hyperedge that removes nothing, and loops forever.
- HyperTreeDecomp.HyperFeasibleNeighbours: scores the cover size rather than its reciprocal, which is a `double`.
- Neighbourhoods.GetSolution and Neighbourhoods.HasNextNeighbourSolution are plain field reads. Their behaviour is stated by `Neighbourhoods.GetSolutionAfterSet`.

## Findings

| source | as written | input that shows it | evidently intended | confidence | as-written member | corrected member |
|---|---|---|---|---|---|---|
| trunk/acotreewidth/trunk/include/acotreewidth/decomp.h:270 | `edges_vertices` is declared outside the `while` loop, so every round adds its counts to those of earlier rounds. A hyperedge that covered much earlier can be chosen again although it covers nothing new. | Hyperedges {0, 1, 2} and {2, 3}, vertices {0, 1, 2, 3}. Round 1 tallies 3 and 2 and picks hyperedge 0. Round 2 tallies 3 and 3 and picks hyperedge 0 again. Round 3 picks hyperedge 1. The cover is [0, 0, 1], of size 3. | Counting only the vertices still uncovered, each round: the cover [0, 1], in which every hyperedge covers a new vertex and none repeats. | not executed | Cover.AccumulatedTallyRepeatsEdge | Cover.FreshGreedyHyperedgeCovering |
