# Matching library: a verified model

This project models the matching library of the dating application and proves what its
documentation promises of it, for every input rather than for the fixed 6 x 6 table the
application prints.

* `Sequences.dfy`: sums, injections, pigeonhole and cardinalities used everywhere else.
* `StableMatching.dfy`, `GaleShapley.dfy`: stable matchings over arbitrary preference lists; the
  proposal loop, its rank tables and the stability checker.
* `Assignment.dfy`, `HungarianTree.dfy`, `HungarianRuns.dfy`, `Hungarian.dfy`: linear-programming
  duality for the assignment problem; the alternating tree the solver grows for each row; whole runs
  of the solver and the range of scores they survive; the solver itself on the arrays the code uses,
  each of whose loops is shown to go through such a run.
* `BipartiteMatching.dfy`, `Layers.dfy`, `HopcroftKarp.dfy`: augmenting paths; breadth-first layers,
  the vertex cover they give and what a phase does to the shortest augmenting path; `bfs`, the
  recursive `dfs` and the phase loop, with a count of the edges looked at.
* `AlternatingTrees.dfy`, `BlossomSearch.dfy`, `Blossom.dfy`: search trees in two-coloured graphs;
  `augment` and `maxMatching` as functions, contraction included; the same as methods, shown to
  compute those functions and a maximum matching.
* `OddCycles.dfy`: a graph on which the functions go wrong.
* `Scores.dfy`, `Comparison.dfy`: score-sorted preference lists, scores of stable, partial and best
  matchings; the four runners and the report.
* `ThreadPool.dfy`: the worker pool as interleaved atomic events, and a class with its locked
  sections.

Vectors that a class keeps are fields of type `seq` that the methods reassign; the solver's local
vectors `u`, `v`, `p`, `way`, `minv` and `used` are arrays changed in place. A long loop body of the
source is often a method of its own here (`Scan`, `Shift`, `Turn`, `InsertRows`, `ScanMan`, `Sweep`,
`RunPhase`, `TraceBack`, `Women`), called where the source has the loop. Every loop and every
recursion terminates.

## Where the code and its documentation part

* `src/blossom.h:4` and `README.md:294` promise a maximum matching of any graph. On graphs with odd
  cycles the code can couple two people who share no edge: `markPath` overwrites `pred` of vertices an
  earlier contraction had already redirected. `OddCycles.OddCyclesBreakMatching` is such a graph, with
  ten vertices and eleven edges. On two-colourable graphs, the only kind `runBlossom` builds, the
  promise holds and is proved (`Blossom.Blossom.MaxMatching`); there the contraction branch is dead
  (`BlossomSearch.ContractionUnreachable`, and the `assert false` in `Blossom.Blossom.Augment`).
* `src/hungarian.h:5-8` names no limit on the scores, but `INF` is half the largest `int` and is
  compared with reduced costs. Over the scores in `[lo, hi]` no run of the solver leaves `j1` at -1 if
  and only if `hi - lo < INF` and `-INF < lo` (`HungarianRuns.CapIsExact`): otherwise the 1 x 1 matrix
  `[lo]`, or the 2 x 2 matrix with both rows `[hi, lo]`, does. Within the range the result is optimal.
* `HopcroftKarp` keeps layers in the same `int` as its marker 1,000,000,000, so fewer men than that
  are required.
* `isStable` asserts that a matching is present, which also rules out calling it for n = 0.

## Model

| member | source | states |
|---|---|---|
| StableMatching.RankInverse | src/gale_shapley.cpp:12-28 | On permutation lists, rank and list position are inverse in both directions |
| StableMatching.RejectionIsFinal | src/gale_shapley.cpp:49-64 | If b prefers the winner, and nobody he has proposed to before her is his stable partner, then no stable matching pairs b with the loser |
| StableMatching.OptimalPartnerIsWorst | src/tests/test_gale_shapley.cpp:175-193 | A woman whose partner has his best stable partner in her has, in her, no worse alternative: every stable matching gives her someone she likes at least as much |
| StableMatching.OptimalIsPessimal | src/tests/test_gale_shapley.cpp:175-193 | A man-optimal matching gives every woman the worst partner she has in any stable matching |
| StableMatching.ManOptimalUnique | src/gale_shapley.h:14-15 | Only one stable matching is man-optimal, so queue order and earlier runs cannot change the outcome |
| GaleShapley.NobodyAtListEnd | src/gale_shapley.cpp:42-47 | While anybody is free no man has proposed to all n women |
| GaleShapley.HeadCanPropose | src/gale_shapley.cpp:42-47 | The dequeued man is unmatched and `next` stays inside his list |
| GaleShapley.StartInvariant | src/gale_shapley.cpp:32-40 | The loop starts with everybody free, in the queue once |
| GaleShapley.FreeWomanAccepts | src/gale_shapley.cpp:49-52 | The first branch keeps the whole run invariant |
| GaleShapley.WomanTrades | src/gale_shapley.cpp:53-60 | The swap branch keeps the whole run invariant, the displaced man never having been the woman's stable partner |
| GaleShapley.WomanRefuses | src/gale_shapley.cpp:61-64 | The refusal branch keeps the whole run invariant, the refused man never having been the woman's stable partner |
| GaleShapley.ProposerWins | src/gale_shapley.cpp:55-60 | A displaced man has no stable matching with the woman he loses |
| GaleShapley.HolderWins | src/gale_shapley.cpp:61-64 | A refused man has no stable matching with the woman who refuses him |
| GaleShapley.RunIsPerfect | src/gale_shapley.cpp:42-66 | An empty queue means everybody is matched |
| GaleShapley.RunFinishes | src/gale_shapley.cpp:42-66 | At the end the matching is perfect, two-sided, stable, man-optimal and woman-pessimal |
| GaleShapley.GaleShapley.constructor | src/gale_shapley.cpp:5-29 | Both rank tables give the position of every person on every list |
| GaleShapley.GaleShapley.RankTable | src/gale_shapley.cpp:12-28 | The rank loops compute exactly the inverse of the lists |
| GaleShapley.GaleShapley.Run | src/gale_shapley.cpp:31-67 | For all preference lists: perfect, stable, every man's best and every woman's worst stable partner, in exactly as many proposals as take every man down to his match, at most n(n-1)+1 |
| GaleShapley.GaleShapley.IsStable | src/gale_shapley.cpp:69-88 | True iff no matched man and matched woman prefer each other; on a perfect matching iff it is stable |
| GaleShapley.PairwiseIsStable | src/gale_shapley.cpp:72-88 | On perfect matchings the pairwise test of the checker is stability |
| GaleShapley.PartTempted | src/gale_shapley.cpp:72-88 | In a part of a matching the tempted couples are those of the whole who are both still matched, so the unmatched tempt nobody |
| GaleShapley.ProposalCount | src/gale_shapley.cpp:42-47 | The number of proposals is settled by the outcome: each man makes one to every woman down to his match |
| Assignment.WeakDuality | src/hungarian.cpp:19-24 | Feasible potentials bound the cost of every injection of the first k rows from below |
| Assignment.StrongDuality | src/hungarian.cpp:55-62 | An injection along tight pairs that uses every priced column meets that bound |
| Assignment.RowColumnsInjective | src/hungarian.cpp:28-28 | `p` gives the processed rows distinct columns, and `p[j]` is 0 exactly for the others |
| Assignment.PartialIsTight | src/hungarian.cpp:55-62 | Matched pairs cost exactly their two potentials |
| Assignment.FreeIsUnpriced | src/hungarian.cpp:55-62 | Columns without a row keep potential 0 |
| Assignment.DummyBalances | src/hungarian.cpp:55-62 | Because the sum of all potentials stays 0, `v[0]` is minus the sum of the others |
| Assignment.MeetingTheBound | src/hungarian.cpp:31-71 | Meeting the dual bound makes an injection cheapest among all |
| Assignment.PartialIsCheapest | src/hungarian.cpp:31-71 | After k rows `p` is a minimum-cost injection of those rows and `v[0]` is minus its cost |
| Assignment.FreeColumn | src/hungarian.cpp:37-64 | Below n rows some column has no row and potential 0 |
| Assignment.PotentialBounds | src/hungarian.cpp:55-62 | Processed rows' potentials lie in [-hi, -lo] and columns' in [lo - hi, 0], whatever n is |
| HungarianTree.ReducedCostBound | src/hungarian.cpp:44-48 | Every reduced cost is bounded by the score range alone: [0, 2(hi - lo)] for processed rows, [-hi, hi - 2lo] for the new one |
| HungarianTree.CapSize | src/hungarian.cpp:22-22 | INF is half the largest int, rounded down, and the documented scores from 0 to 100 are below the cap |
| HungarianTree.NewRowBound | src/hungarian.cpp:55-62 | The new row's potential is at most -lo once its row is feasible |
| HungarianTree.NewRowAbove | src/hungarian.cpp:55-62 | The new row's potential is at least -hi from its first update on |
| HungarianTree.UseColumn | src/hungarian.cpp:38-39 | Marking `j0` used extends the tree by a tight edge |
| HungarianTree.ScanKeepsTree | src/hungarian.cpp:42-54 | The scan leaves the edges of the tree alone |
| HungarianTree.ScanKeepsSlack | src/hungarian.cpp:42-54 | After the scan `minv` is, for each unused column, the least reduced cost from a tree row, attained at `way`, except where all of those have reached what is left of INF |
| HungarianTree.ScanFindsColumn | src/hungarian.cpp:40-53 | After every scan a free column's slack is below INF, so an unused column always exists, `j1` is not -1, and the least slack is a true reduced cost |
| HungarianTree.LaterDeltaNonNegative | src/hungarian.cpp:49-52 | Only a new row's first delta can be negative |
| HungarianTree.ShiftKeepsFeasible | src/hungarian.cpp:55-62 | The dual update keeps every processed row feasible |
| HungarianTree.ShiftMakesRowFeasible | src/hungarian.cpp:55-62 | The dual update makes, and keeps, the new row feasible |
| HungarianTree.ShiftKeepsTight | src/hungarian.cpp:55-62 | The dual update keeps matched pairs tight |
| HungarianTree.ShiftKeepsGrowing | src/hungarian.cpp:55-62 | The dual update keeps signs, assignment and the zero sum of all potentials |
| HungarianTree.ShiftKeepsTree | src/hungarian.cpp:55-62 | The dual update keeps tree edges tight |
| HungarianTree.ShiftKeepsSlack | src/hungarian.cpp:59-61 | `minv` still holds the slacks after the update, and entries that never met a reduced cost fall by just what the new row's potential gains |
| HungarianTree.TurnKeepsAtColumn | src/hungarian.cpp:37-64 | One turn of the tree loop leads from standing at `j0` to standing at `j1`, whose slack is then 0, and every delta after a row's first is non-negative |
| HungarianTree.WalkStarts | src/hungarian.cpp:64-66 | Reaching a column without a row starts an augmentation with one hole |
| HungarianTree.WalkSteps | src/hungarian.cpp:66-70 | Each step back along `way` moves the hole up the tree and keeps every other row assigned and tight |
| HungarianTree.WalkEnds | src/hungarian.cpp:66-71 | When the hole is column 0, rows 1..i each have exactly one column, tightly |
| HungarianTree.RowKeepsPotentialsIn | src/hungarian.cpp:31-71 | The potential bounds hold again after each row, the last included |
| HungarianTree.StartsEmpty | src/hungarian.cpp:26-29 | The zero initialisation satisfies the invariant for no rows |
| HungarianTree.StartsRow | src/hungarian.cpp:32-33 | Setting `p[0] = i` starts the tree of row i |
| HungarianRuns.StepKeepsSound | src/hungarian.cpp:31-71 | One turn of either do-while loop, or the start of the next row, keeps the whole solver invariant |
| HungarianRuns.RunIsSound | src/hungarian.cpp:31-71 | Below the cap every moment of every run satisfies the invariant |
| HungarianRuns.SoundNotStuck | src/hungarian.cpp:40-54 | At no such moment does the scan leave `j1` at -1 |
| HungarianRuns.FinishedIsCheapest | src/hungarian.cpp:31-71 | Where a run ends, `p` is a minimum-cost assignment and `v[0]` is minus its cost |
| HungarianRuns.LowScoreStuck | src/hungarian.cpp:22-54 | When lo <= -INF, the first scan of the 1 x 1 matrix [lo] leaves `j1` at -1 |
| HungarianRuns.WideRangeStuck | src/hungarian.cpp:22-64 | When hi - lo >= INF, the run over [[hi, lo], [hi, lo]] leaves `j1` at -1 in its third scan |
| HungarianRuns.CapIsExact | src/hungarian.cpp:22-71 | For all lo <= hi: no run over scores in [lo, hi] leaves `j1` at -1 if and only if hi - lo < INF and -INF < lo |
| Hungarian.CheapestIsBest | src/hungarian.cpp:10-16 | The cheapest assignment of the negated matrix is the best one of the scores |
| Hungarian.TotalNegated | src/hungarian.cpp:78-80 | An assignment's score is minus its cost |
| Hungarian.Hungarian.constructor | src/hungarian.cpp:6-17 | The stored costs are the negated scores |
| Hungarian.Hungarian.Scan | src/hungarian.cpp:40-54 | Relaxes exactly the unused columns; delta is the least slack and `j1` the first column that has it; `j1` is -1 iff every slack has reached INF |
| Hungarian.Hungarian.Shift | src/hungarian.cpp:55-62 | Moves exactly the tree's rows up and columns down by delta, with the sum of all potentials unchanged |
| Hungarian.Hungarian.Turn | src/hungarian.cpp:37-63 | One turn of the tree loop is one step of a run, ending at an unused column |
| Hungarian.Hungarian.GrowTree | src/hungarian.cpp:37-64 | The tree loop terminates at a column without a row |
| Hungarian.Hungarian.Augment | src/hungarian.cpp:66-70 | The augmentation terminates at column 0 |
| Hungarian.Hungarian.InsertRow | src/hungarian.cpp:31-71 | Each outer turn restores the invariant with one more row |
| Hungarian.Hungarian.InsertRows | src/hungarian.cpp:31-71 | The outer loop goes through a complete run and leaves n rows assigned, optimally priced |
| Hungarian.Hungarian.Solve | src/hungarian.cpp:21-81 | The assignment is a permutation with the largest total score of all, `maxScore_` is that score and equals the final `v[0]`, certified by potentials in range, at the end of a complete run |
| Hungarian.Hungarian.ReadAssignment | src/hungarian.cpp:73-76 | The read-out inverts `p` |
| Hungarian.Hungarian.TotalScore | src/hungarian.cpp:78-80 | The final loop totals the assigned scores, between n lo and n hi |
| BipartiteMatching.AugmentKeepsConsistent | src/hopcroft_karp.cpp:51-52 | Augmenting along a path keeps `matchLeft_` and `matchRight_` mutually inverse along edges |
| BipartiteMatching.AugmentGrows | src/hopcroft_karp.cpp:51-52 | Augmenting keeps every matched man matched and adds exactly the path's first man |
| BipartiteMatching.PathClosed | src/hopcroft_karp.cpp:46-58 | A path's women are free or held on the path, and its men free or holding on it |
| BipartiteMatching.WriteSpec | src/hopcroft_karp.cpp:51-52 | What the writes of the unwinding recursion leave at each vertex |
| Layers.LayerBelowLeft | src/hopcroft_karp.cpp:37-40 | A finite layer is smaller than the number of men, so it never meets the INF marker |
| Layers.CoverBound | src/hopcroft_karp.cpp:20-44 | If layers 0..t see no free woman, no matching exceeds the current one by more than the size of layer t + 1 |
| Layers.DeficiencyBound | src/hopcroft_karp.h:9-9 | If the first k layers see no free woman, the matching is within a k-th part of its own size of maximum |
| Layers.KoenigCover | src/hopcroft_karp.cpp:20-44 | When bfs finds nothing, unreached men and seen women touch every edge and number exactly the couples |
| Layers.NoAugmentationIsMaximum | src/hopcroft_karp.cpp:43-43 | When bfs finds nothing, no matching has more couples |
| Layers.PhaseStarts | src/hopcroft_karp.cpp:65-66 | The layering just built satisfies the phase invariant |
| Layers.AdvanceKeepsPhase | src/hopcroft_karp.cpp:47-55 | Passing over an edge of `iter_` never skips a shortest continuation |
| Layers.KillKeepsPhase | src/hopcroft_karp.cpp:56-57 | Marking a man dead after his last edge loses nothing |
| Layers.FlipKeepsPhaseMatching | src/hopcroft_karp.cpp:46-58 | The layering stays valid for shortest paths although dfs also augments along longer ones |
| Layers.FlipKeepsExhausted | src/hopcroft_karp.cpp:46-58 | Edges already passed over stay useless after any later augmentation |
| Layers.FlipKeepsPhase | src/hopcroft_karp.cpp:46-58 | The whole phase invariant survives an augmentation |
| Layers.WalkDepth | src/hopcroft_karp.cpp:30-42 | The i-th man of an augmenting walk is at most i layers down |
| Layers.WalkDead | src/hopcroft_karp.cpp:56-57 | On a leftover path of shortest length every man would have to be dead |
| Layers.PhaseStretches | src/hopcroft_karp.cpp:65-70 | After a phase every augmenting path is longer than the shortest one before it |
| HopcroftKarp.PopStarts | src/hopcroft_karp.cpp:31-32 | Popping keeps the search invariant, in layer order |
| HopcroftKarp.EdgeToFree | src/hopcroft_karp.cpp:35-36 | A free woman sets `found` |
| HopcroftKarp.Discover | src/hopcroft_karp.cpp:37-40 | A man seen for the first time gets the next layer and joins the queue |
| HopcroftKarp.EdgeToSeen | src/hopcroft_karp.cpp:33-41 | A man seen before is at most one layer further |
| HopcroftKarp.SearchEnds | src/hopcroft_karp.cpp:31-43 | An empty queue leaves exact layers, and `found` says whether a layered man sees a free woman |
| HopcroftKarp.LayerGivesPath | src/hopcroft_karp.cpp:30-42 | A man who sees a free woman from layer k ends an augmenting path of k + 1 men |
| HopcroftKarp.LayersAreDistances | src/hopcroft_karp.cpp:20-44 | A man's layer is the length of the shortest walk to him from a free man along edges and couples, and INF exactly when there is none |
| HopcroftKarp.LongerPath | src/hopcroft_karp.cpp:50-53 | Prefixing a tight edge to a layered path gives a layered path |
| HopcroftKarp.HopcroftKarp.constructor | src/hopcroft_karp.cpp:5-12 | A graph without edges, with the given sides |
| HopcroftKarp.HopcroftKarp.AddCompatiblePair | src/hopcroft_karp.cpp:14-18 | Appends exactly one edge, and there is exactly one edge more |
| HopcroftKarp.HopcroftKarp.Bfs | src/hopcroft_karp.cpp:20-44 | `distLeft_` is the exact layering and the result says whether it sees a free woman; it looks exactly once at each edge of each layered man |
| HopcroftKarp.HopcroftKarp.ScanMan | src/hopcroft_karp.cpp:33-41 | The inner loop finishes one man, looking at each of his edges once |
| HopcroftKarp.HopcroftKarp.Dfs | src/hopcroft_karp.cpp:46-58 | Failure kills the man and changes no match; success writes exactly one path down the layers; men in the same or higher layers are untouched; the recursion terminates; it looks at exactly as many edges as pointers have moved and men been matched |
| HopcroftKarp.HopcroftKarp.Sweep | src/hopcroft_karp.cpp:67-69 | Counts exactly the couples gained, leaves no path as short as the layering's, and looks at no more than twice as many edges as there are |
| HopcroftKarp.HopcroftKarp.RunPhase | src/hopcroft_karp.cpp:65-70 | A phase after a successful bfs gains at least one couple and strictly lengthens the shortest augmenting path |
| HopcroftKarp.HopcroftKarp.MaxMatching | src/hopcroft_karp.cpp:60-72 | Returns the largest size of any matching and the number of matched men; phases are one fewer than the calls of bfs; whenever s * s >= left there are at most 2s of them and at most (6s + 1) E edge inspections |
| HopcroftKarp.DfsAugments | src/hopcroft_karp.cpp:67-69 | A successful dfs from a free man adds one couple and keeps the phase invariant |
| HopcroftKarp.SweepProgress | src/hopcroft_karp.cpp:65-69 | When bfs found something, the sweep cannot leave the matching as it was |
| HopcroftKarp.StretchFromShortest | src/hopcroft_karp.cpp:65-70 | Stated of the shortest path before the phase: every path after it has more men |
| HopcroftKarp.SearchFailed | src/hopcroft_karp.cpp:65-71 | The loop stops only at a maximum matching |
| HopcroftKarp.RecordGain | src/hopcroft_karp.h:9-9 | After k phases no matching exceeds the current one by more than a k-th part of it |
| HopcroftKarp.PhaseCount | src/hopcroft_karp.h:9-9 | When gains are so bounded, there are at most 2s phases for any s whose square is at least the number of men |
| HopcroftKarp.PopPrepays | src/hopcroft_karp.cpp:31-33 | Popping a man adds exactly his edges to those of the men explored so far |
| HopcroftKarp.AdvancePays | src/hopcroft_karp.cpp:47-47 | Moving `iter_` past an edge, matched or not, pays for looking at it |
| HopcroftKarp.MatchPays | src/hopcroft_karp.cpp:50-53 | Matching along the edge `iter_` stands at pays for looking at it, once until it moves on |
| HopcroftKarp.CallerUnmatchedHere | src/hopcroft_karp.cpp:50-52 | A man is never matched already along the edge he succeeds with, whatever the recursive call has rewritten |
| HopcroftKarp.PathExtends | src/hopcroft_karp.cpp:50-53 | The two writes of a successful call extend the callee's path by one couple, for a free woman or a held one |
| HopcroftKarp.CreditSpent | src/hopcroft_karp.cpp:66-69 | A sweep looks at no more than 2E edges |
| HopcroftKarp.WorkCount | src/hopcroft_karp.h:9-9 | Three E per phase and 2s phases make at most (6s + 1) E edge inspections |
| AlternatingTrees.CouplesByColour | src/blossom.cpp:106-114 | In a two-coloured graph couples can be counted on either colour |
| AlternatingTrees.SealedIsMaximum | src/blossom.cpp:106-114 | If every free vertex of one colour lies in a sealed failed tree, no coupling has more couples |
| AlternatingTrees.OuterSeesNoOuter | src/blossom.cpp:70-73 | An outer vertex never sees another outer vertex |
| AlternatingTrees.TreeGrows | src/blossom.cpp:88-94 | Hanging an unreached couple below an outer vertex keeps the tree |
| AlternatingTrees.SearchGrows | src/blossom.cpp:88-94 | Hanging an unreached couple below an outer vertex keeps finished vertices finished |
| AlternatingTrees.FailedTreeIsSealed | src/blossom.cpp:67-103 | A search that runs dry seals its tree: all neighbours of outer are inner, all inner are matched into outer |
| AlternatingTrees.OuterAvoidsInner | src/blossom.cpp:106-112 | A later search never reaches the inner side of a failed tree from outside |
| AlternatingTrees.TraceStarts | src/blossom.cpp:75-79 | The trace-back starts outside every failed tree |
| AlternatingTrees.TraceSteps | src/blossom.cpp:79-85 | Each turn re-matches one couple, stays outside every failed tree and moves one level up |
| AlternatingTrees.TraceEnds | src/blossom.cpp:79-86 | At the root all couples are in place, exactly u and s are newly matched, and failed trees are still sealed |
| AlternatingTrees.OneMoreColoured | src/blossom.cpp:110-111 | One augmentation is one more couple |
| AlternatingTrees.PairKeepsSimple | src/blossom.cpp:10-16 | Adding a pair keeps the graph undirected and loop-free |
| Blossom.Blossom.constructor | src/blossom.cpp:6-8 | An edgeless graph with nobody matched |
| Blossom.Blossom.AddCompatiblePair | src/blossom.cpp:10-16 | Appends the edge to both lists |
| Blossom.PassesWithin | src/blossom.cpp:71-71 | Skipping an inner neighbour keeps the search on course |
| Blossom.GrowsWithin | src/blossom.cpp:88-94 | Extending the tree keeps the search on course, within the turns and depths that are left |
| Blossom.AugmentsWithin | src/blossom.cpp:74-86 | A free neighbour ends the search in a trace-back that can start and reaches the root |
| Blossom.FailsBetween | src/blossom.cpp:67-103 | An empty queue means the search fails, changes nothing and seals its tree |
| Blossom.Blossom.TraceBack | src/blossom.cpp:77-85 | The trace-back terminates and leaves a coupling that matches exactly two vertices more |
| Blossom.Blossom.Augment | src/blossom.cpp:23-104 | On a two-coloured graph the method computes what the function with the contraction branch does; success matches s and one other and leaves failed trees sealed; failure changes nothing and seals the search tree; the contraction branch is dead |
| Blossom.Blossom.MaxMatching | src/blossom.cpp:106-114 | On any two-colourable graph one attempt per vertex leaves a symmetric, edge-respecting matching with the most couples of all, and returns their number; the matching is the one `MatchFrom` gives |
| BlossomSearch.ContractionUnreachable | src/blossom.cpp:70-100 | With the contraction branch as written, scanning a neighbour on a two-coloured graph skips, augments or grows the tree, and never gets there |
| BlossomSearch.BasesAreWalk | src/blossom.cpp:38-43 | The first loop of lca marks exactly the bases on the walk from a, up to the root and no further |
| BlossomSearch.FirstVisitedIsFirst | src/blossom.cpp:44-48 | The second loop stops at the first base on the walk from b that is marked |
| BlossomSearch.LcaMeets | src/blossom.cpp:34-49 | lca is the first base on the walk from b that lies on the walk from a to the root |
| BlossomSearch.MarkPathMarks | src/blossom.cpp:52-65 | markPath moves the first vertex's base, and no base but to b, makes vertices outer only by queueing them, and touches no match |
| BlossomSearch.CoursePops | src/blossom.cpp:67-70 | Popping a vertex and scanning its list from the start is what the search goes on to do |
| BlossomSearch.CoursePasses | src/blossom.cpp:70-101 | A neighbour after which the search carries on leads to the next neighbour |
| BlossomSearch.CourseAugments | src/blossom.cpp:74-86 | A neighbour that augments decides the outcome of the whole search |
| OddCycles.TenPeopleBuilt | src/blossom.cpp:10-16 | Eleven calls of addCompatiblePair on ten people build the ten-vertex graph |
| OddCycles.FirstContraction | src/blossom.cpp:34-65 | lca and markPath on the first odd cycle of the ten-vertex graph |
| OddCycles.SecondContraction | src/blossom.cpp:52-65 | markPath through an already contracted vertex sets its pred to a non-neighbour |
| OddCycles.PopFour | src/blossom.cpp:77-86 | The trace-back through it matches two vertices without an edge |
| OddCycles.OddCyclesBreakMatching | src/blossom.cpp:23-114 | On the graph those calls build, maxMatching returns a matching that is not one: the promise for general graphs fails |
| Scores.SortDescending | main.cpp:88-91 | Some permutation with falling scores, ties in any order |
| Scores.MenPrefs | main.cpp:85-94 | Every man's list is a permutation of the women by falling score |
| Scores.WomenPrefs | main.cpp:96-105 | Every woman's list is a permutation of the men by falling score |
| Scores.Score | main.cpp:181-186 | Sums the scores of the matched men |
| Scores.NobodyScores | main.cpp:181-186 | A matching of nobody scores 0 |
| Scores.CoupleAddsItsScore | main.cpp:181-186 | One couple more adds exactly its own score, whoever else is unmatched |
| Scores.Count | main.cpp:187-190 | Counts the matched men |
| Scores.StableInScores | main.cpp:113-114 | Stability for score-sorted lists, ties in any order, leaves no man and woman who both score strictly higher together |
| Scores.StableIsHalfOptimal | main.cpp:222-224 | Any assignment scores at most twice a stable matching |
| Scores.EitherEarnsMore | main.cpp:85-105 | Any couple scores no more than its man and its woman do together with their stable partners |
| Scores.Complete | main.cpp:222-224 | Every partial matching extends to an assignment with the same couples |
| Scores.BestBeatsPartial | main.cpp:222-224 | The best assignment of a non-negative matrix outscores every partial matching |
| Comparison.RunGaleShapley | main.cpp:109-120 | A stable, man-optimal matching for score-sorted lists, and the printed check is always yes |
| Comparison.RunHopcroftKarp | main.cpp:122-136 | A matching of pairs at or above the threshold, with the most couples of all such |
| Comparison.RunHungarian | main.cpp:138-149 | The assignment with the largest total score |
| Comparison.RunBlossom | main.cpp:151-173 | Every translated index is a woman's; a matching of pairs at or above the threshold, with the most couples of all such |
| Comparison.MatchingsAreCompatible | main.cpp:124-127 | The matchings of the threshold graph are exactly the partial matchings at or above the threshold |
| Comparison.EncodingIsTwoColoured | main.cpp:152-157 | Men and women two-colour the encoded graph |
| Comparison.WomenOfIsCompatible | main.cpp:164-169 | `raw[m] - N` turns a coupling of the encoded graph into a threshold matching with as many couples |
| Comparison.EncodeIsCoupling | main.cpp:152-157 | Every threshold matching comes from a coupling of the encoded graph with as many couples |
| Comparison.MaximumCouplingIsMostCouples | main.cpp:151-173 | A maximum coupling of the encoded graph is a maximum threshold matching |
| Comparison.SameNumberOfCouples | main.cpp:213-216 | Hopcroft-Karp and Blossom form equally many couples |
| Comparison.ScoreSandwich | main.cpp:222-224 | Stable <= best <= twice stable, and no threshold matching scores more than the best assignment |
| Comparison.FullPool | main.cpp:216-221 | A threshold matching with the most couples is full exactly when everybody can be paired off at or above the threshold |
| Comparison.ThresholdIncluded | main.cpp:124-127 | A score equal to the threshold makes a couple compatible, and nothing below it does |
| Comparison.SortedStableNobodyTempted | main.cpp:113-119 | What Gale-Shapley leaves tempts no man and woman to score strictly higher together |
| Comparison.Analysis | main.cpp:213-224 | The highest-score note is always printed; the full-pool note exactly when everybody can be paired off at or above the threshold |
| Comparison.CompareAll | main.cpp:229-262 | All of the report's claims for every non-negative n x n matrix with entries below INF: the stability answer is yes, nobody is tempted, the threshold algorithms form equally many couples, the sandwich holds, and each note is printed exactly when it is true |
| Comparison.PoolsAdmitted | main.cpp:1-5 | Scores from 0 to 100 in pools of up to 999,999,999 couples are within every limit that `CompareAll` sets |
| ThreadPool.NextKeepsFifo | server/thread_pool.h:117-141 | Every event keeps: accepted tasks are the dequeued ones followed by the queue |
| ThreadPool.NextKeepsNoneTwice | server/thread_pool.h:129-141 | No event puts a task with two workers or runs it twice |
| ThreadPool.NextKeepsNoneLost | server/thread_pool.h:129-141 | No event loses a dequeued task |
| ThreadPool.NextKeepsWakeups | server/thread_pool.h:93-96 | No lost wakeup: while anybody sleeps, every queued task has a notification owed or a worker about to look, unless notify_all is still to come; after notify_all nobody sleeps |
| ThreadPool.NextKeepsExits | server/thread_pool.h:135-135 | Workers leave only a stopped, empty pool |
| ThreadPool.RunKeepsInv | server/thread_pool.h:117-141 | All of it over every interleaving |
| ThreadPool.RunAccepts | server/thread_pool.h:118-126 | Over every run, exactly the tasks enqueued are accepted, in order, and none is ever forgotten |
| ThreadPool.JoinedMeansDrained | server/thread_pool.h:91-99 | When all workers have exited the queue is empty, the tasks enqueued were taken in that order, and every one of them ran exactly once |
| ThreadPool.StopSticks | server/thread_pool.h:121-122 | Nothing is accepted after stop |
| ThreadPool.StoppedRunsDown | server/thread_pool.h:91-99 | After stop every event but a rejected enqueue uses something up, spurious wakeups included |
| ThreadPool.ShutdownBounded | server/thread_pool.h:97-98 | A shutdown takes at most 2 queued + owed + 1 + 2 workers events other than rejected enqueues |
| ThreadPool.ShutdownProceeds | server/thread_pool.h:97-98 | During shutdown some such event, not a spurious wakeup, is enabled until every worker has exited |
| ThreadPool.QueuedWorkProceeds | server/thread_pool.h:134-139 | Queued work always has an enabled event without spurious wakeups, and while anybody sleeps it is a notification or the taking of a task, not a busy worker finishing |
| ThreadPool.AnySleeperMayWake | server/thread_pool.h:134-134 | Any sleeper may be the one an owed notification wakes, and may wake for no reason |
| ThreadPool.ThreadPool.constructor | server/thread_pool.h:82-88 | At least one worker, nothing queued |
| ThreadPool.ThreadPool.EnqueueTask | server/thread_pool.h:118-126 | The locked section is the enqueue event, which puts the task at the back of the queue, or the refusal on a stopped pool |
| ThreadPool.ThreadPool.WorkerSection | server/thread_pool.h:129-138 | The locked section is a wait, an exit or the taking of the front task, and leaves the other tasks queued |
| ThreadPool.ThreadPool.SetStop | server/thread_pool.h:92-95 | The locked section is the stop event and leaves waiting tasks queued |
| ThreadPool.ThreadPool.WakeAllWorkers | server/thread_pool.h:96-96 | notify_all is the wake-all event |

## Left out

- Blossom.Blossom.Augment: covers two-colourable graphs only, because on graphs with odd cycles the promise is false. The functions in `BlossomSearch.dfy` cover the contraction code too; there reads the C++ leaves undefined give -1 and lca, markPath and the trace-back stop after |V| turns, neither of which happens on the graph considered.
- Blossom.Blossom.MaxMatching: covers two-colourable graphs only, for the same reason; which of the other graphs still come out right is not characterised.
- Hungarian.Hungarian.Solve: asks for a range of scores below the cap, which is exact for ranges: a single matrix from a wider range may still come out right. `maxScore_` and `v[0]` are unbounded here: in 32 bits they need n times the largest absolute score below 2^31; every other quantity fits.
- HopcroftKarp.HopcroftKarp.constructor: asks for fewer men than the layer marker 1,000,000,000. The code needs only the deepest layer to stay below the marker; a layer equal to it would look like a man not yet seen, and what happens then is not modelled.
- Comparison.RunHopcroftKarp: asks for n below that marker, as does Comparison.CompareAll.
- HopcroftKarp.HopcroftKarp.MaxMatching: counts edge inspections; the loops over all men that start each search and each sweep, one turn per man, are not added in.
- ThreadPool.ThreadPool.WorkerSection: running a task is one event; a task that throws, and the futures of `submit`, are not modelled.
- Fairness of the thread scheduler: shutdown is shown bounded and never stuck, not live under a named scheduler.
- The fixed tables of names and scores, printing, and average scores as doubles.
- The HTTP server, the database layer, the connection pool, the SQL schema and the web page.
- Whether Hopcroft-Karp and Blossom return the same pairs: only the number of couples is the same.
