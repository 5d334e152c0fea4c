# Pathfindr grid search, modelled in Dafny

Pathfindr is a path-finding visualizer. The page holds a 15 by 40 grid of
node records. The user draws walls on it and picks a start and a finish cell.
The page then runs a search that writes its scratch fields into the records
in place, follows the `previousNode` back-links from the finish, and reports
the path's node count as its cost.

This project models the engine behind that page:

- `grid.dfy` (module `Grid`) holds the node record, the grid as an
  `array2<Node>` with a value view `View(grid)`, and `getNeighbors`.
  Both algorithm files contain an identical copy of `getNeighbors`; it is
  modelled once.
- `search.dfy` (module `Search`) holds what a search leaves behind: a
  forest of back-links rooted at the start, ranked by the search's cost
  field (`distance` for Bellman-Ford, `g` for A*). It also proves what
  such a forest says about wall-free walks through the grid, in
  particular that at a fixed point the costs are shortest-walk lengths.
- `bellman_ford.dfy` (module `BellmanFord`) holds `bellmanFord`,
  `getAllNodes` and `getNodesInShortestPathOrder`. These are imperative
  methods over the array, proved against the predicates of `Search`. The
  main theorem is that the run always ends at the fixed point: after at
  most `numNodes - 1` passes no edge can be relaxed, so the final scan
  never warns.
- `open_set.dfy` (module `OpenSet`) holds A*'s open-set pop. The sort by
  `(f, g)` is modelled as a stable insertion sort, proved sorted and a
  permutation, followed by the shift.
- `astar.dfy` (module `AStar`) holds `aStar` with its Manhattan
  `heuristic`. It proves termination of the `while (openSet.length > 0)`
  loop. It also proves that the finish ends up in the trace, as its last
  node, exactly when a wall-free walk leads to it from the start.
- `visualizer.dfy` (module `Visualizer`) holds the page's grid helpers:
  `createNode`, `getInitialGrid`, `createFreshGridFrom`,
  `getNewGridWithWallToggled`, the input clamping, `pathCost` and the
  `cost > 1` rule. `Visualize` combines them with a search the way
  `visualizeAlgorithm` does.

Node records are values of the datatype `Grid.Node`, with the fields
`createNode` gives them. `Infinity` is the constructor `Dist.Infinity`,
and `previousNode` holds the position of the linked record. Every write to
a record of an existing grid goes through `Grid.SetNode`, whose contract
states the new grid as a function of the old one. Fresh grids (`InitialGrid`,
`FreshGridFrom`, `WithWallToggled`) are filled directly. The contracts of the
methods are then stated about grid values (`Cells`), and the lemmas about
them are heap-free.

## Model

| member | source | states |
|---|---|---|
| Grid.Dist.Less | src/algorithm/bellmanford.js:29 | JavaScript `<` on a distance: numbers compare as numbers, every number is below `Infinity`, and `Infinity` is below nothing, not even itself |
| Grid.Dist.PlusOne | src/algorithm/bellmanford.js:28 | JavaScript `+ 1`: `Infinity` stays `Infinity`, and a number goes to the least value above it |
| Grid.AbsDiff | src/algorithm/astar.js:9 | `Math.abs(a - b)` |
| Grid.SetNode | src/algorithm/bellmanford.js:30-31 | an in-place write of one record: the new grid is the old one with exactly that cell replaced |
| Grid.Neighbors | src/algorithm/bellmanford.js:64-72 | at most four cells, exactly the in-bounds cells one orthogonal step away, listed up, down, left, right |
| Grid.DistinctCellsBound | src/algorithm/bellmanford.js:38-43 | a list of distinct in-bounds cells has at most rows × cols entries, which bounds the trace length |
| Search.Chain | src/algorithm/bellmanford.js:86-94 | when every back-link descends in cost, following the links from a cell yields a back-link chain ending at it |
| Search.BackChainUnique | src/algorithm/bellmanford.js:86-94 | there is only one back-link chain ending at a given cell |
| Search.ChainAscends | src/algorithm/bellmanford.js:86-94 | along a chain the cost rises strictly, so it repeats no cell and, beyond one cell, is a wall-free walk |
| Search.ChainEnds | src/algorithm/bellmanford.js:86-94 | in a forest the chain starts at the start exactly when the finish was reached, and is `[finish]` alone otherwise |
| Search.RelaxKeepsForest | src/algorithm/bellmanford.js:29-32 | lowering a neighbour to one more than a reached node and linking it there keeps the back-links a forest rooted at the start |
| Search.SameLinksSameForest | src/algorithm/bellmanford.js:38-43 | rewriting fields the ranking does not use (such as `isVisited`) keeps the forest and the fixed point |
| Search.NeighborsDecideRelaxedFrom | src/algorithm/bellmanford.js:24-34 | the offers to the listed neighbours decide whether any edge out of a node can be improved |
| Search.AllOfferedRelaxed | src/algorithm/bellmanford.js:26-34 | no edge out of a node can be improved if and only if every listed neighbour has had its offer |
| Search.OfferedNext | src/algorithm/astar.js:50-65 | an offer to the next neighbour that keeps earlier offers extends the offered prefix by one |
| Search.PatchNext | src/algorithm/bellmanford.js:26-34 | writing the next neighbour's final record, or leaving it when it does not change, extends a turn by one neighbour |
| Search.PatchEnds | src/algorithm/bellmanford.js:26-34 | a turn that has written every neighbour's final record, where nothing else changes, has produced the whole final grid |
| Search.ForestReaches | src/algorithm/astar.js:47 | a reached non-wall cell of a forest can be walked to from the start |
| Search.RelaxedIff | src/algorithm/bellmanford.js:50-59 | the grid-wide fixed point holds exactly when it holds node by node |
| Search.WallsUnreached | src/algorithm/bellmanford.js:23-27 | in a forest a wall other than the start has infinite cost and no back-link |
| Search.RelaxedBoundsWalks | src/algorithm/bellmanford.js:19-46 | at the fixed point every wall-free walk from the start ends at a reached cell whose cost is at most its number of steps |
| Search.RelaxedChainExact | src/algorithm/bellmanford.js:19-46 | at the fixed point a reached cell's chain starts at the start and has exactly cost + 1 nodes |
| Search.FixedPointIsShortest | src/algorithm/bellmanford.js:19-46 | at the fixed point, with a non-wall start, a cell's cost is finite if and only if it is reachable, and then it is the length of a shortest walk |
| OpenSet.KeyOf | src/algorithm/astar.js:30-33 | the sort key of a record: `f`, then `g` |
| OpenSet.Compare | src/algorithm/astar.js:30-33 | the comparator as written answers zero exactly for equal keys |
| OpenSet.KeyLe | src/algorithm/astar.js:30-33 | on reached nodes, `a` may precede `b` exactly when the comparator answers zero or less |
| OpenSet.KeyLeIsTotalPreorder | src/algorithm/astar.js:30-33 | the `(f, g)` comparator orders any two keys and is transitive |
| OpenSet.Insert | src/algorithm/astar.js:30-33 | inserting into a sorted list keeps it sorted by the comparator and adds exactly the inserted element |
| OpenSet.AppendSorted | src/algorithm/astar.js:30-33 | an element whose key is not below the last one may be appended to a sorted list |
| OpenSet.InsertBelow | src/algorithm/astar.js:30-33 | a larger last element may follow the insertion into the rest, keeping order and contents |
| OpenSet.SortOpen | src/algorithm/astar.js:30-33 | the sorted open set is ordered by `(f, g)` and is a permutation of the open set |
| OpenSet.NoDupCounts | src/algorithm/astar.js:61-63 | a list is duplicate-free exactly when its multiset counts every element at most once |
| OpenSet.PermutationNoDup | src/algorithm/astar.js:30-35 | reordering a duplicate-free open set keeps it duplicate-free |
| OpenSet.SortedHeadLeast | src/algorithm/astar.js:35 | the first element of the sorted list has the least key |
| OpenSet.ShiftFacts | src/algorithm/astar.js:35 | shifting removes exactly the head, and a duplicate-free open set leaves a duplicate-free rest without the head |
| OpenSet.PopBest | src/algorithm/astar.js:30-35 | the popped node was open, has the least `f` and then the least `g` of all open nodes, and the rest is the open set without it |
| BellmanFord.AllNodes | src/algorithm/bellmanford.js:74-82 | lists every cell exactly once, in row-major order, rows × cols of them |
| BellmanFord.Unreached | src/algorithm/bellmanford.js:11-13 | a reset record is unreached, unlinked and unvisited, with every other field kept |
| BellmanFord.Initialize | src/algorithm/bellmanford.js:9-15 | every record is reset, the start then has distance 0, and nothing else changes |
| BellmanFord.InitialState | src/algorithm/bellmanford.js:9-15 | after step 1 the back-links form a forest rooted at the start and nothing is visited |
| BellmanFord.LoweredKeepsCover | src/algorithm/bellmanford.js:29-32 | lowering distances keeps every walk bound already established |
| BellmanFord.StepFromRelaxed | src/algorithm/bellmanford.js:22-34 | once no edge out of a node can be relaxed, walks covered up to it are covered one step further |
| BellmanFord.PassCovers | src/algorithm/bellmanford.js:19-35 | a pass in which every node's last steps are covered extends coverage to walks one step longer |
| BellmanFord.LoweredTrans | src/algorithm/bellmanford.js:26-33 | distances that never rise compose over several relaxations |
| BellmanFord.RelaxStep | src/algorithm/bellmanford.js:29-32 | one relaxation keeps the forest, raises no distance, and keeps every offer already made |
| BellmanFord.Turn | src/algorithm/bellmanford.js:23-34 | the grid after node `u`'s turn: a non-wall neighbour of a reached non-wall `u` that gains from `u`'s distance plus one takes it and links to `u`; every other record stays |
| BellmanFord.IdleTurn | src/algorithm/bellmanford.js:23 | a wall or an unreached node changes nothing on its turn |
| BellmanFord.TurnStep | src/algorithm/bellmanford.js:26-33 | one neighbour's offer keeps the forest, raises no distance, and writes that neighbour's final record |
| BellmanFord.TurnEnds | src/algorithm/bellmanford.js:24-34 | once every neighbour has had its offer, the grid is `Turn` of the old one and no edge out of the node can be relaxed |
| BellmanFord.RelaxNode | src/algorithm/bellmanford.js:22-34 | one node's turn leaves exactly `Turn` of the old grid and reports a change exactly when the grid changed; it keeps the forest, raises no distance, and leaves no edge out of the node improvable |
| BellmanFord.PassStep | src/algorithm/bellmanford.js:22-35 | one node's turn advances the pass state: coverage kept and the node's last steps covered |
| BellmanFord.CoverStep | src/algorithm/bellmanford.js:22-35 | the coverage part of a node's turn |
| BellmanFord.PassEnds | src/algorithm/bellmanford.js:19-35 | a finished pass covers walks one step longer, and a pass without updates is at the fixed point |
| BellmanFord.PassUpTo | src/algorithm/bellmanford.js:20-35 | the grid after the first `j` nodes' turns, each turn (`Turn`) applied to the grid the one before it left; keeps the grid's shape |
| BellmanFord.PassTrack | src/algorithm/bellmanford.js:22-35 | one more turn extends the closed form by that node's `Turn`, and a node whose distance dropped during the pass stays below its distance before the pass |
| BellmanFord.TrackEnds | src/algorithm/bellmanford.js:20-45 | at the end of a pass the update flag is set exactly when the grid differs from the grid before the pass |
| BellmanFord.TurnInPass | src/algorithm/bellmanford.js:22-35 | a node's turn as `RelaxNode` leaves it advances both the closed form and the coverage bookkeeping of the pass |
| BellmanFord.RelaxPass | src/algorithm/bellmanford.js:20-35 | the pass leaves exactly the grid of every node's turn in the order of `nodes` (`PassUpTo`); `updated` is set exactly when the grid changed; no distance rises and coverage grows by one step; with no update no edge can be relaxed |
| BellmanFord.PendingFacts | src/algorithm/bellmanford.js:38-43 | the nodes a marking step takes are exactly the reached, unvisited ones, each once |
| BellmanFord.MarkReached | src/algorithm/bellmanford.js:38-43 | the trace grows by exactly the reached, unvisited nodes in row-major order, and exactly those become visited |
| BellmanFord.MarkKeepsLinks | src/algorithm/bellmanford.js:38-43 | the marking step keeps the forest, the walls, the coverage and the fixed point |
| BellmanFord.MarkKeepsFrame | src/algorithm/bellmanford.js:38-43 | the marking step changes only `isVisited` |
| BellmanFord.MarkTrace | src/algorithm/bellmanford.js:38-43 | after marking, the trace is duplicate-free, lists exactly the visited nodes, and holds every reached node |
| BellmanFord.PassAndMark | src/algorithm/bellmanford.js:19-46 | a pass and its marking step move the loop state from `i` passes to `i + 1` |
| BellmanFord.NegativeCycleScan | src/algorithm/bellmanford.js:50-59 | the scan warns if and only if some edge between two non-wall neighbours can still be relaxed; it writes nothing |
| BellmanFord.FullCoverRelaxed | src/algorithm/bellmanford.js:17-19 | after `numNodes - 1` passes' worth of coverage no edge can be relaxed (a back-link chain repeats no cell) |
| BellmanFord.CoveredOnChain | src/algorithm/bellmanford.js:17-19 | a node on a simple chain from the start is within its position on it |
| BellmanFord.CoveredPastChain | src/algorithm/bellmanford.js:17-19 | a neighbour off such a chain is within one step more than the chain |
| BellmanFord.ExtendedWalk | src/algorithm/bellmanford.js:24-27 | one step to a cell off a simple walk gives a longer simple walk |
| BellmanFord.Concluded | src/algorithm/bellmanford.js:19-46 | whether the loop ran all passes or stopped early, no edge can be relaxed and the trace holds each reached node once |
| BellmanFord.BellmanFord | src/algorithm/bellmanford.js:5-62 | needs only the start in the grid (the finish is never read); only the scratch fields change; the back-links form a forest at the fixed point, so no warning; the trace is duplicate-free, no longer than the node count, and lists exactly the visited nodes, which are the reached ones on a grid of more than one cell (a one-cell grid runs no pass and leaves the start unvisited) |
| BellmanFord.NodesInShortestPathOrder | src/algorithm/bellmanford.js:86-94 | returns the back-link chain ending at the finish: non-empty, finish last, each node linked to the one before, the first unlinked |
| AStar.Heuristic | src/algorithm/astar.js:8-10 | the Manhattan distance is zero exactly for equal cells and at least each coordinate gap |
| AStar.HeuristicConsistent | src/algorithm/astar.js:8-10 | the heuristic is symmetric and changes by at most one per step |
| AStar.HeuristicAdmissible | src/algorithm/astar.js:8-10 | no 4-connected walk is shorter than the heuristic between its ends |
| AStar.PlusH | src/algorithm/astar.js:58 | `g + h` is finite exactly when `g` is, and then adds the heuristic |
| AStar.ScoresReset | src/algorithm/astar.js:15-18 | a reset record has infinite `g` and `f`, no back-link, is unvisited, and keeps every other field |
| AStar.ResetScores | src/algorithm/astar.js:13-23 | every record is reset, the start then has `g = 0` and `f = h(start)`, and nothing else changes |
| AStar.SameScoresSameMeasure | src/algorithm/astar.js:41-44 | marking a node visited leaves the loop measure unchanged |
| AStar.MeasureDrops | src/algorithm/astar.js:55-58 | lowering some `g` without raising any shrinks the termination measure |
| AStar.GLoweredTrans | src/algorithm/astar.js:55-58 | `g` values that never rise compose over several improvements |
| AStar.ImproveStep | src/algorithm/astar.js:55-58 | one improvement keeps the forest and `f == g + h`, raises no `g`, and keeps every offer already made |
| AStar.PushImproved | src/algorithm/astar.js:60-63 | after the push the open set is duplicate-free and holds exactly the old open nodes and the improved ones |
| AStar.Expansion | src/algorithm/astar.js:49-65 | the grid after a node's expansion: each non-wall neighbour whose `g` would drop to `current.g + 1` links to the node and takes that `g` and `f = g + h`; every other record stays |
| AStar.ExpansionStep | src/algorithm/astar.js:50-64 | one neighbour's offer writes that neighbour's final record and keeps earlier offers |
| AStar.Offer | src/algorithm/astar.js:51-64 | the neighbour is improved exactly when it is not a wall and `current.g + 1` is below its `g`; it then gets the new link, `g` and `f` and is pushed unless it is open, and nothing else changes; the expansion state is kept |
| AStar.Expand | src/algorithm/astar.js:49-65 | leaves exactly `Expansion` of the old grid, so no edge out of the node can be improved; the open set, duplicate-free, holds exactly the old open nodes and the improved ones |
| AStar.ExpandEnds | src/algorithm/astar.js:49-65 | once every neighbour has had its offer, no edge out of the node can be improved and the grid is `Expansion` of the old one |
| AStar.InitialSearching | src/algorithm/astar.js:22-26 | right after the reset the loop state holds, with only the start open |
| AStar.DropWall | src/algorithm/astar.js:38 | a popped wall (only ever the start) is dropped and the loop state holds for the rest |
| AStar.LoweredKeepsRelaxedFrom | src/algorithm/astar.js:55-58 | lowering other nodes' `g` keeps a node unimprovable whose own `g` stayed |
| AStar.SameScoresKeepRelaxedFrom | src/algorithm/astar.js:41-44 | changing neither walls nor `g` keeps a node unimprovable |
| AStar.MarkFacts | src/algorithm/astar.js:41-44 | marking a node visited keeps the frame, the forest and the scores, and adds only it to the visited nodes |
| AStar.VisitedOnlyKeepsFrame | src/algorithm/astar.js:41-44 | changing `isVisited` alone keeps the run's frame |
| AStar.MarkCurrent | src/algorithm/astar.js:41-44 | after marking a popped non-finish node, the trace is still duplicate-free and lists exactly the visited nodes |
| AStar.MarkVisited | src/algorithm/astar.js:41-44 | a node is marked visited and appended to the trace exactly when it was not visited before |
| AStar.ExpandKeeps | src/algorithm/astar.js:49-65 | expanding a popped node restores the loop state |
| AStar.FinishFound | src/algorithm/astar.js:47 | when the finish is popped it is the last node of the trace and reachable from the start |
| AStar.Exhausted | src/algorithm/astar.js:68-69 | when the open set runs out no edge can be improved and the finish is not reachable |
| AStar.ExpandDecreases | src/algorithm/astar.js:28-66 | an expansion after a pop makes the loop measure go down |
| AStar.ExpandPopped | src/algorithm/astar.js:49-65 | the grid becomes exactly `Expansion` of the popped node; the new open set holds the rest and exactly the cells whose `g` dropped, each once; the loop state is restored with a smaller measure |
| AStar.VisitedAt | src/algorithm/astar.js:41-44 | the grid after marking: the popped record visited, every other record unchanged |
| AStar.Visit | src/algorithm/astar.js:41-65 | the trace gains the popped node exactly when it was unvisited; it stops exactly at the finish, with the marked grid and the final outcome; otherwise the grid is `Expansion` of the marked grid, the open set is the rest plus exactly the cells whose `g` dropped, and the loop state is restored with a smaller measure |
| AStar.AStar | src/algorithm/astar.js:6-70 | only the scratch fields change; the links form a forest with `f == g + h`; the trace is duplicate-free and lists exactly the visited non-wall nodes; the finish is its last node exactly when it is reachable; a walled start visits nothing |
| Visualizer.CreateNode | src/pages/pathFindingVisualizer.jsx:154-167 | a record at its own position, not a wall, unreached, start or finish exactly at the given coordinates |
| Visualizer.InitialGrid | src/pages/pathFindingVisualizer.jsx:141-152 | a new 15 by 40 grid whose cell at `[r][c]` is `createNode(c, r, …)` |
| Visualizer.InitialGridLayout | src/pages/pathFindingVisualizer.jsx:141-167 | the initial grid is well formed and wall-free, nothing is reached, and the start and finish flags sit exactly at the given coordinates |
| Visualizer.Scrubbed | src/pages/pathFindingVisualizer.jsx:86-95 | a reset record keeps position, roles and wall and is unreached; resetting an unreached record changes nothing |
| Visualizer.FreshGridFrom | src/pages/pathFindingVisualizer.jsx:81-100 | a new grid of the same size holding every record with its scratch fields reset |
| Visualizer.FreshGridLayout | src/pages/pathFindingVisualizer.jsx:81-100 | the reset grid has the walls of the original, nothing reached, and stays well formed |
| Visualizer.WithWallToggled | src/pages/pathFindingVisualizer.jsx:169-178 | a new grid equal to the input with only the wall at (row, col) flipped |
| Visualizer.ToggleFlipsOneWall | src/pages/pathFindingVisualizer.jsx:169-178 | a toggle flips the wall at that cell, changes no other field and no other cell |
| Visualizer.ToggleTwiceRestores | src/pages/pathFindingVisualizer.jsx:169-178 | toggling the same cell twice gives back the original grid |
| Visualizer.ClampInput | src/pages/pathFindingVisualizer.jsx:200-208 | unparsable input becomes 0; the result lies in `[0, max]` and equals the input when the input is in range |
| Visualizer.ClampIsNearest | src/pages/pathFindingVisualizer.jsx:200-208 | clamping picks the accepted value nearest the typed one and is idempotent |
| Visualizer.ClampedInputsInGrid | src/pages/pathFindingVisualizer.jsx:200-262 | whatever is typed, and with the constructor defaults, the start and finish are cells of the 15 by 40 grid |
| Visualizer.ReportsPath | src/pages/pathFindingVisualizer.jsx:320-327 | the page shows a path when its cost exceeds 1, and "no path" otherwise |
| Visualizer.PathCost | src/pages/pathFindingVisualizer.jsx:132 | the cost is the path's node count |
| Visualizer.ChainReportsPath | src/pages/pathFindingVisualizer.jsx:320-327 | with a forest, the page reports a path exactly when the finish is not the start and was reached; the path is then a walk from the start |
| Visualizer.WalledStartReachesNothing | src/algorithm/bellmanford.js:15-34 | with a walled start, a forest reaches no other cell and no walk leaves the start |
| Visualizer.FixedPointReportsShortest | src/pages/pathFindingVisualizer.jsx:320-327 | at the fixed point a path is reported exactly when the finish is another reachable cell, and its cost is at most any walk's node count |
| Visualizer.AStarReportsPath | src/pages/pathFindingVisualizer.jsx:320-327 | after A*, a path is reported exactly when the finish is another reachable cell |
| Visualizer.SameLayoutSameReach | src/pages/pathFindingVisualizer.jsx:107 | grids with the same walls have the same walks and reachability |
| Visualizer.BellmanFordReport | src/pages/pathFindingVisualizer.jsx:120-132 | after Bellman-Ford on the fresh grid, the reported path is a shortest wall-free walk from start to finish, and exists exactly when the finish is another reachable cell |
| Visualizer.AStarReport | src/pages/pathFindingVisualizer.jsx:123-132 | after A* on the fresh grid, the reported path is a wall-free walk from start to finish, and exists exactly when the finish is another reachable cell |
| Visualizer.Visualize | src/pages/pathFindingVisualizer.jsx:103-138 | cost is the path's node count; "no path" is shown exactly when the finish is the start or unreachable; a reported path is a wall-free walk from start to finish, a shortest one after Bellman-Ford |

## Left out

- React state, lifecycle, rendering and the mouse handlers
  (src/pages/pathFindingVisualizer.jsx:27-46, 180-341) are UI plumbing. The
  grid operations they call are modelled.
- The `setTimeout` and DOM animation (src/pages/pathFindingVisualizer.jsx:49-78)
  is timers and DOM.
- The execution time (`performance.now`, `toFixed`) is wall-clock time and
  floating-point formatting.
- `console.warn` in the final scan is modelled as the returned boolean
  `negativeCycleWarning`.
- `dijkstra` is not part of this model. Neither is the
  `getNodesInShortestPathOrder` that the page imports from the same file.
  `Visualize` uses the identical copy in src/algorithm/bellmanford.js:86-94,
  and it offers only the Bellman-Ford and A* choices.
- src/App.js is page composition only.
- The JavaScript `Array.prototype.sort` algorithm is replaced by a stable
  insertion sort. The contracts state order by the comparator and
  permutation, not stability.
- Object identity: a cell position stands for the record it holds.
  `previousNode`, `openSet.includes` and `current === finishNode` compare
  positions.
- The heuristic and `getNeighbors` read a record's `row` and `col`
  (src/algorithm/astar.js:9, src/algorithm/bellmanford.js:66); `Heuristic` and
  `Grid.Neighbors` take the cell's position instead. The two agree on grids
  built by `createNode` (`WellFormed`), and every grid operation keeps that.
- `parseInt` is modelled by its result: `Option<int>`, with `None` for `NaN`.
- Grids are rectangular `array2`s. The source's arrays of rows could be
  jagged, but the page never builds one.
- JavaScript numbers are doubles. The costs here are unbounded naturals,
  which is exact for a grid of 600 cells.
- BellmanFord.BellmanFord: does not restate its final grid as one closed
  form over all passes. Each pass's grid is stated exactly by `RelaxPass`
  (`PassUpTo`), and each marking step by `MarkReached`.
- AStar.AStar: does not restate its trace as a function of the sequence of
  pops. Each pop's effect on the trace, the grid and the open set is stated
  exactly by `Visit`.
- AStar.AStar: does not state that the path A* leaves behind is a shortest
  one. It states only that it is a wall-free walk from the start, present
  exactly when the finish is reachable.
- Visualizer.Visualize: states the shortest-path bound only for the
  Bellman-Ford choice, for the same reason.
