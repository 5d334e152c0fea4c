/** The grid helpers of the visualizer page: building the 15 by 40 grid,
    clearing a grid's scratch fields before a run, toggling walls, clamping
    the start and finish inputs, and turning a search's result into the
    reported cost. */
module Visualizer {
  import opened Grid
  import opened Search
  import BellmanFord
  import AStar

  /** The page's grid has 15 rows of 40 columns. */
  const ROWS: nat := 15
  const COLS: nat := 40

  /** The largest row and column the start and finish inputs accept. */
  const MAX_ROW: nat := 14
  const MAX_COL: nat := 39

  /** Where the start and the finish are before the user moves them. */
  const DEFAULT_START: Pos := Pos(0, 0)
  const DEFAULT_FINISH: Pos := Pos(14, 39)

  /** A record whose scratch fields say "not reached by any search". */
  predicate Cleared(n: Node) {
    n.distance == Infinity && !n.isVisited && n.previousNode == None && n.g == Infinity && n.f == Infinity
  }

  /** `a` and `b` agree on position, roles and wall. */
  predicate SameRoles(a: Node, b: Node) {
    a.col == b.col && a.row == b.row && a.isStart == b.isStart && a.isFinish == b.isFinish && a.isWall == b.isWall
  }

  /** `createNode`: the record at (`row`, `col`), marked as start or finish
      exactly when it sits at the given start or finish coordinates. */
  function CreateNode(col: nat, row: nat, startRow: int, startCol: int, finishRow: int, finishCol: int): (n: Node)
    ensures n.row == row && n.col == col && !n.isWall && Cleared(n)
    ensures n.isStart <==> row == startRow && col == startCol
    ensures n.isFinish <==> row == finishRow && col == finishCol
  {
    Node(col, row, row == startRow && col == startCol, row == finishRow && col == finishCol,
         Infinity, false, false, None, Infinity, Infinity)
  }

  /** `getInitialGrid`: a fresh 15 by 40 grid of records made by `createNode`. */
  method InitialGrid(startRow: int, startCol: int, finishRow: int, finishCol: int) returns (grid: array2<Node>)
    ensures fresh(grid) && grid.Length0 == ROWS && grid.Length1 == COLS
    ensures forall r, c :: 0 <= r < ROWS && 0 <= c < COLS ==>
      grid[r, c] == CreateNode(c, r, startRow, startCol, finishRow, finishCol)
  {
    grid := new Node[ROWS, COLS];
    for row := 0 to ROWS
      invariant forall r, c :: 0 <= r < row && 0 <= c < COLS ==>
        grid[r, c] == CreateNode(c, r, startRow, startCol, finishRow, finishCol)
    {
      for col := 0 to COLS
        invariant forall r, c :: 0 <= r < row && 0 <= c < COLS ==>
          grid[r, c] == CreateNode(c, r, startRow, startCol, finishRow, finishCol)
        invariant forall c :: 0 <= c < col ==> grid[row, c] == CreateNode(c, row, startRow, startCol, finishRow, finishCol)
      {
        grid[row, col] := CreateNode(col, row, startRow, startCol, finishRow, finishCol);
      }
    }
  }

  /** A grid as `getInitialGrid` leaves it: every record stores its own
      position, there are no walls, nothing is reached, and exactly the
      cells at the given coordinates are the start and the finish. */
  lemma InitialGridLayout(grid: array2<Node>, startRow: int, startCol: int, finishRow: int, finishCol: int)
    requires grid.Length0 == ROWS && grid.Length1 == COLS
    requires forall r, c :: 0 <= r < ROWS && 0 <= c < COLS ==>
      grid[r, c] == CreateNode(c, r, startRow, startCol, finishRow, finishCol)
    ensures WellFormed(View(grid))
    ensures forall p :: InGrid(View(grid), p) ==> !At(View(grid), p).isWall && Cleared(At(View(grid), p))
    ensures forall p :: InGrid(View(grid), p) ==>
      (At(View(grid), p).isStart <==> p.row == startRow && p.col == startCol) &&
      (At(View(grid), p).isFinish <==> p.row == finishRow && p.col == finishCol)
    ensures 0 <= startRow <= MAX_ROW && 0 <= startCol <= MAX_COL ==>
      InGrid(View(grid), Pos(startRow, startCol)) && At(View(grid), Pos(startRow, startCol)).isStart
  {
    var cs := View(grid);
    forall p | InGrid(cs, p)
      ensures At(cs, p) == CreateNode(p.col, p.row, startRow, startCol, finishRow, finishCol)
    {
      assert At(cs, p) == grid[p.row, p.col];
    }
  }

  /** A record with the scratch fields reset as `createFreshGridFrom` does:
      roles and walls kept, nothing reached; a cleared record is its own reset. */
  function Scrubbed(n: Node): (n': Node)
    ensures SameRoles(n, n') && Cleared(n')
    ensures Cleared(n) ==> n' == n
  {
    n.(distance := Infinity, isVisited := false, previousNode := None, g := Infinity, f := Infinity)
  }

  /** `createFreshGridFrom`: a new grid of the same size holding every
      record with its scratch fields reset. */
  method FreshGridFrom(grid: array2<Node>) returns (newGrid: array2<Node>)
    ensures fresh(newGrid) && newGrid.Length0 == grid.Length0 && newGrid.Length1 == grid.Length1
    ensures forall r, c :: 0 <= r < grid.Length0 && 0 <= c < grid.Length1 ==> newGrid[r, c] == Scrubbed(grid[r, c])
  {
    newGrid := new Node[grid.Length0, grid.Length1];
    for r := 0 to grid.Length0
      invariant forall i, j :: 0 <= i < r && 0 <= j < grid.Length1 ==> newGrid[i, j] == Scrubbed(grid[i, j])
    {
      for c := 0 to grid.Length1
        invariant forall i, j :: 0 <= i < r && 0 <= j < grid.Length1 ==> newGrid[i, j] == Scrubbed(grid[i, j])
        invariant forall j :: 0 <= j < c ==> newGrid[r, j] == Scrubbed(grid[r, j])
      {
        newGrid[r, c] := Scrubbed(grid[r, c]);
      }
    }
  }

  /** A reset grid has the walls of the original and nothing reached. */
  lemma FreshGridLayout(grid: array2<Node>, newGrid: array2<Node>)
    requires newGrid.Length0 == grid.Length0 && newGrid.Length1 == grid.Length1
    requires forall r, c :: 0 <= r < grid.Length0 && 0 <= c < grid.Length1 ==> newGrid[r, c] == Scrubbed(grid[r, c])
    ensures SameLayout(View(grid), View(newGrid))
    ensures forall p :: InGrid(View(newGrid), p) ==> Cleared(At(View(newGrid), p))
    ensures WellFormed(View(grid)) ==> WellFormed(View(newGrid))
  {
    var a, b := View(grid), View(newGrid);
    forall p | InGrid(a, p) ensures At(b, p) == Scrubbed(At(a, p)) {
      assert At(b, p) == newGrid[p.row, p.col];
    }
  }

  /** The grid `cs` with the wall at `p` flipped. */
  ghost function Toggled(cs: Cells, p: Pos): Cells
    requires InGrid(cs, p)
  {
    Update(cs, p, At(cs, p).(isWall := !At(cs, p).isWall))
  }

  /** `getNewGridWithWallToggled`: a copy of the grid in which only the
      record at (`row`, `col`) is replaced, by one with its wall flipped;
      the grid passed in is left as it was. */
  method WithWallToggled(grid: array2<Node>, row: nat, col: nat) returns (newGrid: array2<Node>)
    requires InBounds(Pos(row, col), grid.Length0, grid.Length1)
    ensures fresh(newGrid) && newGrid.Length0 == grid.Length0 && newGrid.Length1 == grid.Length1
    ensures View(newGrid) == Toggled(View(grid), Pos(row, col))
  {
    newGrid := new Node[grid.Length0, grid.Length1]((r, c) requires 0 <= r < grid.Length0 && 0 <= c < grid.Length1 reads grid =>
      grid[r, c]);
    assert View(newGrid) == View(grid) by {
      var a, b := View(newGrid), View(grid);
      forall r | 0 <= r < |a| ensures a[r] == b[r] {
        assert forall c | 0 <= c < |a[r]| :: a[r][c] == newGrid[r, c] == grid[r, c] == b[r][c];
      }
    }
    var node := grid[row, col];
    SetNode(newGrid, Pos(row, col), node.(isWall := !node.isWall));
  }

  /** Toggling changes the wall at `p` and nothing else: positions, roles and
      scratch fields stay, and every other cell keeps its wall. */
  lemma ToggleFlipsOneWall(cs: Cells, p: Pos)
    requires InGrid(cs, p)
    ensures forall q :: InGrid(cs, q) <==> InGrid(Toggled(cs, p), q)
    ensures At(Toggled(cs, p), p).isWall != At(cs, p).isWall
    ensures forall q :: InGrid(cs, q) ==>
      At(Toggled(cs, p), q) == At(cs, q).(isWall := At(Toggled(cs, p), q).isWall) &&
      (q != p ==> At(Toggled(cs, p), q).isWall == At(cs, q).isWall)
    ensures WellFormed(cs) ==> WellFormed(Toggled(cs, p))
  {
    var t := Toggled(cs, p);
    assert forall q :: InGrid(t, q) ==> InGrid(cs, q);
  }

  /** Toggling the same cell twice gives back the grid. */
  lemma ToggleTwiceRestores(cs: Cells, p: Pos)
    requires InGrid(cs, p)
    ensures InGrid(Toggled(cs, p), p) && Toggled(Toggled(cs, p), p) == cs
  {
    var t := Toggled(cs, p);
    var tt := Toggled(t, p);
    assert |tt| == |cs|;
    forall r | 0 <= r < |cs| ensures tt[r] == cs[r] {
      assert |tt[r]| == |cs[r]|;
      forall c | 0 <= c < |cs[r]| ensures tt[r][c] == cs[r][c] {
        assert tt[r][c] == At(tt, Pos(r, c)) && cs[r][c] == At(cs, Pos(r, c));
      }
    }
  }

  /** The four input handlers: a value that does not parse (`NaN`, here
      `None`) becomes 0, and the result is clamped into `[0, maxValue]`. */
  function ClampInput(parsed: Option<int>, maxValue: nat): (v: nat)
    ensures v <= maxValue
    ensures parsed.None? ==> v == 0
    ensures parsed.Some? && 0 <= parsed.value <= maxValue ==> v == parsed.value
    ensures parsed.Some? && parsed.value < 0 ==> v == 0
    ensures parsed.Some? && parsed.value > maxValue ==> v == maxValue
  {
    var value := if parsed.None? then 0 else parsed.value;
    if value < 0 then 0 else if value > maxValue then maxValue else value
  }

  /** Clamping picks the accepted value nearest to the typed one, and
      clamping an accepted value changes nothing. */
  lemma ClampIsNearest(x: int, maxValue: nat, y: int)
    requires 0 <= y <= maxValue
    ensures AbsDiff(ClampInput(Some(x), maxValue), x) <= AbsDiff(y, x)
    ensures ClampInput(Some(ClampInput(Some(x), maxValue)), maxValue) == ClampInput(Some(x), maxValue)
  {
  }

  /** Whatever is typed into the four inputs, the start and the finish are
      cells of the page's grid. */
  lemma ClampedInputsInGrid(startRow: Option<int>, startCol: Option<int>, finishRow: Option<int>, finishCol: Option<int>)
    ensures InBounds(Pos(ClampInput(startRow, MAX_ROW), ClampInput(startCol, MAX_COL)), ROWS, COLS)
    ensures InBounds(Pos(ClampInput(finishRow, MAX_ROW), ClampInput(finishCol, MAX_COL)), ROWS, COLS)
    ensures InBounds(DEFAULT_START, ROWS, COLS) && InBounds(DEFAULT_FINISH, ROWS, COLS)
  {
  }

  /** `pathCost`: the number of nodes on the path, 0 for an empty one. */
  function PathCost(path: seq<Pos>): (cost: nat)
    ensures cost == |path|
  {
    if |path| > 0 then |path| else 0
  }

  /** The page reports a path when the cost exceeds 1, and "no path" otherwise. */
  predicate ReportsPath(cost: nat) {
    cost > 1
  }

  /** In a forest, the back-link chain of `finish` makes the page report a
      path exactly when `finish` is not the start and was reached; the chain
      is then a wall-free walk from the start to `finish`. */
  lemma ChainReportsPath(cs: Cells, start: Pos, m: Metric, finish: Pos, path: seq<Pos>)
    requires Forest(cs, start, m) && IsBackChain(cs, finish, path)
    ensures ReportsPath(PathCost(path)) <==> finish != start && Cost(cs, m, finish).Finite?
    ensures ReportsPath(PathCost(path)) ==> IsWalk(cs, path) && path[0] == start
  {
    ChainEnds(cs, start, m, finish, path);
    ChainAscends(cs, m, finish, path);
  }

  /** When the start is a wall a forest reaches nothing else, and no walk leaves it. */
  lemma WalledStartReachesNothing(cs: Cells, start: Pos, m: Metric, p: Pos)
    requires Forest(cs, start, m) && At(cs, start).isWall && InGrid(cs, p) && p != start
    ensures Cost(cs, m, p).Infinity?
    ensures !Reachable(cs, start, p)
  {
    var chain := Chain(cs, m, p);
    ChainEnds(cs, start, m, p, chain);
    ChainAscends(cs, m, p, chain);
  }

  /** At a fixed point the page reports a path exactly when the finish is
      another cell that a wall-free walk reaches from the start, and the
      reported cost is then the node count of a shortest such walk. */
  lemma FixedPointReportsShortest(cs: Cells, start: Pos, m: Metric, finish: Pos, path: seq<Pos>)
    requires Forest(cs, start, m) && Relaxed(cs, m) && IsBackChain(cs, finish, path)
    ensures ReportsPath(PathCost(path)) <==> finish != start && Reachable(cs, start, finish)
    ensures ReportsPath(PathCost(path)) ==>
      forall w :: IsWalk(cs, w) && w[0] == start && w[|w| - 1] == finish ==> PathCost(path) <= |w|
  {
    ChainReportsPath(cs, start, m, finish, path);
    ChainEnds(cs, start, m, finish, path);
    if At(cs, start).isWall {
      if finish != start {
        WalledStartReachesNothing(cs, start, m, finish);
      }
    } else {
      FixedPointIsShortest(cs, start, m, finish);
    }
  }

  /** After A*: the page reports a path exactly when the finish is another
      cell that a wall-free walk reaches from the start. */
  lemma AStarReportsPath(cs: Cells, start: Pos, finish: Pos, path: seq<Pos>, trace: seq<Pos>)
    requires Forest(cs, start, G) && IsBackChain(cs, finish, path)
    requires forall p :: p in trace ==> InGrid(cs, p) && At(cs, p).g.Finite?
    requires finish in trace <==> Reachable(cs, start, finish)
    requires finish !in trace ==> Relaxed(cs, G)
    ensures ReportsPath(PathCost(path)) <==> finish != start && Reachable(cs, start, finish)
    ensures ReportsPath(PathCost(path)) ==> IsWalk(cs, path) && path[0] == start
  {
    ChainReportsPath(cs, start, G, finish, path);
    if finish !in trace {
      FixedPointReportsShortest(cs, start, G, finish, path);
    }
  }

  /** Walls decide walks: grids with the same layout have the same reachability. */
  lemma SameLayoutSameReach(a: Cells, b: Cells, from: Pos, to: Pos)
    requires SameLayout(a, b)
    ensures Reachable(a, from, to) <==> Reachable(b, from, to)
    ensures forall w :: IsWalk(a, w) <==> IsWalk(b, w)
  {
    forall w ensures IsWalk(a, w) <==> IsWalk(b, w) {
      SameLayoutSameWalks(a, b, w);
    }
  }

  /** Bellman-Ford's result, read on the grid `layout` whose walls the run saw. */
  lemma BellmanFordReport(layout: Cells, before: Cells, after: Cells, start: Pos, finish: Pos, path: seq<Pos>)
    requires SameLayout(layout, before) && BellmanFord.Frame(before, after)
    requires Forest(after, start, Distance) && Relaxed(after, Distance) && IsBackChain(after, finish, path)
    ensures ReportsPath(PathCost(path)) <==> finish != start && Reachable(layout, start, finish)
    ensures ReportsPath(PathCost(path)) ==> IsWalk(layout, path) && path[0] == start && path[|path| - 1] == finish
    ensures ReportsPath(PathCost(path)) ==>
      forall w :: IsWalk(layout, w) && w[0] == start && w[|w| - 1] == finish ==> PathCost(path) <= |w|
  {
    FixedPointReportsShortest(after, start, Distance, finish, path);
    ChainReportsPath(after, start, Distance, finish, path);
    assert SameLayout(layout, after) by {
      forall p | InGrid(layout, p) ensures At(after, p).isWall == At(layout, p).isWall {
        assert InGrid(before, p);
      }
    }
    SameLayoutSameReach(layout, after, start, finish);
  }

  /** A*'s result, read on the grid `layout` whose walls the run saw. */
  lemma AStarReport(layout: Cells, before: Cells, after: Cells, start: Pos, finish: Pos, path: seq<Pos>, trace: seq<Pos>)
    requires SameLayout(layout, before) && AStar.Outcome(before, after, start, finish, trace)
    requires IsBackChain(after, finish, path)
    ensures ReportsPath(PathCost(path)) <==> finish != start && Reachable(layout, start, finish)
    ensures ReportsPath(PathCost(path)) ==> IsWalk(layout, path) && path[0] == start && path[|path| - 1] == finish
  {
    AStarReportsPath(after, start, finish, path, trace);
    assert SameLayout(layout, after) by {
      forall p | InGrid(layout, p) ensures At(after, p).isWall == At(layout, p).isWall {
        assert InGrid(before, p);
      }
    }
    SameLayoutSameReach(layout, after, start, finish);
  }

  /** The two searches the page can run in this model. */
  datatype Algorithm = BellmanFordAlgorithm | AStarAlgorithm

  /** `visualizeAlgorithm` without the timing and the animation: reset a
      copy of the grid, run the chosen search on it, follow the back-links
      from the finish and report the path's node count. A path is reported
      exactly when the finish is another cell reachable from the start
      around the walls; it is then a wall-free walk from start to finish,
      and after Bellman-Ford a shortest one. */
  method Visualize(grid: array2<Node>, start: Pos, finish: Pos, algorithm: Algorithm)
    returns (freshGrid: array2<Node>, visitedNodesInOrder: seq<Pos>, nodesInShortestPathOrder: seq<Pos>, cost: nat)
    requires InBounds(start, grid.Length0, grid.Length1) && InBounds(finish, grid.Length0, grid.Length1)
    ensures fresh(freshGrid)
    ensures cost == |nodesInShortestPathOrder|
    ensures ReportsPath(cost) <==> finish != start && Reachable(View(grid), start, finish)
    ensures ReportsPath(cost) ==>
      IsWalk(View(grid), nodesInShortestPathOrder) && nodesInShortestPathOrder[0] == start &&
      nodesInShortestPathOrder[|nodesInShortestPathOrder| - 1] == finish
    ensures algorithm.BellmanFordAlgorithm? && ReportsPath(cost) ==>
      forall w :: IsWalk(View(grid), w) && w[0] == start && w[|w| - 1] == finish ==> cost <= |w|
  {
    freshGrid := FreshGridFrom(grid);
    FreshGridLayout(grid, freshGrid);
    ghost var before := View(freshGrid);
    match algorithm {
      case BellmanFordAlgorithm =>
        var warning;
        visitedNodesInOrder, warning := BellmanFord.BellmanFord(freshGrid, start, finish);
        nodesInShortestPathOrder := BellmanFord.NodesInShortestPathOrder(freshGrid, finish);
        BellmanFordReport(View(grid), before, View(freshGrid), start, finish, nodesInShortestPathOrder);
      case AStarAlgorithm =>
        visitedNodesInOrder := AStar.AStar(freshGrid, start, finish);
        nodesInShortestPathOrder := BellmanFord.NodesInShortestPathOrder(freshGrid, finish);
        AStarReport(View(grid), before, View(freshGrid), start, finish, nodesInShortestPathOrder, visitedNodesInOrder);
    }
    cost := PathCost(nodesInShortestPathOrder);
  }
}
