/** `aStar` from the A* module: a best-first search over the grid with unit
    edge weights and the Manhattan distance to the finish as heuristic. It
    writes `g`, `f`, `previousNode` and `isVisited` in place and returns the
    nodes in the order they were first popped. */
module AStar {
  import opened Grid
  import opened Search
  import opened OpenSet

  /** `heuristic`: the Manhattan distance between two cells. */
  function Heuristic(a: Pos, b: Pos): (h: nat)
    ensures h == 0 <==> a == b
    ensures h >= AbsDiff(a.row, b.row) && h >= AbsDiff(a.col, b.col)
  {
    AbsDiff(a.row, b.row) + AbsDiff(a.col, b.col)
  }

  /** The heuristic is symmetric and changes by at most one per step. */
  lemma HeuristicConsistent(a: Pos, c: Pos, b: Pos)
    ensures Heuristic(a, b) == Heuristic(b, a)
    ensures Adjacent(a, c) ==> Heuristic(a, b) <= Heuristic(c, b) + 1
  {
  }

  /** The heuristic never overestimates: every 4-connected walk from `w[0]`
      to its last cell takes at least `Heuristic` steps. */
  lemma {:induction false} HeuristicAdmissible(w: seq<Pos>)
    requires |w| > 0 && forall i :: 0 < i < |w| ==> Adjacent(w[i - 1], w[i])
    ensures Heuristic(w[0], w[|w| - 1]) <= |w| - 1
  {
    if |w| > 1 {
      var front := w[..|w| - 1];
      HeuristicAdmissible(front);
      HeuristicConsistent(w[|w| - 1], w[|w| - 2], w[0]);
      HeuristicConsistent(w[|w| - 2], w[0], w[0]);
      HeuristicConsistent(w[|w| - 1], w[0], w[0]);
    }
  }

  /** `g + h`, which stays `Infinity` while `g` is. */
  function PlusH(g: Dist, h: nat): (f: Dist)
    ensures f.Finite? <==> g.Finite?
    ensures g.Finite? ==> f.n == g.n + h
  {
    match g
    case Infinity => Infinity
    case Finite(n) => Finite(n + h)
  }

  /** Every record's `f` is its `g` plus the heuristic to the finish. */
  ghost predicate ScoresOk(cs: Cells, finish: Pos) {
    forall p :: InGrid(cs, p) ==> At(cs, p).f == PlusH(At(cs, p).g, Heuristic(p, finish))
  }

  /** Only A*'s scratch fields (`g`, `f`, `previousNode`, `isVisited`) differ. */
  ghost predicate AFrame(a: Cells, b: Cells) {
    |a| == |b| && (forall r :: 0 <= r < |a| ==> |a[r]| == |b[r]|) &&
    forall p :: InGrid(a, p) ==>
      At(b, p) == At(a, p).(g := At(b, p).g, f := At(b, p).f, previousNode := At(b, p).previousNode,
                            isVisited := At(b, p).isVisited)
  }

  /** Only `g`, `f` and `previousNode` differ, and no `g` went up. */
  ghost predicate GLowered(a: Cells, b: Cells) {
    |a| == |b| && (forall r :: 0 <= r < |a| ==> |a[r]| == |b[r]|) &&
    forall p :: InGrid(a, p) ==>
      At(b, p) == At(a, p).(g := At(b, p).g, f := At(b, p).f, previousNode := At(b, p).previousNode) &&
      !At(a, p).g.Less(At(b, p).g)
  }

  /** A record as lines 15-18 leave it. */
  function ScoresReset(n: Node): (n': Node)
    ensures n'.g == Infinity && n'.f == Infinity && n'.previousNode == None && !n'.isVisited
    ensures n' == n.(g := n'.g, f := n'.f, previousNode := n'.previousNode, isVisited := n'.isVisited)
  {
    n.(g := Infinity, f := Infinity, previousNode := None, isVisited := false)
  }

  /** `cs` is `cs0` after lines 13-23. */
  ghost predicate ResetFrom(cs0: Cells, cs: Cells, start: Pos, finish: Pos) {
    |cs0| == |cs| && (forall r :: 0 <= r < |cs0| ==> |cs0[r]| == |cs[r]|) &&
    forall p :: InGrid(cs0, p) ==>
      At(cs, p) == if p == start then ScoresReset(At(cs0, p)).(g := Finite(0), f := Finite(Heuristic(start, finish)))
                   else ScoresReset(At(cs0, p))
  }

  /** Lines 13-23: clear the scores of every node, row by row, then give the
      start `g = 0` and `f = heuristic(start, finish)`. */
  method ResetScores(grid: array2<Node>, start: Pos, finish: Pos)
    requires InBounds(start, grid.Length0, grid.Length1)
    modifies grid
    ensures ResetFrom(old(View(grid)), View(grid), start, finish)
  {
    ghost var cs0 := View(grid);
    for r := 0 to grid.Length0
      invariant forall p :: InGrid(cs0, p) ==>
        At(View(grid), p) == if p.row < r then ScoresReset(At(cs0, p)) else At(cs0, p)
    {
      for c := 0 to grid.Length1
        invariant forall p :: InGrid(cs0, p) ==>
          At(View(grid), p) == if p.row < r || (p.row == r && p.col < c) then ScoresReset(At(cs0, p)) else At(cs0, p)
      {
        var node := grid[r, c];
        SetNode(grid, Pos(r, c), ScoresReset(node));
      }
    }
    var node := grid[start.row, start.col];
    SetNode(grid, start, node.(g := Finite(0), f := Finite(Heuristic(start, finish))));
  }

  /** The cells whose `g` is still `Infinity`. */
  ghost function UnreachedCells(cs: Cells): set<Pos> {
    set r: nat, c: nat | r < |cs| && c < |cs[r]| && cs[r][c].g.Infinity? :: Pos(r, c)
  }

  /** One triple `(row, col, k)` for every `k` below a finite `g`. */
  ghost function Slack(cs: Cells): set<(nat, nat, nat)> {
    set r: nat, c: nat, k: nat | r < |cs| && c < |cs[r]| && cs[r][c].g.Finite? && k < cs[r][c].g.n :: (r, c, k)
  }

  /** Cells whose `g` values agree have the same measure. */
  lemma SameScoresSameMeasure(a: Cells, b: Cells)
    requires |a| == |b| && forall r :: 0 <= r < |a| ==> |a[r]| == |b[r]|
    requires forall p :: InGrid(a, p) ==> At(a, p).g == At(b, p).g
    ensures UnreachedCells(a) == UnreachedCells(b) && Slack(a) == Slack(b)
  {
    assert forall r: nat, c: nat :: r < |a| && c < |a[r]| ==> a[r][c].g == At(a, Pos(r, c)).g == b[r][c].g;
  }

  /** Lowering some `g` and raising none shrinks the measure: fewer cells
      unreached, or as many and less slack. */
  lemma MeasureDrops(a: Cells, b: Cells, v: Pos)
    requires |a| == |b| && forall r :: 0 <= r < |a| ==> |a[r]| == |b[r]|
    requires forall p :: InGrid(a, p) ==> !At(a, p).g.Less(At(b, p).g)
    requires InGrid(a, v) && At(b, v).g.Less(At(a, v).g)
    ensures UnreachedCells(b) < UnreachedCells(a) || (UnreachedCells(b) == UnreachedCells(a) && Slack(b) < Slack(a))
  {
    assert forall r: nat, c: nat :: r < |a| && c < |a[r]| ==> !a[r][c].g.Less(b[r][c].g) by {
      forall r: nat, c: nat | r < |a| && c < |a[r]| ensures !a[r][c].g.Less(b[r][c].g) {
        assert InGrid(a, Pos(r, c));
      }
    }
    assert UnreachedCells(b) <= UnreachedCells(a);
    if At(a, v).g.Infinity? {
      assert v in UnreachedCells(a) && v !in UnreachedCells(b);
    } else if UnreachedCells(b) == UnreachedCells(a) {
      assert Slack(b) <= Slack(a) by {
        forall t | t in Slack(b) ensures t in Slack(a) {
          var (r, c, k) := t;
          assert Pos(r, c) !in UnreachedCells(b);
        }
      }
      var t := (v.row, v.col, At(b, v).g.n);
      assert t in Slack(a) && t !in Slack(b);
    }
  }

  lemma GLoweredTrans(a: Cells, b: Cells, c: Cells)
    requires GLowered(a, b) && GLowered(b, c)
    ensures GLowered(a, c)
  {
    forall p | InGrid(a, p)
      ensures At(c, p) == At(a, p).(g := At(c, p).g, f := At(c, p).f, previousNode := At(c, p).previousNode)
      ensures !At(a, p).g.Less(At(c, p).g)
    {
      assert InGrid(b, p);
    }
  }

  /** One improvement of `v` from `u` (lines 56-58) keeps the forest and the
      scores, lowers only `v`, and keeps every offer already checked. */
  lemma ImproveStep(cs0: Cells, cs: Cells, start: Pos, finish: Pos, u: Pos, v: Pos, n: Node)
    requires Forest(cs, start, G) && ScoresOk(cs, finish) && GLowered(cs0, cs)
    requires InGrid(cs, u) && InGrid(cs, v) && Adjacent(u, v)
    requires !At(cs, u).isWall && !At(cs, v).isWall && At(cs, u).g.Finite?
    requires At(cs, u).g.PlusOne().Less(At(cs, v).g)
    requires n == At(cs, v).(previousNode := Some(u), g := At(cs, u).g.PlusOne(),
                              f := PlusH(At(cs, u).g.PlusOne(), Heuristic(v, finish)))
    ensures Forest(Update(cs, v, n), start, G) && ScoresOk(Update(cs, v, n), finish)
    ensures GLowered(cs0, Update(cs, v, n)) && GLowered(cs, Update(cs, v, n))
    ensures At(Update(cs, v, n), u) == At(cs, u)
    ensures Offered(Update(cs, v, n), G, At(cs, u).g, v)
    ensures forall w :: Offered(cs, G, At(cs, u).g, w) ==> Offered(Update(cs, v, n), G, At(cs, u).g, w)
  {
    var cs' := Update(cs, v, n);
    RelaxKeepsForest(cs, start, G, u, v, n);
    assert GLowered(cs, cs') by {
      forall p | InGrid(cs, p)
        ensures At(cs', p) == At(cs, p).(g := At(cs', p).g, f := At(cs', p).f, previousNode := At(cs', p).previousNode)
        ensures !At(cs, p).g.Less(At(cs', p).g)
      {
      }
    }
    GLoweredTrans(cs0, cs, cs');
  }

  /** Lines 60-63 after an improvement of `v`: push `v` unless it is open. */
  lemma PushImproved(cs0: Cells, cs: Cells, v: Pos, n: Node, current: Pos,
                     open: seq<Pos>, open': seq<Pos>, open'': seq<Pos>)
    requires GLowered(cs0, cs) && InGrid(cs, v) && v != current
    requires n.g.Finite? && n.g.Less(At(cs, v).g)
    requires NoDup(open') && current !in open'
    requires forall p :: p in open' ==> InGrid(cs, p) && At(cs, p).g.Finite?
    requires forall p :: p in open' <==> p in open || (InGrid(cs, p) && At(cs, p).g.Less(At(cs0, p).g))
    requires open'' == if v in open' then open' else open' + [v]
    ensures NoDup(open'') && current !in open''
    ensures forall p :: p in open'' ==> InGrid(Update(cs, v, n), p) && At(Update(cs, v, n), p).g.Finite?
    ensures forall p :: p in open'' <==>
      p in open || (InGrid(Update(cs, v, n), p) && At(Update(cs, v, n), p).g.Less(At(cs0, p).g))
    ensures At(Update(cs, v, n), v).g.Less(At(cs0, v).g)
  {
    assert InGrid(cs0, v);
  }

  /** What holds while, and after, `current` is expanded, `cs0` being the
      state before the expansion and `open'` the open set so far: the forest
      and the scores are kept, no `g` went up, `current` is untouched, and
      the open set holds, once each, the old open nodes and the improved ones. */
  ghost predicate Expanding(cs0: Cells, cs: Cells, start: Pos, finish: Pos, current: Pos,
                            open: seq<Pos>, open': seq<Pos>) {
    Forest(cs, start, G) && ScoresOk(cs, finish) && GLowered(cs0, cs) &&
    InGrid(cs, current) && At(cs, current) == At(cs0, current) &&
    NoDup(open') && current !in open' &&
    (forall p :: p in open' ==> InGrid(cs, p) && At(cs, p).g.Finite?) &&
    (forall p :: p in open' <==> p in open || (InGrid(cs, p) && At(cs, p).g.Less(At(cs0, p).g)))
  }

  /** `p` is a non-wall neighbour of the non-wall `current` whose `g` would
      drop to `current.g + 1` (lines 53-55). */
  ghost predicate Improves(cs: Cells, current: Pos, p: Pos)
    requires InGrid(cs, current) && InGrid(cs, p)
  {
    !At(cs, current).isWall && Adjacent(current, p) && !At(cs, p).isWall &&
    At(cs, current).g.PlusOne().Less(At(cs, p).g)
  }

  /** The record at `p` once `current` has been expanded (lines 56-58): an
      improved neighbour links to `current` and takes `g = current.g + 1` and
      `f = g + h`; any other record stays. */
  ghost function ImprovedRecord(cs: Cells, current: Pos, finish: Pos, p: Pos): Node
    requires InGrid(cs, current) && InGrid(cs, p)
  {
    var n := At(cs, p);
    if Improves(cs, current, p) then
      var g := At(cs, current).g.PlusOne();
      n.(previousNode := Some(current), g := g, f := PlusH(g, Heuristic(p, finish)))
    else n
  }

  /** The grid after `current`'s neighbours have had their offers, in closed
      form. The order of the neighbours does not matter, because `current`
      never changes while it is expanded. */
  ghost function Expansion(cs: Cells, current: Pos, finish: Pos): (cs': Cells)
    requires InGrid(cs, current)
    ensures |cs'| == |cs| && forall r :: 0 <= r < |cs| ==> |cs'[r]| == |cs[r]|
    ensures forall p :: InGrid(cs, p) ==> At(cs', p) == ImprovedRecord(cs, current, finish, p)
  {
    seq(|cs|, r requires 0 <= r < |cs| =>
      seq(|cs[r]|, c requires 0 <= c < |cs[r]| => ImprovedRecord(cs, current, finish, Pos(r, c))))
  }

  /** The first `t` of `current`'s neighbours, `done` being those, have had
      their offers: none of them can still gain, and each holds its record
      from `Expansion(cs0, current, finish)`. */
  ghost predicate ExpandedUpTo(cs0: Cells, cs: Cells, current: Pos, finish: Pos, neighbors: seq<Pos>, t: nat,
                               done: set<Pos>)
    requires InGrid(cs0, current) && t <= |neighbors|
  {
    OfferedUpTo(cs, G, At(cs0, current).g, neighbors, t) &&
    PatchedUpTo(cs0, Expansion(cs0, current, finish), cs, neighbors, t, done)
  }

  /** One neighbour's offer, as `Offer` states it, advances the expansion. */
  lemma ExpansionStep(cs0: Cells, prev: Cells, cs: Cells, current: Pos, finish: Pos,
                      neighbors: seq<Pos>, t: nat, done: set<Pos>, improved: bool)
    requires InGrid(cs0, current) && NoDup(neighbors) && t < |neighbors| && InGrid(cs0, neighbors[t])
    requires ExpandedUpTo(cs0, prev, current, finish, neighbors, t, done)
    requires InGrid(prev, current) && At(prev, current) == At(cs0, current)
    requires improved <==> Improves(prev, current, neighbors[t])
    requires cs == if improved then Update(prev, neighbors[t], ImprovedRecord(prev, current, finish, neighbors[t]))
                   else prev
    requires Offered(cs, G, At(cs0, current).g, neighbors[t])
    requires forall w :: Offered(prev, G, At(cs0, current).g, w) ==> Offered(cs, G, At(cs0, current).g, w)
    ensures ExpandedUpTo(cs0, cs, current, finish, neighbors, t + 1, done + {neighbors[t]})
  {
    assert At(prev, neighbors[t]) == At(cs0, neighbors[t]);
    OfferedNext(prev, cs, G, At(cs0, current).g, neighbors, t);
    PatchNext(cs0, Expansion(cs0, current, finish), prev, cs, neighbors, t, done);
  }

  /** Lines 51-64 for one neighbour `v` of `current`. */
  method Offer(grid: array2<Node>, current: Pos, v: Pos, finish: Pos, ghost open: seq<Pos>, open': seq<Pos>,
               ghost start: Pos, ghost cs0: Cells)
    returns (open'': seq<Pos>, ghost improved: bool)
    requires InBounds(v, grid.Length0, grid.Length1) && Adjacent(current, v)
    requires Expanding(cs0, View(grid), start, finish, current, open, open')
    requires !At(View(grid), current).isWall && At(View(grid), current).g.Finite?
    modifies grid
    ensures Expanding(cs0, View(grid), start, finish, current, open, open'')
    ensures Offered(View(grid), G, At(cs0, current).g, v)
    ensures forall w :: Offered(old(View(grid)), G, At(cs0, current).g, w) ==> Offered(View(grid), G, At(cs0, current).g, w)
    ensures improved <==> Improves(old(View(grid)), current, v)
    ensures View(grid) == if improved then Update(old(View(grid)), v, ImprovedRecord(old(View(grid)), current, finish, v))
                          else old(View(grid))
    ensures open'' == if improved && v !in open' then open' + [v] else open'
    ensures improved ==> InGrid(View(grid), v) && At(View(grid), v).g.Less(At(cs0, v).g)
  {
    ghost var cs := View(grid);
    open'' := open';
    improved := false;
    var node := grid[current.row, current.col];
    var neighbor := grid[v.row, v.col];
    if !neighbor.isWall {
      var tentativeG := node.g.PlusOne();
      if tentativeG.Less(neighbor.g) {
        var n := neighbor.(previousNode := Some(current), g := tentativeG, f := PlusH(tentativeG, Heuristic(v, finish)));
        ImproveStep(cs0, cs, start, finish, current, v, n);
        SetNode(grid, v, n);
        if v !in open'' {
          open'' := open'' + [v];
        }
        PushImproved(cs0, cs, v, n, current, open, open', open'');
        improved := true;
      }
    }
  }

  /** Lines 49-65: offer `current.g + 1` to every non-wall neighbour; on an
      improvement set its back-link, `g` and `f`, and push it unless it is
      already open. Afterwards no edge out of `current` can be improved, the
      open set holds exactly the old open nodes and the improved ones. */
  method Expand(grid: array2<Node>, current: Pos, finish: Pos, open: seq<Pos>, ghost start: Pos)
    returns (open': seq<Pos>, ghost improved: bool)
    requires InBounds(current, grid.Length0, grid.Length1) && InBounds(finish, grid.Length0, grid.Length1)
    requires Forest(View(grid), start, G) && ScoresOk(View(grid), finish)
    requires !At(View(grid), current).isWall && At(View(grid), current).g.Finite?
    requires NoDup(open) && current !in open
    requires forall p :: p in open ==> InGrid(View(grid), p) && At(View(grid), p).g.Finite?
    modifies grid
    ensures Expanding(old(View(grid)), View(grid), start, finish, current, open, open')
    ensures View(grid) == Expansion(old(View(grid)), current, finish)
    ensures RelaxedFrom(View(grid), G, current)
    ensures !improved ==> View(grid) == old(View(grid)) && open' == open
    ensures improved ==> exists v :: InGrid(View(grid), v) && At(View(grid), v).g.Less(old(At(View(grid), v)).g)
  {
    ghost var cs0 := View(grid);
    ghost var cs := cs0;
    ghost var lowered := current;
    ghost var done: set<Pos> := {};
    assert GLowered(cs0, cs0);
    var neighbors := Neighbors(current, grid.Length0, grid.Length1);
    open' := open;
    improved := false;
    for t := 0 to |neighbors|
      invariant View(grid) == cs && Rect(cs, grid.Length0, grid.Length1)
      invariant Expanding(cs0, cs, start, finish, current, open, open')
      invariant ExpandedUpTo(cs0, cs, current, finish, neighbors, t, done)
      invariant !improved ==> cs == cs0 && open' == open
      invariant improved ==> InGrid(cs, lowered) && At(cs, lowered).g.Less(At(cs0, lowered).g)
    {
      var v := neighbors[t];
      assert v in neighbors;
      ghost var improvedHere;
      open', improvedHere := Offer(grid, current, v, finish, open, open', start, cs0);
      if improvedHere {
        lowered := v;
      }
      improved := improved || improvedHere;
      ExpansionStep(cs0, cs, View(grid), current, finish, neighbors, t, done, improvedHere);
      done := done + {v};
      cs := View(grid);
    }
    ExpandEnds(cs0, cs, start, finish, current, open, open', neighbors, done, grid.Length0, grid.Length1);
  }

  /** Once every neighbour has had its offer, no edge out of `current` can
      be improved, and the grid is `Expansion(cs0, current, finish)`. */
  lemma ExpandEnds(cs0: Cells, cs: Cells, start: Pos, finish: Pos, current: Pos, open: seq<Pos>, open': seq<Pos>,
                   neighbors: seq<Pos>, done: set<Pos>, rows: nat, cols: nat)
    requires Rect(cs, rows, cols) && InBounds(current, rows, cols) && neighbors == Neighbors(current, rows, cols)
    requires Expanding(cs0, cs, start, finish, current, open, open') && !At(cs0, current).isWall
    requires ExpandedUpTo(cs0, cs, current, finish, neighbors, |neighbors|, done)
    ensures RelaxedFrom(cs, G, current)
    ensures cs == Expansion(cs0, current, finish)
  {
    AllOfferedRelaxed(cs, G, current, rows, cols);
    PatchEnds(cs0, Expansion(cs0, current, finish), cs, neighbors, done);
  }

  /** What holds at the head of the main loop. */
  ghost predicate Searching(cs0: Cells, cs: Cells, start: Pos, finish: Pos, open: seq<Pos>, trace: seq<Pos>) {
    AFrame(cs0, cs) && Forest(cs, start, G) && ScoresOk(cs, finish) &&
    NoDup(open) && (forall p :: p in open ==> InGrid(cs, p) && At(cs, p).g.Finite?) &&
    NoDup(trace) && (forall p :: p in trace ==> InGrid(cs, p) && !At(cs, p).isWall && At(cs, p).g.Finite?) &&
    (forall p :: InGrid(cs, p) ==> (At(cs, p).isVisited <==> p in trace)) &&
    finish !in trace &&
    // every reached non-wall node is open or has been visited
    (forall p :: InGrid(cs, p) && !At(cs, p).isWall && At(cs, p).g.Finite? ==> p in open || At(cs, p).isVisited) &&
    // a visited node that is not open again cannot improve any neighbour
    (forall p :: InGrid(cs, p) && At(cs, p).isVisited && p !in open ==> RelaxedFrom(cs, G, p)) &&
    (At(cs, start).isWall ==> trace == [] && forall p :: p in open ==> p == start)
  }

  /** Right after the reset only the start is open and nothing is visited. */
  lemma InitialSearching(cs0: Cells, cs: Cells, start: Pos, finish: Pos)
    requires InGrid(cs0, start) && ResetFrom(cs0, cs, start, finish)
    ensures Searching(cs0, cs, start, finish, [start], [])
  {
    assert forall p :: InGrid(cs, p) <==> InGrid(cs0, p);
    assert Forest(cs, start, G) by {
      forall p | InGrid(cs, p) ensures LinkOk(cs, G, p) && Rooted(cs, start, G, p) {
        assert InGrid(cs0, p);
      }
    }
    forall p | InGrid(cs, p) ensures At(cs, p).f == PlusH(At(cs, p).g, Heuristic(p, finish)) {
      assert InGrid(cs0, p);
    }
    forall p | InGrid(cs, p) && !At(cs, p).isWall && At(cs, p).g.Finite? ensures p in [start] {
      assert InGrid(cs0, p);
    }
    forall p | InGrid(cs, p) ensures !At(cs, p).isVisited {
      assert InGrid(cs0, p);
    }
    assert AFrame(cs0, cs) by {
      forall p | InGrid(cs0, p)
        ensures At(cs, p) == At(cs0, p).(g := At(cs, p).g, f := At(cs, p).f, previousNode := At(cs, p).previousNode,
                                         isVisited := At(cs, p).isVisited)
      {
      }
    }
  }

  /** A popped wall is dropped (line 38): nothing else changes. */
  lemma DropWall(cs0: Cells, cs: Cells, start: Pos, finish: Pos, open: seq<Pos>, current: Pos, rest: seq<Pos>, trace: seq<Pos>)
    requires Searching(cs0, cs, start, finish, open, trace)
    requires multiset(open) == multiset{current} + multiset(rest) && NoDup(rest)
    requires current in open && current !in rest && forall p :: p in rest ==> p in open
    requires At(cs, current).isWall
    ensures Searching(cs0, cs, start, finish, rest, trace)
  {
    // only the start can be an open wall: every other open node has a back-link
    assert LinkOk(cs, G, current) && Rooted(cs, start, G, current);
    assert current == start;
  }

  /** Lowering other nodes' `g` keeps a node relaxed whose own `g` stayed. */
  lemma LoweredKeepsRelaxedFrom(a: Cells, b: Cells, p: Pos)
    requires GLowered(a, b) && InGrid(a, p) && At(b, p).g == At(a, p).g
    requires RelaxedFrom(a, G, p)
    ensures RelaxedFrom(b, G, p)
  {
    if !At(b, p).isWall {
      forall q | InGrid(b, q) && Adjacent(p, q) && !At(b, q).isWall
        ensures !Cost(b, G, p).PlusOne().Less(Cost(b, G, q))
      {
        assert InGrid(a, q) && !At(a, q).isWall && !At(a, p).isWall;
        assert !At(a, q).g.Less(At(b, q).g);
      }
    }
  }

  /** Changing anything but walls and `g` keeps a node relaxed. */
  lemma SameScoresKeepRelaxedFrom(a: Cells, b: Cells, p: Pos)
    requires |a| == |b| && forall r :: 0 <= r < |a| ==> |a[r]| == |b[r]|
    requires forall q :: InGrid(a, q) ==> At(b, q).g == At(a, q).g && At(b, q).isWall == At(a, q).isWall
    requires RelaxedFrom(a, G, p)
    ensures RelaxedFrom(b, G, p)
  {
    if InGrid(b, p) && !At(b, p).isWall {
      forall q | InGrid(b, q) && Adjacent(p, q) && !At(b, q).isWall
        ensures !Cost(b, G, p).PlusOne().Less(Cost(b, G, q))
      {
        assert InGrid(a, q) && InGrid(a, p);
      }
    }
  }

  /** The loop state once `current` has been shifted off the open set and
      marked visited, before it is expanded. */
  ghost predicate Popped(cs0: Cells, cs: Cells, start: Pos, finish: Pos, current: Pos, rest: seq<Pos>, trace: seq<Pos>) {
    AFrame(cs0, cs) && Forest(cs, start, G) && ScoresOk(cs, finish) &&
    NoDup(rest) && current !in rest && (forall p :: p in rest ==> InGrid(cs, p) && At(cs, p).g.Finite?) &&
    NoDup(trace) && (forall p :: p in trace ==> InGrid(cs, p) && !At(cs, p).isWall && At(cs, p).g.Finite?) &&
    (forall p :: InGrid(cs, p) ==> (At(cs, p).isVisited <==> p in trace)) &&
    finish !in trace && current in trace &&
    (forall p :: InGrid(cs, p) && !At(cs, p).isWall && At(cs, p).g.Finite? ==> p in rest || At(cs, p).isVisited) &&
    (forall p :: InGrid(cs, p) && At(cs, p).isVisited && p !in rest && p != current ==> RelaxedFrom(cs, G, p)) &&
    InGrid(cs, start) && !At(cs, start).isWall
  }

  /** Marking `current` visited changes nothing the forest or the scores depend on. */
  lemma MarkFacts(cs0: Cells, cs: Cells, marked: Cells, start: Pos, finish: Pos, current: Pos)
    requires AFrame(cs0, cs) && Forest(cs, start, G) && ScoresOk(cs, finish) && InGrid(cs, current)
    requires At(cs, current).isVisited ==> marked == cs
    requires !At(cs, current).isVisited ==> marked == Update(cs, current, At(cs, current).(isVisited := true))
    ensures |marked| == |cs| && forall r :: 0 <= r < |cs| ==> |marked[r]| == |cs[r]|
    ensures forall q :: InGrid(cs, q) ==> At(marked, q) == At(cs, q).(isVisited := At(marked, q).isVisited)
    ensures forall q :: InGrid(cs, q) ==> (At(marked, q).isVisited <==> At(cs, q).isVisited || q == current)
    ensures AFrame(cs0, marked) && Forest(marked, start, G) && ScoresOk(marked, finish)
  {
    assert forall q :: InGrid(cs, q) ==> At(marked, q) == At(cs, q).(isVisited := At(marked, q).isVisited);
    SameLinksSameForest(cs, marked, start, G);
    VisitedOnlyKeepsFrame(cs0, cs, marked);
    assert forall q :: InGrid(marked, q) ==> InGrid(cs, q);
  }

  /** Changing `isVisited` alone keeps the frame of a run. */
  lemma VisitedOnlyKeepsFrame(cs0: Cells, cs: Cells, marked: Cells)
    requires AFrame(cs0, cs)
    requires |marked| == |cs| && forall r :: 0 <= r < |cs| ==> |marked[r]| == |cs[r]|
    requires forall q :: InGrid(cs, q) ==> At(marked, q) == At(cs, q).(isVisited := At(marked, q).isVisited)
    ensures AFrame(cs0, marked)
  {
    forall p | InGrid(cs0, p)
      ensures At(marked, p) == At(cs0, p).(g := At(marked, p).g, f := At(marked, p).f,
                previousNode := At(marked, p).previousNode, isVisited := At(marked, p).isVisited)
    {
      assert InGrid(cs, p);
    }
  }

  /** The marking of lines 41-44, for a popped node that is neither a wall nor the finish. */
  lemma MarkCurrent(cs0: Cells, cs: Cells, marked: Cells, start: Pos, finish: Pos,
                    open: seq<Pos>, current: Pos, rest: seq<Pos>, trace: seq<Pos>, trace': seq<Pos>)
    requires Searching(cs0, cs, start, finish, open, trace)
    requires multiset(open) == multiset{current} + multiset(rest) && NoDup(rest) && current !in rest
    requires current in open && forall p :: p in rest ==> p in open
    requires !At(cs, current).isWall && current != finish
    requires At(cs, current).isVisited ==> marked == cs && trace' == trace
    requires !At(cs, current).isVisited ==>
      marked == Update(cs, current, At(cs, current).(isVisited := true)) && trace' == trace + [current]
    ensures Popped(cs0, marked, start, finish, current, rest, trace')
  {
    assert InGrid(cs, start) by {
      assert LinkOk(cs, G, current) && Rooted(cs, start, G, current);
    }
    MarkFacts(cs0, cs, marked, start, finish, current);
    assert forall p :: InGrid(cs, p) <==> InGrid(marked, p);
    forall p | p in open && p != current ensures p in rest {
      assert p in multiset(open);
    }
    assert NoDup(trace') by {
      if trace' != trace {
        assert current !in trace;
      }
    }
    forall p | InGrid(marked, p) && At(marked, p).isVisited && p !in rest && p != current
      ensures RelaxedFrom(marked, G, p)
    {
      assert p !in open && At(cs, p).isVisited;
      SameScoresKeepRelaxedFrom(cs, marked, p);
    }
  }

  /** `Expand` on a popped node restores the loop state. */
  lemma ExpandKeeps(cs0: Cells, marked: Cells, expanded: Cells, start: Pos, finish: Pos,
                    current: Pos, rest: seq<Pos>, open': seq<Pos>, trace: seq<Pos>)
    requires Popped(cs0, marked, start, finish, current, rest, trace)
    requires GLowered(marked, expanded) && Forest(expanded, start, G) && ScoresOk(expanded, finish)
    requires RelaxedFrom(expanded, G, current)
    requires NoDup(open') && current !in open'
    requires forall p :: p in open' ==> InGrid(expanded, p) && At(expanded, p).g.Finite?
    requires forall p :: p in open' <==> p in rest || (InGrid(expanded, p) && At(expanded, p).g.Less(At(marked, p).g))
    ensures Searching(cs0, expanded, start, finish, open', trace)
  {
    assert forall p :: InGrid(marked, p) <==> InGrid(expanded, p);
    assert AFrame(cs0, expanded) by {
      forall p | InGrid(cs0, p)
        ensures At(expanded, p) == At(cs0, p).(g := At(expanded, p).g, f := At(expanded, p).f,
                  previousNode := At(expanded, p).previousNode, isVisited := At(expanded, p).isVisited)
      {
        assert InGrid(marked, p);
      }
    }
    forall p | p in trace ensures InGrid(expanded, p) && !At(expanded, p).isWall && At(expanded, p).g.Finite? {
      assert InGrid(marked, p);
    }
    forall p | InGrid(expanded, p) ensures At(expanded, p).isVisited <==> p in trace {
      assert InGrid(marked, p);
    }
    forall p | InGrid(expanded, p) && !At(expanded, p).isWall && At(expanded, p).g.Finite?
      ensures p in open' || At(expanded, p).isVisited
    {
      assert InGrid(marked, p);
    }
    forall p | InGrid(expanded, p) && At(expanded, p).isVisited && p !in open'
      ensures RelaxedFrom(expanded, G, p)
    {
      assert InGrid(marked, p);
      if p != current {
        LoweredKeepsRelaxedFrom(marked, expanded, p);
      }
    }
    assert !At(expanded, start).isWall by {
      assert InGrid(marked, start);
    }
  }

  /** What `aStar` leaves behind in `cs`, called on the records `cs0`:
      only its scratch fields differ; the back-links form a forest rooted
      at the start along which `g` counts steps, with `f == g + h`; the
      trace lists distinct reached non-wall nodes, exactly the visited
      ones; the finish is in it, as its last node, exactly when some
      wall-free walk leads to it from the start, and otherwise no edge can
      be improved any more; a walled start visits nothing. */
  ghost predicate Outcome(cs0: Cells, cs: Cells, start: Pos, finish: Pos, trace: seq<Pos>) {
    AFrame(cs0, cs) && Forest(cs, start, G) && ScoresOk(cs, finish) &&
    NoDup(trace) &&
    (forall p :: p in trace ==> InGrid(cs, p) && !At(cs, p).isWall && At(cs, p).g.Finite?) &&
    (forall p :: InGrid(cs, p) ==> (At(cs, p).isVisited <==> p in trace)) &&
    (finish in trace <==> Reachable(cs, start, finish)) &&
    (finish in trace ==> trace[|trace| - 1] == finish) &&
    (finish !in trace ==> Relaxed(cs, G)) &&
    (InGrid(cs, start) && At(cs, start).isWall ==> trace == [])
  }

  /** The loop stops at the finish (line 47): it is the last node of the
      trace, and it is reachable from the start. */
  lemma FinishFound(cs0: Cells, cs: Cells, marked: Cells, start: Pos, finish: Pos,
                    open: seq<Pos>, trace: seq<Pos>, trace': seq<Pos>)
    requires Searching(cs0, cs, start, finish, open, trace)
    requires finish in open && !At(cs, finish).isWall
    requires marked == Update(cs, finish, At(cs, finish).(isVisited := true)) && trace' == trace + [finish]
    ensures trace'[|trace'| - 1] == finish && Reachable(marked, start, finish)
    ensures Outcome(cs0, marked, start, finish, trace')
  {
    MarkFacts(cs0, cs, marked, start, finish, finish);
    ForestReaches(marked, start, G, finish);
    assert forall p :: InGrid(marked, p) ==> InGrid(cs, p);
    assert NoDup(trace') by {
      assert finish !in trace;
    }
    forall p | p in trace' ensures InGrid(marked, p) && !At(marked, p).isWall && At(marked, p).g.Finite? {
      assert InGrid(cs, p);
    }
    forall p | InGrid(marked, p) ensures At(marked, p).isVisited <==> p in trace' {
      assert InGrid(cs, p);
    }
    assert InGrid(cs, start) && (At(cs, start).isWall ==> finish == start);
  }

  /** The open set ran out (line 68): no edge can be improved any more, so
      the finish, never visited, is not reachable. */
  lemma Exhausted(cs0: Cells, cs: Cells, start: Pos, finish: Pos, trace: seq<Pos>)
    requires Searching(cs0, cs, start, finish, [], trace)
    ensures Relaxed(cs, G)
    ensures !Reachable(cs, start, finish)
    ensures Outcome(cs0, cs, start, finish, trace)
  {
    forall u | InGrid(cs, u) ensures RelaxedFrom(cs, G, u) {
      if !At(cs, u).isWall && At(cs, u).g.Finite? {
        assert At(cs, u).isVisited;
      }
    }
    RelaxedIff(cs, G);
    forall w | IsWalk(cs, w) && w[0] == start ensures w[|w| - 1] != finish {
      RelaxedBoundsWalks(cs, start, G, w);
      assert At(cs, w[|w| - 1]).isVisited;
    }
  }

  /** The loop measure went down: fewer cells unreached, or as many and
      less slack, or the same scores and a shorter open set. */
  ghost predicate Decreased(a: Cells, b: Cells, n: nat, n': nat) {
    UnreachedCells(b) < UnreachedCells(a) ||
    (UnreachedCells(b) == UnreachedCells(a) && (Slack(b) < Slack(a) || (Slack(b) == Slack(a) && n' < n)))
  }

  /** The grid after lines 41-44 have marked `current` visited: that one
      record visited, every other record as it was. */
  ghost function VisitedAt(cs: Cells, current: Pos): (cs': Cells)
    requires InGrid(cs, current)
    ensures |cs'| == |cs| && forall r :: 0 <= r < |cs| ==> |cs'[r]| == |cs[r]|
    ensures At(cs', current) == At(cs, current).(isVisited := true)
    ensures forall q :: InGrid(cs, q) && q != current ==> At(cs', q) == At(cs, q)
  {
    if At(cs, current).isVisited then cs else Update(cs, current, At(cs, current).(isVisited := true))
  }

  /** Lines 41-44: mark `current` visited and append it to the trace,
      unless it already is visited. */
  method MarkVisited(grid: array2<Node>, current: Pos, trace: seq<Pos>) returns (trace': seq<Pos>)
    requires InBounds(current, grid.Length0, grid.Length1)
    modifies grid
    ensures At(old(View(grid)), current).isVisited ==> View(grid) == old(View(grid)) && trace' == trace
    ensures !At(old(View(grid)), current).isVisited ==>
      View(grid) == Update(old(View(grid)), current, At(old(View(grid)), current).(isVisited := true)) &&
      trace' == trace + [current]
  {
    var node := grid[current.row, current.col];
    trace' := trace;
    if !node.isVisited {
      SetNode(grid, current, node.(isVisited := true));
      trace' := trace' + [current];
    }
  }

  /** An expansion after a pop makes the loop measure go down. */
  lemma ExpandDecreases(marked: Cells, expanded: Cells, rest: seq<Pos>, open': seq<Pos>, improved: bool)
    requires GLowered(marked, expanded)
    requires !improved ==> expanded == marked && open' == rest
    requires improved ==> exists v :: InGrid(expanded, v) && At(expanded, v).g.Less(At(marked, v).g)
    ensures Decreased(marked, expanded, |rest| + 1, |open'|)
  {
    if improved {
      var v :| InGrid(expanded, v) && At(expanded, v).g.Less(At(marked, v).g);
      MeasureDrops(marked, expanded, v);
    }
  }

  /** Expanding a popped, marked node: `Expand` and its bookkeeping. */
  method ExpandPopped(grid: array2<Node>, current: Pos, finish: Pos, rest: seq<Pos>,
                      ghost trace: seq<Pos>, ghost start: Pos, ghost cs0: Cells)
    returns (open': seq<Pos>)
    requires InBounds(finish, grid.Length0, grid.Length1)
    requires Popped(cs0, View(grid), start, finish, current, rest, trace)
    modifies grid
    ensures View(grid) == Expansion(old(View(grid)), current, finish)
    ensures Expanding(old(View(grid)), View(grid), start, finish, current, rest, open')
    ensures Searching(cs0, View(grid), start, finish, open', trace)
    ensures Decreased(old(View(grid)), View(grid), |rest| + 1, |open'|)
  {
    ghost var marked := View(grid);
    ghost var improved;
    open', improved := Expand(grid, current, finish, rest, start);
    ExpandKeeps(cs0, marked, View(grid), start, finish, current, rest, open', trace);
    ExpandDecreases(marked, View(grid), rest, open', improved);
  }

  /** Lines 41-65 for a popped node that is not a wall: mark it visited
      and append it to the trace unless it already is; stop if it is the
      finish, otherwise expand it. */
  method Visit(grid: array2<Node>, current: Pos, finish: Pos, ghost open: seq<Pos>, rest: seq<Pos>,
               trace: seq<Pos>, ghost start: Pos, ghost cs0: Cells)
    returns (open': seq<Pos>, trace': seq<Pos>, found: bool)
    requires InBounds(finish, grid.Length0, grid.Length1)
    requires Searching(cs0, View(grid), start, finish, open, trace)
    requires multiset(open) == multiset{current} + multiset(rest) && NoDup(rest) && current !in rest
    requires current in open && forall p :: p in rest ==> p in open
    requires !At(View(grid), current).isWall
    modifies grid
    ensures trace' == if At(old(View(grid)), current).isVisited then trace else trace + [current]
    ensures found <==> current == finish
    ensures found ==> View(grid) == VisitedAt(old(View(grid)), current)
    ensures found ==> Outcome(cs0, View(grid), start, finish, trace')
    ensures !found ==> View(grid) == Expansion(VisitedAt(old(View(grid)), current), current, finish)
    ensures !found ==> Expanding(VisitedAt(old(View(grid)), current), View(grid), start, finish, current, rest, open')
    ensures !found ==> Searching(cs0, View(grid), start, finish, open', trace')
    ensures !found ==> Decreased(old(View(grid)), View(grid), |open|, |open'|)
  {
    ghost var cs := View(grid);
    trace' := MarkVisited(grid, current, trace);
    ghost var marked := View(grid);
    assert marked == VisitedAt(cs, current);
    if current == finish {
      FinishFound(cs0, cs, marked, start, finish, open, trace, trace');
      return rest, trace', true;
    }
    found := false;
    MarkCurrent(cs0, cs, marked, start, finish, open, current, rest, trace, trace');
    assert forall p :: InGrid(cs, p) ==> At(marked, p).g == At(cs, p).g;
    SameScoresSameMeasure(cs, marked);
    assert |open| == |rest| + 1 by {
      assert |multiset(open)| == |multiset(rest)| + 1;
    }
    open' := ExpandPopped(grid, current, finish, rest, trace', start, cs0);
  }

  /** `aStar`: reset the scores, then repeatedly pop the open node with the
      least `(f, g)`; drop it if it is a wall, otherwise visit it, stop if
      it is the finish, and expand it. The finish ends up in the trace, as
      its last node, exactly when a wall-free walk leads to it from the start. */
  method AStar(grid: array2<Node>, startNode: Pos, finishNode: Pos) returns (visitedNodesInOrder: seq<Pos>)
    requires InBounds(startNode, grid.Length0, grid.Length1)
    requires InBounds(finishNode, grid.Length0, grid.Length1)
    modifies grid
    ensures Outcome(old(View(grid)), View(grid), startNode, finishNode, visitedNodesInOrder)
  {
    ghost var cs0 := View(grid);
    ResetScores(grid, startNode, finishNode);
    ghost var cs := View(grid);
    visitedNodesInOrder := [];
    InitialSearching(cs0, cs, startNode, finishNode);
    var open := [startNode];
    while open != []
      invariant View(grid) == cs && Rect(cs, grid.Length0, grid.Length1)
      invariant Searching(cs0, cs, startNode, finishNode, open, visitedNodesInOrder)
      decreases UnreachedCells(cs), Slack(cs), |open|
    {
      var current, rest := PopBest(grid, open);
      var node := grid[current.row, current.col];
      if node.isWall {
        DropWall(cs0, cs, startNode, finishNode, open, current, rest, visitedNodesInOrder);
        assert |open| == |rest| + 1 by {
          assert |multiset(open)| == |multiset(rest)| + 1;
        }
        open := rest;
      } else {
        var found;
        open, visitedNodesInOrder, found := Visit(grid, current, finishNode, open, rest, visitedNodesInOrder, startNode, cs0);
        if found {
          return;
        }
        cs := View(grid);
      }
    }
    Exhausted(cs0, cs, startNode, finishNode, visitedNodesInOrder);
  }
}
