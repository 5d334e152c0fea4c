/** `bellmanFord`, `getAllNodes` and `getNodesInShortestPathOrder`: the
    Bellman-Ford search over the grid with unit edge weights, run in place on
    the node records, and the back-tracking that turns its links into a path. */
module BellmanFord {
  import opened Grid
  import opened Search

  /** `p` comes before `q` when the grid is read row by row. */
  predicate RowMajorBefore(p: Pos, q: Pos) {
    p.row < q.row || (p.row == q.row && p.col < q.col)
  }

  /** `nodes` lists every cell of a `rows` by `cols` grid exactly once. */
  ghost predicate Enumerates(nodes: seq<Pos>, rows: nat, cols: nat) {
    NoDup(nodes) && forall p :: p in nodes <==> InBounds(p, rows, cols)
  }

  /** `getAllNodes`: every cell, row by row, each once. */
  method AllNodes(grid: array2<Node>) returns (nodes: seq<Pos>)
    ensures |nodes| == grid.Length0 * grid.Length1
    ensures forall p :: p in nodes <==> InBounds(p, grid.Length0, grid.Length1)
    ensures forall i, j :: 0 <= i < j < |nodes| ==> RowMajorBefore(nodes[i], nodes[j])
    ensures Enumerates(nodes, grid.Length0, grid.Length1)
  {
    var cols := grid.Length1;
    nodes := [];
    for r := 0 to grid.Length0
      invariant |nodes| == r * cols
      invariant forall p :: p in nodes <==> p.row < r && p.col < cols
      invariant forall i :: 0 <= i < |nodes| ==> nodes[i].row < r
      invariant forall i, j :: 0 <= i < j < |nodes| ==> RowMajorBefore(nodes[i], nodes[j])
    {
      for c := 0 to cols
        invariant |nodes| == r * cols + c
        invariant forall p :: p in nodes <==> (p.row < r && p.col < cols) || (p.row == r && p.col < c)
        invariant forall i :: 0 <= i < |nodes| ==> nodes[i].row < r || (nodes[i].row == r && nodes[i].col < c)
        invariant forall i, j :: 0 <= i < j < |nodes| ==> RowMajorBefore(nodes[i], nodes[j])
      {
        nodes := nodes + [Pos(r, c)];
      }
      assert (r + 1) * cols == r * cols + cols;
    }
  }

  /** A record as step 1 leaves it: unreached, unlinked and unvisited. */
  function Unreached(n: Node): (n': Node)
    ensures n'.distance == Infinity && n'.previousNode == None && !n'.isVisited
    ensures n' == n.(distance := n'.distance, previousNode := n'.previousNode, isVisited := n'.isVisited)
  {
    n.(distance := Infinity, previousNode := None, isVisited := false)
  }

  /** Step 1 of `bellmanFord`: every node unreached, then the start at distance 0. */
  method Initialize(grid: array2<Node>, nodes: seq<Pos>, start: Pos)
    requires Enumerates(nodes, grid.Length0, grid.Length1)
    requires InBounds(start, grid.Length0, grid.Length1)
    modifies grid
    ensures InitializedFrom(old(View(grid)), View(grid), start)
  {
    ghost var cs0 := View(grid);
    for k := 0 to |nodes|
      invariant forall p :: InGrid(cs0, p) ==>
        At(View(grid), p) == if p in nodes[..k] then Unreached(At(cs0, p)) else At(cs0, p)
    {
      var p := nodes[k];
      assert p in nodes;
      var node := grid[p.row, p.col];
      SetNode(grid, p, Unreached(node));
      assert nodes[..k + 1] == nodes[..k] + [p];
    }
    assert nodes[..|nodes|] == nodes;
    var node := grid[start.row, start.col];
    SetNode(grid, start, node.(distance := Finite(0)));
  }

  /** Only Bellman-Ford's scratch fields (`distance`, `previousNode`,
      `isVisited`) differ between `a` and `b`. */
  ghost predicate Frame(a: Cells, b: Cells) {
    |a| == |b| && (forall r :: 0 <= r < |a| ==> |a[r]| == |b[r]|) &&
    forall p :: InGrid(a, p) ==>
      At(b, p) == At(a, p).(distance := At(b, p).distance, previousNode := At(b, p).previousNode,
                            isVisited := At(b, p).isVisited)
  }

  /** Only `distance` and `previousNode` differ, and no distance went up. */
  ghost predicate Lowered(a: Cells, b: Cells) {
    |a| == |b| && (forall r :: 0 <= r < |a| ==> |a[r]| == |b[r]|) &&
    forall p :: InGrid(a, p) ==>
      At(b, p) == At(a, p).(distance := At(b, p).distance, previousNode := At(b, p).previousNode) &&
      !At(a, p).distance.Less(At(b, p).distance)
  }

  /** `p` is reached at distance at most `bound`. */
  ghost predicate Within(cs: Cells, p: Pos, bound: int) {
    InGrid(cs, p) && At(cs, p).distance.Finite? && At(cs, p).distance.n <= bound
  }

  /** Every walk of at most `k` steps from the start, through the walls of
      `layout`, ends at a node whose distance is at most its number of steps. */
  ghost predicate CoversIn(layout: Cells, cs: Cells, start: Pos, k: nat) {
    forall w :: IsWalk(layout, w) && w[0] == start && |w| <= k + 1 ==> Within(cs, w[|w| - 1], |w| - 1)
  }

  /** The same for the walks of exactly `k + 1` steps whose last step leaves `u`. */
  ghost predicate StepCovered(layout: Cells, cs: Cells, start: Pos, k: nat, u: Pos) {
    forall w :: IsWalk(layout, w) && w[0] == start && |w| == k + 2 && w[k] == u ==> Within(cs, w[k + 1], k + 1)
  }

  lemma LoweredKeepsCover(layout: Cells, a: Cells, b: Cells, start: Pos, k: nat, nodes: seq<Pos>, j: nat)
    requires Lowered(a, b) && j <= |nodes|
    ensures CoversIn(layout, a, start, k) ==> CoversIn(layout, b, start, k)
    ensures (forall i :: 0 <= i < j ==> StepCovered(layout, a, start, k, nodes[i])) ==>
            forall i :: 0 <= i < j ==> StepCovered(layout, b, start, k, nodes[i])
  {
    assert forall p, bound: int :: Within(a, p, bound) ==> Within(b, p, bound);
  }

  /** Once no edge out of `u` can be relaxed, every walk covered up to `u`
      is covered one step further. */
  lemma StepFromRelaxed(layout: Cells, cs: Cells, start: Pos, k: nat, u: Pos)
    requires SameLayout(layout, cs) && CoversIn(layout, cs, start, k)
    requires RelaxedFrom(cs, Distance, u)
    ensures StepCovered(layout, cs, start, k, u)
  {
    forall w | IsWalk(layout, w) && w[0] == start && |w| == k + 2 && w[k] == u
      ensures Within(cs, w[k + 1], k + 1)
    {
      var front := w[..k + 1];
      assert IsWalk(layout, front);
      assert Within(cs, u, k);
      assert Adjacent(w[k], w[k + 1]);
      assert InGrid(layout, w[k + 1]) && !At(layout, w[k + 1]).isWall;
    }
  }

  /** After a pass in which every node's last steps are covered, walks one
      step longer are covered. */
  lemma PassCovers(layout: Cells, cs: Cells, start: Pos, k: nat, nodes: seq<Pos>, rows: nat, cols: nat)
    requires Rect(layout, rows, cols) && Enumerates(nodes, rows, cols)
    requires CoversIn(layout, cs, start, k)
    requires forall u :: u in nodes ==> StepCovered(layout, cs, start, k, u)
    ensures CoversIn(layout, cs, start, k + 1)
  {
    forall w | IsWalk(layout, w) && w[0] == start && |w| <= k + 2
      ensures Within(cs, w[|w| - 1], |w| - 1)
    {
      if |w| == k + 2 {
        assert InGrid(layout, w[k]);
        assert w[k] in nodes;
      }
    }
  }

  lemma LoweredTrans(a: Cells, b: Cells, c: Cells)
    requires Lowered(a, b) && Lowered(b, c)
    ensures Lowered(a, c)
  {
    forall p | InGrid(a, p)
      ensures At(c, p) == At(a, p).(distance := At(c, p).distance, previousNode := At(c, p).previousNode)
      ensures !At(a, p).distance.Less(At(c, p).distance)
    {
      assert InGrid(b, p);
    }
  }

  /** One successful relaxation of `v` from `u` (lines 29-32) keeps the
      forest, lowers only `v`, and keeps every offer already checked. */
  lemma RelaxStep(cs0: Cells, cs: Cells, start: Pos, u: Pos, v: Pos, n: Node)
    requires Forest(cs, start, Distance) && Lowered(cs0, cs)
    requires InGrid(cs, u) && InGrid(cs, v) && Adjacent(u, v)
    requires !At(cs, u).isWall && !At(cs, v).isWall && At(cs, u).distance.Finite?
    requires At(cs, u).distance.PlusOne().Less(At(cs, v).distance)
    requires n == At(cs, v).(distance := At(cs, u).distance.PlusOne(), previousNode := Some(u))
    ensures Forest(Update(cs, v, n), start, Distance)
    ensures Lowered(cs0, Update(cs, v, n))
    ensures At(Update(cs, v, n), u) == At(cs, u)
    ensures Offered(Update(cs, v, n), Distance, At(cs, u).distance, v)
    ensures forall w :: Offered(cs, Distance, At(cs, u).distance, w) ==> Offered(Update(cs, v, n), Distance, At(cs, u).distance, w)
  {
    var cs' := Update(cs, v, n);
    RelaxKeepsForest(cs, start, Distance, u, v, n);
    assert Lowered(cs, cs') by {
      forall p | InGrid(cs, p)
        ensures At(cs', p) == At(cs, p).(distance := At(cs', p).distance, previousNode := At(cs', p).previousNode)
        ensures !At(cs, p).distance.Less(At(cs', p).distance)
      {
      }
    }
    LoweredTrans(cs0, cs, cs');
  }

  /** The record at `p` after node `u`'s turn (lines 23-34): a non-wall
      neighbour of a reached non-wall `u` that gains from `u`'s distance plus
      one takes that distance and links to `u`; any other record stays. */
  ghost function TurnedRecord(cs: Cells, u: Pos, p: Pos): Node
    requires InGrid(cs, u) && InGrid(cs, p)
  {
    var n := At(cs, p);
    if Gains(cs, u, p) then n.(distance := At(cs, u).distance.PlusOne(), previousNode := Some(u)) else n
  }

  /** `p` is a non-wall neighbour of the non-wall `u` and gains from `u`'s distance plus one. */
  ghost predicate Gains(cs: Cells, u: Pos, p: Pos)
    requires InGrid(cs, u) && InGrid(cs, p)
  {
    !At(cs, u).isWall && Adjacent(u, p) && !At(cs, p).isWall && At(cs, u).distance.PlusOne().Less(At(cs, p).distance)
  }

  /** The grid after node `u`'s turn, in closed form. The order in which the
      neighbours are visited does not matter, because `u` itself never changes
      during its turn. */
  ghost function Turn(cs: Cells, u: Pos): (cs': Cells)
    requires InGrid(cs, u)
    ensures |cs'| == |cs| && forall r :: 0 <= r < |cs| ==> |cs'[r]| == |cs[r]|
    ensures forall p :: InGrid(cs, p) ==> At(cs', p) == TurnedRecord(cs, u, p)
  {
    seq(|cs|, r requires 0 <= r < |cs| =>
      seq(|cs[r]|, c requires 0 <= c < |cs[r]| => TurnedRecord(cs, u, Pos(r, c))))
  }

  /** A wall or an unreached node changes nothing on its turn (line 23). */
  lemma IdleTurn(cs: Cells, u: Pos)
    requires InGrid(cs, u) && (At(cs, u).isWall || At(cs, u).distance == Infinity)
    ensures Turn(cs, u) == cs
  {
    CellsEqual(Turn(cs, u), cs);
  }

  /** The state of node `u`'s turn once its first `t` neighbours have had
      their offer, `done` being those neighbours. */
  ghost predicate Turning(cs0: Cells, cs: Cells, start: Pos, u: Pos, neighbors: seq<Pos>, t: nat, done: set<Pos>)
    requires InGrid(cs0, u) && t <= |neighbors|
  {
    Forest(cs, start, Distance) && Lowered(cs0, cs) && InGrid(cs, u) && At(cs, u) == At(cs0, u) &&
    OfferedUpTo(cs, Distance, At(cs0, u).distance, neighbors, t) &&
    PatchedUpTo(cs0, Turn(cs0, u), cs, neighbors, t, done)
  }

  /** One neighbour's offer (lines 26-33) advances the turn. */
  lemma TurnStep(cs0: Cells, prev: Cells, cs: Cells, start: Pos, u: Pos, rows: nat, cols: nat,
                 neighbors: seq<Pos>, t: nat, done: set<Pos>)
    requires Rect(cs0, rows, cols) && InBounds(u, rows, cols) && neighbors == Neighbors(u, rows, cols)
    requires t < |neighbors| && !At(cs0, u).isWall && At(cs0, u).distance.Finite?
    requires Turning(cs0, prev, start, u, neighbors, t, done)
    requires InGrid(cs0, neighbors[t])
    requires if Gains(cs0, u, neighbors[t]) then cs == Update(prev, neighbors[t], TurnedRecord(cs0, u, neighbors[t]))
             else cs == prev
    ensures Turning(cs0, cs, start, u, neighbors, t + 1, done + {neighbors[t]})
  {
    var v := neighbors[t];
    assert v in neighbors;
    assert At(prev, v) == At(cs0, v);
    if Gains(cs0, u, v) {
      RelaxStep(cs0, prev, start, u, v, TurnedRecord(cs0, u, v));
    } else {
      assert Lowered(cs0, cs);
    }
    OfferedNext(prev, cs, Distance, At(cs0, u).distance, neighbors, t);
    PatchNext(cs0, Turn(cs0, u), prev, cs, neighbors, t, done);
  }

  /** A turn over all neighbours has left no edge out of `u` improvable and
      has produced `Turn(cs0, u)`. */
  lemma TurnEnds(cs0: Cells, cs: Cells, start: Pos, u: Pos, rows: nat, cols: nat, neighbors: seq<Pos>, done: set<Pos>)
    requires Rect(cs0, rows, cols) && InBounds(u, rows, cols) && neighbors == Neighbors(u, rows, cols)
    requires !At(cs0, u).isWall
    requires Turning(cs0, cs, start, u, neighbors, |neighbors|, done)
    ensures cs == Turn(cs0, u) && RelaxedFrom(cs, Distance, u)
  {
    AllOfferedRelaxed(cs, Distance, u, rows, cols);
    PatchEnds(cs0, Turn(cs0, u), cs, neighbors, done);
  }

  /** Lines 23-34: one node's turn in a pass; a reached non-wall node offers
      every non-wall neighbour its distance plus one. */
  method RelaxNode(grid: array2<Node>, u: Pos, ghost start: Pos) returns (changed: bool)
    requires InBounds(u, grid.Length0, grid.Length1)
    requires Forest(View(grid), start, Distance)
    modifies grid
    ensures View(grid) == Turn(old(View(grid)), u)
    ensures changed <==> View(grid) != old(View(grid))
    ensures Forest(View(grid), start, Distance)
    ensures Lowered(old(View(grid)), View(grid))
    ensures RelaxedFrom(View(grid), Distance, u)
    ensures changed ==> exists v :: LowerAt(old(View(grid)), View(grid), v)
  {
    ghost var cs0 := View(grid);
    ghost var cs := cs0;
    ghost var done: set<Pos> := {};
    ghost var moved := u;
    assert Lowered(cs0, cs0);
    changed := false;
    var node := grid[u.row, u.col];
    if node.distance == Infinity || node.isWall {
      IdleTurn(cs0, u);
      return;
    }
    var neighbors := Neighbors(u, grid.Length0, grid.Length1);
    for t := 0 to |neighbors|
      invariant View(grid) == cs && Turning(cs0, cs, start, u, neighbors, t, done)
      invariant !changed ==> cs == cs0
      invariant changed ==> moved in done && InGrid(cs0, moved) && Gains(cs0, u, moved)
    {
      var v := neighbors[t];
      assert v in neighbors;
      ghost var prev := cs;
      assert At(cs, v) == At(cs0, v);
      var neighbor := grid[v.row, v.col];
      assert Gains(cs0, u, v) <==> !neighbor.isWall && node.distance.PlusOne().Less(neighbor.distance);
      if !neighbor.isWall {
        var newDist := node.distance.PlusOne();
        if newDist.Less(neighbor.distance) {
          SetNode(grid, v, neighbor.(distance := newDist, previousNode := Some(u)));
          cs := View(grid);
          changed := true;
          moved := v;
        }
      }
      TurnStep(cs0, prev, cs, start, u, grid.Length0, grid.Length1, neighbors, t, done);
      done := done + {v};
    }
    TurnEnds(cs0, cs, start, u, grid.Length0, grid.Length1, neighbors, done);
    if changed {
      assert At(cs, moved) == TurnedRecord(cs0, u, moved);
      assert LowerAt(cs0, cs, moved);
    }
  }

  /** The grid after the first `j` of `nodes` have had their turn, one after
      the other, each on the grid the previous turn left (lines 20-35). */
  ghost function PassUpTo(cs: Cells, nodes: seq<Pos>, j: nat): (cs': Cells)
    requires j <= |nodes| && forall i :: 0 <= i < |nodes| ==> InGrid(cs, nodes[i])
    ensures |cs'| == |cs| && forall r :: 0 <= r < |cs| ==> |cs'[r]| == |cs[r]|
    decreases j
  {
    if j == 0 then cs
    else
      var before := PassUpTo(cs, nodes, j - 1);
      assert InGrid(before, nodes[j - 1]);
      Turn(before, nodes[j - 1])
  }

  /** `p` has a lower distance in `b` than in `a`. */
  ghost predicate LowerAt(a: Cells, b: Cells, p: Pos) {
    InGrid(a, p) && InGrid(b, p) && At(b, p).distance.Less(At(a, p).distance)
  }

  /** The closed form of a pass that has given the first `j` of `nodes` their
      turn; `moved` witnesses a change once there has been one. */
  ghost predicate Tracked(cs0: Cells, cs: Cells, nodes: seq<Pos>, j: nat, updated: bool, moved: Pos)
    requires j <= |nodes|
  {
    (forall i :: 0 <= i < |nodes| ==> InGrid(cs0, nodes[i])) && cs == PassUpTo(cs0, nodes, j) &&
    Lowered(cs0, cs) && (updated ==> LowerAt(cs0, cs, moved))
  }

  /** Node `nodes[j]`'s turn extends the pass's closed form by one turn, and a
      node lowered during the pass stays lowered; `moved'` is such a node once
      anything has changed. */
  lemma PassTrack(cs0: Cells, cs: Cells, cs': Cells, nodes: seq<Pos>, j: nat, updated: bool, changed: bool,
                  moved: Pos) returns (moved': Pos)
    requires j < |nodes| && Tracked(cs0, cs, nodes, j, updated, moved)
    requires InGrid(cs, nodes[j]) && cs' == Turn(cs, nodes[j]) && Lowered(cs, cs')
    requires changed ==> exists v :: LowerAt(cs, cs', v)
    ensures Tracked(cs0, cs', nodes, j + 1, updated || changed, moved')
  {
    LoweredTrans(cs0, cs, cs');
    moved' := moved;
    if changed {
      var v :| LowerAt(cs, cs', v);
      assert !At(cs0, v).distance.Less(At(cs, v).distance);
      moved' := v;
    } else if updated {
      assert InGrid(cs, moved) && !At(cs, moved).distance.Less(At(cs', moved).distance);
    }
  }

  /** At the end of a pass its update flag says whether the grid changed. */
  lemma TrackEnds(cs0: Cells, cs: Cells, nodes: seq<Pos>, updated: bool, moved: Pos)
    requires Tracked(cs0, cs, nodes, |nodes|, updated, moved) && (!updated ==> cs == cs0)
    ensures updated <==> cs != cs0
  {
    if updated {
      assert At(cs, moved) != At(cs0, moved);
    }
  }

  /** The state of a pass that has given the first `j` of `nodes` their turn. */
  ghost predicate PassSoFar(layout: Cells, cs0: Cells, cs: Cells, start: Pos, k: nat, nodes: seq<Pos>, j: nat,
                            updated: bool)
    requires j <= |nodes|
  {
    Forest(cs, start, Distance) && Lowered(cs0, cs) && SameLayout(layout, cs) &&
    CoversIn(layout, cs, start, k) &&
    (forall i :: 0 <= i < j ==> StepCovered(layout, cs, start, k, nodes[i])) &&
    (!updated ==> cs == cs0 && forall i :: 0 <= i < j ==> RelaxedFrom(cs, Distance, nodes[i]))
  }

  /** Bookkeeping after node `u`'s turn in a pass: the covered walks and the
      covered last steps survive the lowering, and `u`'s last steps join them. */
  lemma PassStep(layout: Cells, cs0: Cells, cs: Cells, cs': Cells, start: Pos, k: nat, nodes: seq<Pos>, j: nat,
                 updated: bool, changed: bool)
    requires j < |nodes| && PassSoFar(layout, cs0, cs, start, k, nodes, j, updated)
    requires Forest(cs', start, Distance) && Lowered(cs, cs') && RelaxedFrom(cs', Distance, nodes[j])
    requires !changed ==> cs' == cs
    ensures PassSoFar(layout, cs0, cs', start, k, nodes, j + 1, updated || changed)
  {
    LoweredTrans(cs0, cs, cs');
    CoverStep(layout, cs, cs', start, k, nodes, j);
    if !(updated || changed) {
      forall i | 0 <= i < j + 1 ensures RelaxedFrom(cs', Distance, nodes[i]) {
      }
    }
  }

  /** Node `nodes[j]`'s turn, as `RelaxNode` leaves it, advances both the
      closed form and the bookkeeping of the pass. */
  lemma TurnInPass(layout: Cells, cs0: Cells, cs: Cells, cs': Cells, start: Pos, k: nat, nodes: seq<Pos>, j: nat,
                   updated: bool, changed: bool, moved: Pos) returns (moved': Pos)
    requires j < |nodes| && Tracked(cs0, cs, nodes, j, updated, moved)
    requires PassSoFar(layout, cs0, cs, start, k, nodes, j, updated)
    requires InGrid(cs, nodes[j]) && cs' == Turn(cs, nodes[j]) && (changed <==> cs' != cs)
    requires Forest(cs', start, Distance) && Lowered(cs, cs') && RelaxedFrom(cs', Distance, nodes[j])
    requires changed ==> exists v :: LowerAt(cs, cs', v)
    ensures Tracked(cs0, cs', nodes, j + 1, updated || changed, moved')
    ensures PassSoFar(layout, cs0, cs', start, k, nodes, j + 1, updated || changed)
  {
    PassStep(layout, cs0, cs, cs', start, k, nodes, j, updated, changed);
    moved' := PassTrack(cs0, cs, cs', nodes, j, updated, changed, moved);
  }

  /** The cover part of `PassStep`. */
  lemma CoverStep(layout: Cells, cs: Cells, cs': Cells, start: Pos, k: nat, nodes: seq<Pos>, j: nat)
    requires j < |nodes| && SameLayout(layout, cs) && Lowered(cs, cs') && CoversIn(layout, cs, start, k)
    requires forall i :: 0 <= i < j ==> StepCovered(layout, cs, start, k, nodes[i])
    requires RelaxedFrom(cs', Distance, nodes[j])
    ensures SameLayout(layout, cs') && CoversIn(layout, cs', start, k)
    ensures forall i :: 0 <= i < j + 1 ==> StepCovered(layout, cs', start, k, nodes[i])
  {
    assert forall p :: InGrid(cs, p) ==> At(cs', p).isWall == At(cs, p).isWall;
    LoweredKeepsCover(layout, cs, cs', start, k, nodes, j);
    StepFromRelaxed(layout, cs', start, k, nodes[j]);
    forall i | 0 <= i < j + 1 ensures StepCovered(layout, cs', start, k, nodes[i]) {
    }
  }

  /** Lines 20-35: one pass over all nodes, in the order of `nodes`. The pass
      leaves exactly the grid of the turns one after the other, reports an
      update exactly when the grid changed, and extends the covered walks by
      one step; a pass that changes nothing has reached the fixed point. */
  method RelaxPass(grid: array2<Node>, nodes: seq<Pos>, ghost start: Pos, ghost layout: Cells, ghost k: nat)
    returns (updated: bool)
    requires Enumerates(nodes, grid.Length0, grid.Length1)
    requires Forest(View(grid), start, Distance)
    requires SameLayout(layout, View(grid)) && CoversIn(layout, View(grid), start, k)
    modifies grid
    ensures forall i :: 0 <= i < |nodes| ==> InGrid(old(View(grid)), nodes[i])
    ensures View(grid) == PassUpTo(old(View(grid)), nodes, |nodes|)
    ensures updated <==> View(grid) != old(View(grid))
    ensures Forest(View(grid), start, Distance)
    ensures Lowered(old(View(grid)), View(grid))
    ensures CoversIn(layout, View(grid), start, k + 1)
    ensures !updated ==> Relaxed(View(grid), Distance)
  {
    ghost var cs0 := View(grid);
    ghost var cs := cs0;
    ghost var moved := start;
    assert forall i :: 0 <= i < |nodes| ==> InGrid(cs0, nodes[i]) by {
      forall i | 0 <= i < |nodes| ensures InGrid(cs0, nodes[i]) {
        assert nodes[i] in nodes;
      }
    }
    assert Lowered(cs0, cs0);
    updated := false;
    for j := 0 to |nodes|
      invariant View(grid) == cs && Rect(cs, grid.Length0, grid.Length1)
      invariant Tracked(cs0, cs, nodes, j, updated, moved)
      invariant PassSoFar(layout, cs0, cs, start, k, nodes, j, updated)
    {
      assert nodes[j] in nodes;
      var changed := RelaxNode(grid, nodes[j], start);
      moved := TurnInPass(layout, cs0, cs, View(grid), start, k, nodes, j, updated, changed, moved);
      cs := View(grid);
      updated := updated || changed;
    }
    TrackEnds(cs0, cs, nodes, updated, moved);
    PassEnds(layout, cs0, cs, start, k, nodes, grid.Length0, grid.Length1, updated);
  }

  /** After every node has had its turn the walks one step longer are
      covered, and a pass without change leaves every node relaxed. */
  lemma PassEnds(layout: Cells, cs0: Cells, cs: Cells, start: Pos, k: nat, nodes: seq<Pos>, rows: nat, cols: nat,
                 updated: bool)
    requires Rect(cs, rows, cols) && Enumerates(nodes, rows, cols)
    requires PassSoFar(layout, cs0, cs, start, k, nodes, |nodes|, updated)
    ensures CoversIn(layout, cs, start, k + 1)
    ensures !updated ==> Relaxed(cs, Distance)
  {
    forall u | u in nodes ensures StepCovered(layout, cs, start, k, u) && (!updated ==> RelaxedFrom(cs, Distance, u)) {
      var i :| 0 <= i < |nodes| && nodes[i] == u;
    }
    PassCovers(layout, cs, start, k, nodes, rows, cols);
    if !updated {
      RelaxedIff(cs, Distance);
    }
  }

  /** A node that the marking step of a pass takes: reached but not yet visited. */
  ghost predicate Newly(cs: Cells, p: Pos) {
    InGrid(cs, p) && At(cs, p).distance.Finite? && !At(cs, p).isVisited
  }

  /** The nodes of `s` that the marking step takes, in the order of `s`. */
  ghost function Pending(cs: Cells, s: seq<Pos>): seq<Pos> {
    if s == [] then []
    else
      var last := s[|s| - 1];
      Pending(cs, s[..|s| - 1]) + (if Newly(cs, last) then [last] else [])
  }

  lemma {:induction false} PendingFacts(cs: Cells, s: seq<Pos>)
    ensures forall p :: p in Pending(cs, s) <==> p in s && Newly(cs, p)
    ensures NoDup(s) ==> NoDup(Pending(cs, s))
  {
    if s != [] {
      var front := s[..|s| - 1];
      PendingFacts(cs, front);
      assert forall p :: p in s <==> p in front || p == s[|s| - 1];
    }
  }

  /** `b` is `a` after the marking step: the newly reached nodes are visited. */
  ghost predicate Marked(a: Cells, b: Cells) {
    |a| == |b| && (forall r :: 0 <= r < |a| ==> |a[r]| == |b[r]|) &&
    forall p :: InGrid(a, p) ==> At(b, p) == if Newly(a, p) then At(a, p).(isVisited := true) else At(a, p)
  }

  /** Lines 38-43: mark every reached, unvisited node visited and append it
      to the trace, row by row. */
  method MarkReached(grid: array2<Node>, nodes: seq<Pos>, trace: seq<Pos>) returns (trace': seq<Pos>)
    requires Enumerates(nodes, grid.Length0, grid.Length1)
    modifies grid
    ensures trace' == trace + Pending(old(View(grid)), nodes)
    ensures Marked(old(View(grid)), View(grid))
  {
    ghost var cs0 := View(grid);
    ghost var cs := cs0;
    trace' := trace;
    for k := 0 to |nodes|
      invariant View(grid) == cs && Rect(cs, grid.Length0, grid.Length1)
      invariant trace' == trace + Pending(cs0, nodes[..k])
      invariant forall p :: InGrid(cs0, p) ==>
        At(cs, p) == if p in nodes[..k] && Newly(cs0, p) then At(cs0, p).(isVisited := true) else At(cs0, p)
    {
      var p := nodes[k];
      assert p in nodes;
      assert nodes[..k + 1] == nodes[..k] + [p];
      assert nodes[..k + 1][..k] == nodes[..k];
      assert p !in nodes[..k];
      var node := grid[p.row, p.col];
      if node.distance != Infinity && !node.isVisited {
        SetNode(grid, p, node.(isVisited := true));
        trace' := trace' + [p];
      }
      cs := View(grid);
    }
    assert nodes[..|nodes|] == nodes;
  }

  /** Lines 50-59: the final scan warns exactly when some edge between two
      non-wall neighbours can still be relaxed. */
  method NegativeCycleScan(grid: array2<Node>, nodes: seq<Pos>) returns (warned: bool)
    requires Enumerates(nodes, grid.Length0, grid.Length1)
    ensures warned <==> !Relaxed(View(grid), Distance)
  {
    ghost var cs := View(grid);
    warned := false;
    for k := 0 to |nodes|
      invariant !warned <==> forall i :: 0 <= i < k ==> RelaxedFrom(cs, Distance, nodes[i])
    {
      var u := nodes[k];
      assert u in nodes;
      var node := grid[u.row, u.col];
      if node.distance != Infinity && !node.isWall {
        var neighbors := Neighbors(u, grid.Length0, grid.Length1);
        ghost var warnedBefore := warned;
        assert node == At(cs, u);
        for t := 0 to |neighbors|
          invariant !warned <==> !warnedBefore && OfferedUpTo(cs, Distance, node.distance, neighbors, t)
        {
          var v := neighbors[t];
          assert v in neighbors;
          var neighbor := grid[v.row, v.col];
          assert InGrid(cs, v) && neighbor == At(cs, v);
          if !neighbor.isWall && node.distance.PlusOne().Less(neighbor.distance) {
            warned := true;
          }
        }
        AllOfferedRelaxed(cs, Distance, u, grid.Length0, grid.Length1);
      }
    }
    if !warned {
      forall u | InGrid(cs, u) ensures RelaxedFrom(cs, Distance, u) {
        assert u in nodes;
        ghost var i :| 0 <= i < |nodes| && nodes[i] == u;
      }
    } else {
      ghost var i :| 0 <= i < |nodes| && !RelaxedFrom(cs, Distance, nodes[i]);
      assert nodes[i] in nodes;
    }
    RelaxedIff(cs, Distance);
  }

  /** After `rows * cols - 1` passes every walk short enough to be simple is
      covered, and then no edge can be relaxed: a back-link chain holds no
      node twice, so it and any one-step extension of it are such walks. */
  lemma FullCoverRelaxed(layout: Cells, cs: Cells, start: Pos, rows: nat, cols: nat)
    requires Rect(cs, rows, cols) && rows * cols > 0
    requires SameLayout(layout, cs) && Forest(cs, start, Distance)
    requires CoversIn(layout, cs, start, rows * cols - 1)
    ensures Relaxed(cs, Distance)
  {
    forall p, q | InGrid(cs, p) && InGrid(cs, q) && Adjacent(p, q) && !At(cs, p).isWall && !At(cs, q).isWall
      ensures !Cost(cs, Distance, p).PlusOne().Less(Cost(cs, Distance, q))
    {
      if Cost(cs, Distance, p).Finite? {
        var chain := Chain(cs, Distance, p);
        ChainAscends(cs, Distance, p, chain);
        ChainEnds(cs, start, Distance, p, chain);
        if |chain| == 1 {
          assert IsWalk(cs, chain);
        }
        if q in chain {
          var i :| 0 <= i < |chain| && chain[i] == q;
          CoveredOnChain(layout, cs, start, rows, cols, chain, i);
        } else {
          CoveredPastChain(layout, cs, start, rows, cols, chain, q);
        }
      }
    }
  }

  /** A node on a back-link chain from the start is within its position on it. */
  lemma CoveredOnChain(layout: Cells, cs: Cells, start: Pos, rows: nat, cols: nat, chain: seq<Pos>, i: nat)
    requires Rect(cs, rows, cols) && rows * cols > 0
    requires SameLayout(layout, cs) && CoversIn(layout, cs, start, rows * cols - 1)
    requires IsWalk(cs, chain) && NoDup(chain) && chain[0] == start && i < |chain|
    ensures Within(cs, chain[i], i)
  {
    DistinctCellsBound(chain, rows, cols);
    var prefix := chain[..i + 1];
    assert IsWalk(cs, prefix);
    SameLayoutSameWalks(cs, layout, prefix);
    assert prefix[i] == chain[i];
  }

  /** A neighbour `q` off a back-link chain from the start is within one step more than the chain. */
  lemma CoveredPastChain(layout: Cells, cs: Cells, start: Pos, rows: nat, cols: nat, chain: seq<Pos>, q: Pos)
    requires Rect(cs, rows, cols) && rows * cols > 0
    requires SameLayout(layout, cs) && CoversIn(layout, cs, start, rows * cols - 1)
    requires IsWalk(cs, chain) && NoDup(chain) && chain[0] == start
    requires InGrid(cs, q) && !At(cs, q).isWall && Adjacent(chain[|chain| - 1], q) && q !in chain
    ensures Within(cs, q, |chain|)
  {
    var ext := chain + [q];
    ExtendedWalk(cs, rows, cols, chain, q);
    DistinctCellsBound(ext, rows, cols);
    SameLayoutSameWalks(cs, layout, ext);
    assert IsWalk(layout, ext) && ext[0] == start && |ext| <= rows * cols - 1 + 1;
    assert ext[|ext| - 1] == q;
  }

  /** One step to a node off a simple walk gives a longer simple walk. */
  lemma ExtendedWalk(cs: Cells, rows: nat, cols: nat, chain: seq<Pos>, q: Pos)
    requires Rect(cs, rows, cols)
    requires IsWalk(cs, chain) && NoDup(chain)
    requires InGrid(cs, q) && !At(cs, q).isWall && Adjacent(chain[|chain| - 1], q) && q !in chain
    ensures IsWalk(cs, chain + [q]) && NoDup(chain + [q])
    ensures forall i :: 0 <= i < |chain + [q]| ==> InBounds((chain + [q])[i], rows, cols)
  {
    var ext := chain + [q];
    assert forall i :: 0 <= i < |chain| ==> ext[i] == chain[i];
  }

  /** `cs` is `cs0` after step 1: everything unreached except the start at 0. */
  ghost predicate InitializedFrom(cs0: Cells, cs: Cells, start: Pos) {
    |cs0| == |cs| && (forall r :: 0 <= r < |cs0| ==> |cs0[r]| == |cs[r]|) &&
    forall p :: InGrid(cs0, p) ==>
      At(cs, p) == if p == start then Unreached(At(cs0, p)).(distance := Finite(0)) else Unreached(At(cs0, p))
  }

  /** What holds between two passes of the main loop, after `passes` passes
      and with `trace` as the visited nodes so far. */
  ghost predicate Between(cs0: Cells, layout: Cells, cs: Cells, start: Pos, passes: nat, trace: seq<Pos>) {
    Frame(cs0, cs) && SameLayout(layout, cs) && Forest(cs, start, Distance) &&
    CoversIn(layout, cs, start, passes) && NoDup(trace) &&
    (forall p :: p in trace ==> InGrid(cs, p) && At(cs, p).distance.Finite?) &&
    (forall p :: InGrid(cs, p) ==> (At(cs, p).isVisited <==> p in trace)) &&
    (passes > 0 ==> forall p :: InGrid(cs, p) && At(cs, p).distance.Finite? ==> At(cs, p).isVisited)
  }

  /** After the main loop, whether it ran all `rows * cols - 1` passes or
      stopped at a pass that changed nothing: no edge can be improved, and
      the trace holds each reached node once. */
  lemma Concluded(cs0: Cells, layout: Cells, cs: Cells, start: Pos, passes: nat, trace: seq<Pos>,
                  rows: nat, cols: nat)
    requires Rect(cs, rows, cols) && rows * cols > 0
    requires Between(cs0, layout, cs, start, passes, trace)
    requires passes == rows * cols - 1 || (passes > 0 && Relaxed(cs, Distance))
    ensures Relaxed(cs, Distance)
    ensures NoDup(trace) && |trace| <= rows * cols
    ensures rows * cols > 1 ==> forall p :: InGrid(cs, p) && At(cs, p).distance.Finite? ==> p in trace
  {
    if !Relaxed(cs, Distance) {
      FullCoverRelaxed(layout, cs, start, rows, cols);
    }
    forall j | 0 <= j < |trace| ensures InBounds(trace[j], rows, cols) {
      assert trace[j] in trace;
    }
    DistinctCellsBound(trace, rows, cols);
  }

  /** Right after step 1 only the start is reached and nothing is visited. */
  lemma InitialState(cs0: Cells, cs: Cells, start: Pos)
    requires InGrid(cs0, start) && InitializedFrom(cs0, cs, start)
    ensures Between(cs0, cs, cs, start, 0, [])
  {
    assert forall p :: InGrid(cs, p) <==> InGrid(cs0, p);
    assert Forest(cs, start, Distance) by {
      forall p | InGrid(cs, p) ensures LinkOk(cs, Distance, p) && Rooted(cs, start, Distance, p) {
        assert InGrid(cs0, p);
      }
    }
    forall w | IsWalk(cs, w) && w[0] == start && |w| <= 1 ensures Within(cs, w[|w| - 1], |w| - 1) {
      assert w[|w| - 1] == start;
    }
  }

  /** The marking step keeps what the relaxation phase established. */
  lemma MarkKeepsLinks(cs0: Cells, layout: Cells, before: Cells, afterPass: Cells, afterMark: Cells,
                       start: Pos, passes: nat)
    requires Frame(cs0, before) && SameLayout(layout, before)
    requires Lowered(before, afterPass) && Forest(afterPass, start, Distance)
    requires CoversIn(layout, afterPass, start, passes + 1)
    requires Marked(afterPass, afterMark)
    ensures Frame(cs0, afterMark) && SameLayout(layout, afterMark) && Forest(afterMark, start, Distance)
    ensures CoversIn(layout, afterMark, start, passes + 1)
    ensures Relaxed(afterPass, Distance) ==> Relaxed(afterMark, Distance)
  {
    SameLinksSameForest(afterPass, afterMark, start, Distance);
    MarkKeepsFrame(cs0, layout, before, afterPass, afterMark);
    assert forall p, bound: int :: Within(afterPass, p, bound) ==> Within(afterMark, p, bound);
  }

  /** The marking step changes only `isVisited`. */
  lemma MarkKeepsFrame(cs0: Cells, layout: Cells, before: Cells, afterPass: Cells, afterMark: Cells)
    requires Frame(cs0, before) && SameLayout(layout, before)
    requires Lowered(before, afterPass) && Marked(afterPass, afterMark)
    ensures Frame(cs0, afterMark) && SameLayout(layout, afterMark)
  {
    forall p | InGrid(cs0, p)
      ensures At(afterMark, p) == At(cs0, p).(distance := At(afterMark, p).distance,
                previousNode := At(afterMark, p).previousNode, isVisited := At(afterMark, p).isVisited)
    {
      assert InGrid(before, p) && InGrid(afterPass, p);
    }
    forall p | InGrid(layout, p) ensures At(layout, p).isWall == At(afterMark, p).isWall {
      assert InGrid(before, p) && InGrid(afterPass, p);
    }
  }

  /** The marking step appends exactly the newly reached nodes to the trace:
      afterwards the trace is still duplicate-free and lists exactly the
      visited nodes, and every reached node is visited. */
  lemma MarkTrace(before: Cells, afterPass: Cells, afterMark: Cells, trace: seq<Pos>, nodes: seq<Pos>,
                  rows: nat, cols: nat)
    requires Rect(before, rows, cols) && Enumerates(nodes, rows, cols)
    requires NoDup(trace)
    requires forall p :: p in trace ==> InGrid(before, p) && At(before, p).distance.Finite?
    requires forall p :: InGrid(before, p) ==> (At(before, p).isVisited <==> p in trace)
    requires Lowered(before, afterPass) && Marked(afterPass, afterMark)
    ensures NoDup(trace + Pending(afterPass, nodes))
    ensures forall p :: p in trace + Pending(afterPass, nodes) ==> InGrid(afterMark, p) && At(afterMark, p).distance.Finite?
    ensures forall p :: InGrid(afterMark, p) ==> (At(afterMark, p).isVisited <==> p in trace + Pending(afterPass, nodes))
    ensures forall p :: InGrid(afterMark, p) && At(afterMark, p).distance.Finite? ==> At(afterMark, p).isVisited
  {
    var added := Pending(afterPass, nodes);
    var trace' := trace + added;
    assert forall p :: InGrid(afterPass, p) <==> p in nodes;
    PendingFacts(afterPass, nodes);
    forall p | p in trace' ensures InGrid(afterMark, p) && At(afterMark, p).distance.Finite? {
      if p in trace {
        assert InGrid(before, p);
      }
    }
    assert NoDup(trace') by {
      forall i, j | 0 <= i < j < |trace'| ensures trace'[i] != trace'[j] {
        if i < |trace| <= j {
          assert trace'[j] in added;
          assert trace'[i] in trace;
          assert InGrid(before, trace'[i]);
        }
      }
    }
    forall p | InGrid(afterMark, p) ensures At(afterMark, p).isVisited <==> p in trace' {
      assert InGrid(before, p);
    }
  }

  /** One pass (a lowering of `before` to `afterPass`) and its marking step
      (`afterPass` to `afterMark`) move the loop from `passes` to `passes + 1`. */
  lemma PassAndMark(cs0: Cells, layout: Cells, before: Cells, afterPass: Cells, afterMark: Cells,
                    start: Pos, passes: nat, trace: seq<Pos>, nodes: seq<Pos>, rows: nat, cols: nat)
    requires Rect(before, rows, cols) && Enumerates(nodes, rows, cols)
    requires Between(cs0, layout, before, start, passes, trace)
    requires Lowered(before, afterPass) && Forest(afterPass, start, Distance)
    requires CoversIn(layout, afterPass, start, passes + 1)
    requires Marked(afterPass, afterMark)
    ensures Between(cs0, layout, afterMark, start, passes + 1, trace + Pending(afterPass, nodes))
    ensures Relaxed(afterPass, Distance) ==> Relaxed(afterMark, Distance)
  {
    MarkKeepsLinks(cs0, layout, before, afterPass, afterMark, start, passes);
    MarkTrace(before, afterPass, afterMark, trace, nodes, rows, cols);
  }

  /** `bellmanFord`: resets the scratch fields, relaxes for at most
      `numNodes - 1` passes (fewer once a pass changes nothing), marks the
      nodes reached by each pass in row-major order, then scans for an edge
      that could still be relaxed. The run ends at the fixed point, so no
      warning is raised, and the back-links form a forest rooted at the start. */
  method BellmanFord(grid: array2<Node>, startNode: Pos, finishNode: Pos)
    returns (visitedNodesInOrder: seq<Pos>, negativeCycleWarning: bool)
    requires InBounds(startNode, grid.Length0, grid.Length1)
    modifies grid
    ensures Frame(old(View(grid)), View(grid))
    ensures Forest(View(grid), startNode, Distance)
    ensures Relaxed(View(grid), Distance) && !negativeCycleWarning
    ensures NoDup(visitedNodesInOrder) && |visitedNodesInOrder| <= grid.Length0 * grid.Length1
    ensures forall p :: p in visitedNodesInOrder ==> InGrid(View(grid), p) && At(View(grid), p).distance.Finite?
    ensures forall p :: InGrid(View(grid), p) ==> (At(View(grid), p).isVisited <==> p in visitedNodesInOrder)
    ensures grid.Length0 * grid.Length1 > 1 ==>
      forall p :: InGrid(View(grid), p) && At(View(grid), p).distance.Finite? ==> p in visitedNodesInOrder
  {
    ghost var cs0 := View(grid);
    visitedNodesInOrder := [];
    var allNodes := AllNodes(grid);
    Initialize(grid, allNodes, startNode);
    ghost var cs := View(grid);
    ghost var layout := cs;
    InitialState(cs0, cs, startNode);

    var numNodes := |allNodes|;
    var i := 0;
    while i < numNodes - 1
      invariant View(grid) == cs && Rect(cs, grid.Length0, grid.Length1)
      invariant i <= numNodes - 1
      invariant Between(cs0, layout, cs, startNode, i, visitedNodesInOrder)
      decreases numNodes - 1 - i
    {
      var updated := RelaxPass(grid, allNodes, startNode, layout, i);
      ghost var afterPass := View(grid);
      ghost var trace := visitedNodesInOrder;
      visitedNodesInOrder := MarkReached(grid, allNodes, visitedNodesInOrder);
      PassAndMark(cs0, layout, cs, afterPass, View(grid), startNode, i, trace, allNodes, grid.Length0, grid.Length1);
      cs := View(grid);
      i := i + 1;
      if !updated {
        break;
      }
    }
    Concluded(cs0, layout, cs, startNode, i, visitedNodesInOrder, grid.Length0, grid.Length1);
    negativeCycleWarning := NegativeCycleScan(grid, allNodes);
  }

  /** `getNodesInShortestPathOrder`: follow the back-links from `finish`,
      putting each node in front of those already collected. */
  method NodesInShortestPathOrder(grid: array2<Node>, finish: Pos) returns (path: seq<Pos>)
    requires InBounds(finish, grid.Length0, grid.Length1)
    requires BackLinks(View(grid), Distance) || BackLinks(View(grid), G)
    ensures IsBackChain(View(grid), finish, path)
  {
    ghost var cs := View(grid);
    ghost var m := if BackLinks(cs, Distance) then Distance else G;
    path := [finish];
    assert LinkOk(cs, m, finish);
    var current := grid[finish.row, finish.col].previousNode;
    while current.Some?
      invariant IsBackChainFrom(cs, finish, path, current)
      decreases if current.Some? then ChainRank(cs, m, current.value) + 1 else 0
    {
      assert LinkOk(cs, m, path[0]);
      var p := current.value;
      path := [p] + path;
      current := grid[p.row, p.col].previousNode;
    }
  }

  /** `path` is a back-link chain ending at `finish` except that its first
      node may still link further back, to `next`. */
  ghost predicate IsBackChainFrom(cs: Cells, finish: Pos, path: seq<Pos>, next: Option<Pos>) {
    |path| > 0 && path[|path| - 1] == finish &&
    (forall i :: 0 <= i < |path| ==> InGrid(cs, path[i])) &&
    At(cs, path[0]).previousNode == next &&
    (next.Some? ==> InGrid(cs, next.value)) &&
    forall i :: 0 < i < |path| ==> At(cs, path[i]).previousNode == Some(path[i - 1])
  }
}
