/** What the searches leave behind in the scratch fields: a forest of
    back-links rooted at the start, ranked by the search's cost field, and
    what such a forest says about walks through the grid. */
module Search {
  import opened Grid

  /** The cost field a search ranks nodes by: Bellman-Ford's `distance` or A*'s `g`. */
  datatype Metric = Distance | G {
    function Of(n: Node): Dist {
      match this
      case Distance => n.distance
      case G => n.g
    }
  }

  ghost function Cost(cs: Cells, m: Metric, p: Pos): Dist
    requires InGrid(cs, p)
  {
    m.Of(At(cs, p))
  }

  /** The back-link of `p`, if any, goes to an adjacent node; neither is a wall,
      both costs are finite and the predecessor's is strictly smaller. */
  ghost predicate LinkOk(cs: Cells, m: Metric, p: Pos)
    requires InGrid(cs, p)
  {
    match At(cs, p).previousNode
    case None => true
    case Some(q) =>
      InGrid(cs, q) && Adjacent(q, p) && !At(cs, p).isWall && !At(cs, q).isWall &&
      Cost(cs, m, q).Finite? && Cost(cs, m, p).Finite? && Cost(cs, m, q).n < Cost(cs, m, p).n
  }

  ghost predicate BackLinks(cs: Cells, m: Metric) {
    forall p :: InGrid(cs, p) ==> LinkOk(cs, m, p)
  }

  /** Apart from the start, a node has a back-link exactly when its cost is finite. */
  ghost predicate Rooted(cs: Cells, start: Pos, m: Metric, p: Pos)
    requires InGrid(cs, p)
  {
    p != start ==> (Cost(cs, m, p).Finite? <==> At(cs, p).previousNode.Some?)
  }

  /** The state a search keeps between its steps: the start costs 0 and has no
      back-link, every other reached node links towards it, and the links descend. */
  ghost predicate Forest(cs: Cells, start: Pos, m: Metric) {
    InGrid(cs, start) && Cost(cs, m, start) == Finite(0) && At(cs, start).previousNode == None &&
    BackLinks(cs, m) &&
    forall p :: InGrid(cs, p) ==> Rooted(cs, start, m, p)
  }

  /** `path` is what following back-links from `finish` yields, oldest first:
      it ends at `finish`, every element links to the one before it, and the
      first element has no back-link. */
  ghost predicate IsBackChain(cs: Cells, finish: Pos, path: seq<Pos>) {
    |path| > 0 && path[|path| - 1] == finish &&
    (forall i :: 0 <= i < |path| ==> InGrid(cs, path[i])) &&
    At(cs, path[0]).previousNode == None &&
    forall i :: 0 < i < |path| ==> At(cs, path[i]).previousNode == Some(path[i - 1])
  }

  ghost function ChainRank(cs: Cells, m: Metric, p: Pos): nat
    requires InGrid(cs, p)
  {
    match Cost(cs, m, p)
    case Finite(n) => n + 1
    case Infinity => 0
  }

  /** The back-link chain ending at `p`. */
  ghost function Chain(cs: Cells, m: Metric, p: Pos): (path: seq<Pos>)
    requires BackLinks(cs, m) && InGrid(cs, p)
    ensures IsBackChain(cs, p, path)
    decreases ChainRank(cs, m, p)
  {
    assert LinkOk(cs, m, p);
    match At(cs, p).previousNode
    case None => [p]
    case Some(q) => Chain(cs, m, q) + [p]
  }

  /** The back-link chain ending at a node is unique. */
  lemma {:induction false} BackChainUnique(cs: Cells, finish: Pos, a: seq<Pos>, b: seq<Pos>)
    requires IsBackChain(cs, finish, a) && IsBackChain(cs, finish, b)
    ensures a == b
    decreases |a|
  {
    var link := At(cs, finish).previousNode;
    if |a| == 1 {
      assert a == [finish] && link == None;
    } else {
      assert link == Some(a[|a| - 2]);
    }
    if |b| == 1 {
      assert b == [finish] && link == None;
    } else {
      assert link == Some(b[|b| - 2]);
    }
    if |a| > 1 && |b| > 1 {
      var a', b' := a[..|a| - 1], b[..|b| - 1];
      assert IsBackChain(cs, a[|a| - 2], a');
      assert IsBackChain(cs, b[|b| - 2], b');
      BackChainUnique(cs, a[|a| - 2], a', b');
      assert a == a' + [finish] && b == b' + [finish];
    }
  }

  /** Along a back-link chain the cost rises strictly, so the chain has no
      repeated node and, beyond one node, is a wall-free walk. */
  lemma {:induction false} ChainAscends(cs: Cells, m: Metric, finish: Pos, path: seq<Pos>)
    requires BackLinks(cs, m) && IsBackChain(cs, finish, path)
    ensures |path| > 1 ==> forall i :: 0 <= i < |path| ==> Cost(cs, m, path[i]).Finite?
    ensures forall i, j :: 0 <= i < j < |path| ==> Cost(cs, m, path[i]).n < Cost(cs, m, path[j]).n
    ensures |path| > 1 ==> Cost(cs, m, finish).n >= Cost(cs, m, path[0]).n + |path| - 1
    ensures NoDup(path)
    ensures |path| > 1 ==> IsWalk(cs, path)
    decreases |path|
  {
    if |path| > 1 {
      var q := path[|path| - 2];
      var front := path[..|path| - 1];
      assert LinkOk(cs, m, finish);
      assert IsBackChain(cs, q, front);
      ChainAscends(cs, m, q, front);
      forall i | 0 <= i < |path| - 1
        ensures Cost(cs, m, path[i]).Finite? && Cost(cs, m, path[i]).n < Cost(cs, m, finish).n
      {
        if |front| > 1 {
          assert front[i] == path[i];
        } else {
          assert path[i] == q;
        }
      }
      assert forall i :: 0 < i < |path| ==> LinkOk(cs, m, path[i]);
      assert path[0] == front[0];
    }
  }

  /** In a forest, the chain back from `finish` starts at the start exactly
      when `finish` was reached, and is `[finish]` alone otherwise; it has at
      most one node more than the cost of `finish`. */
  lemma ChainEnds(cs: Cells, start: Pos, m: Metric, finish: Pos, path: seq<Pos>)
    requires Forest(cs, start, m) && IsBackChain(cs, finish, path)
    ensures Cost(cs, m, finish).Finite? <==> path[0] == start
    ensures Cost(cs, m, finish).Infinity? ==> path == [finish]
    ensures Cost(cs, m, finish).Finite? ==> |path| <= Cost(cs, m, finish).n + 1
  {
    ChainAscends(cs, m, finish, path);
    assert Rooted(cs, start, m, path[0]);
    if |path| > 1 {
      assert LinkOk(cs, m, path[1]);
    } else {
      assert path == [finish];
    }
  }

  /** A wall-free 4-connected walk through the grid. */
  ghost predicate IsWalk(cs: Cells, w: seq<Pos>) {
    |w| > 0 &&
    (forall i :: 0 <= i < |w| ==> InGrid(cs, w[i]) && !At(cs, w[i]).isWall) &&
    (forall i :: 0 < i < |w| ==> Adjacent(w[i - 1], w[i]))
  }

  ghost predicate Reachable(cs: Cells, from: Pos, to: Pos) {
    exists w :: IsWalk(cs, w) && w[0] == from && w[|w| - 1] == to
  }

  /** `a` and `b` have the same shape and the same walls. */
  ghost predicate SameLayout(a: Cells, b: Cells) {
    |a| == |b| && (forall r :: 0 <= r < |a| ==> |a[r]| == |b[r]|) &&
    forall p :: InGrid(a, p) ==> At(a, p).isWall == At(b, p).isWall
  }

  lemma SameLayoutSameWalks(a: Cells, b: Cells, w: seq<Pos>)
    requires SameLayout(a, b)
    ensures IsWalk(a, w) <==> IsWalk(b, w)
  {
    assert forall p :: InGrid(a, p) <==> InGrid(b, p);
  }

  /** Lowering a non-wall node's cost to one more than the finite cost of a
      non-wall neighbour, and linking it to that neighbour, keeps the forest. */
  lemma RelaxKeepsForest(cs: Cells, start: Pos, m: Metric, u: Pos, v: Pos, n: Node)
    requires Forest(cs, start, m)
    requires InGrid(cs, u) && InGrid(cs, v) && Adjacent(u, v)
    requires !At(cs, u).isWall && !At(cs, v).isWall && Cost(cs, m, u).Finite?
    requires Cost(cs, m, u).PlusOne().Less(Cost(cs, m, v))
    requires n.isWall == At(cs, v).isWall && m.Of(n) == Cost(cs, m, u).PlusOne() && n.previousNode == Some(u)
    ensures Forest(Update(cs, v, n), start, m)
  {
    var cs' := Update(cs, v, n);
    assert v != start by {
      assert Cost(cs, m, start) == Finite(0);
    }
    forall p | InGrid(cs', p) ensures LinkOk(cs', m, p) && Rooted(cs', start, m, p) {
      assert InGrid(cs, p);
      assert LinkOk(cs, m, p) && Rooted(cs, start, m, p);
    }
  }

  /** Rewriting fields that a metric does not rank by keeps the forest and the fixed point. */
  lemma SameLinksSameForest(a: Cells, b: Cells, start: Pos, m: Metric)
    requires |a| == |b| && forall r :: 0 <= r < |a| ==> |a[r]| == |b[r]|
    requires forall p :: InGrid(a, p) ==>
      At(a, p).isWall == At(b, p).isWall && m.Of(At(a, p)) == m.Of(At(b, p)) && At(a, p).previousNode == At(b, p).previousNode
    ensures Forest(a, start, m) ==> Forest(b, start, m)
    ensures Relaxed(a, m) ==> Relaxed(b, m)
  {
    assert forall p :: InGrid(a, p) <==> InGrid(b, p);
    if Forest(a, start, m) {
      forall p | InGrid(b, p) ensures LinkOk(b, m, p) && Rooted(b, start, m, p) {
        assert LinkOk(a, m, p) && Rooted(a, start, m, p);
      }
    }
  }

  /** No edge out of `u` to a non-wall neighbour can still be relaxed. */
  ghost predicate RelaxedFrom(cs: Cells, m: Metric, u: Pos) {
    InGrid(cs, u) && !At(cs, u).isWall ==>
      forall v :: InGrid(cs, v) && Adjacent(u, v) && !At(cs, v).isWall ==> !Cost(cs, m, u).PlusOne().Less(Cost(cs, m, v))
  }

  /** `v` cannot gain from an offer of `d + 1`: it is a wall or already no further. */
  ghost predicate Offered(cs: Cells, m: Metric, d: Dist, v: Pos) {
    InGrid(cs, v) && (!At(cs, v).isWall ==> !d.PlusOne().Less(Cost(cs, m, v)))
  }

  /** The first `t` of `neighbors` have had an offer of `d + 1`. */
  ghost predicate OfferedUpTo(cs: Cells, m: Metric, d: Dist, neighbors: seq<Pos>, t: nat)
    requires t <= |neighbors|
  {
    forall i :: 0 <= i < t ==> Offered(cs, m, d, neighbors[i])
  }

  /** An offer to the next neighbour, made without undoing the earlier ones. */
  lemma OfferedNext(prev: Cells, cs: Cells, m: Metric, d: Dist, neighbors: seq<Pos>, t: nat)
    requires t < |neighbors| && OfferedUpTo(prev, m, d, neighbors, t)
    requires forall w :: Offered(prev, m, d, w) ==> Offered(cs, m, d, w)
    requires Offered(cs, m, d, neighbors[t])
    ensures OfferedUpTo(cs, m, d, neighbors, t + 1)
  {
    forall i | 0 <= i <= t ensures Offered(cs, m, d, neighbors[i]) {
      if i < t {
        assert Offered(prev, m, d, neighbors[i]);
      }
    }
  }

  /** `cs` is `cs0` with the records of the cells in `done` taken from `target`. */
  ghost predicate Patched(cs0: Cells, target: Cells, cs: Cells, done: set<Pos>) {
    |cs| == |cs0| && |target| == |cs0| &&
    (forall r :: 0 <= r < |cs0| ==> |cs[r]| == |cs0[r]| && |target[r]| == |cs0[r]|) &&
    forall p :: InGrid(cs0, p) ==> At(cs, p) == if p in done then At(target, p) else At(cs0, p)
  }

  /** A turn over `neighbors` that has written the first `t` of them, and no
      later one, with their records from `target`. */
  ghost predicate PatchedUpTo(cs0: Cells, target: Cells, cs: Cells, neighbors: seq<Pos>, t: nat, done: set<Pos>)
    requires t <= |neighbors|
  {
    Patched(cs0, target, cs, done) &&
    (forall i :: 0 <= i < t ==> neighbors[i] in done) &&
    (forall i :: t <= i < |neighbors| ==> neighbors[i] !in done)
  }

  /** Writing the next neighbour's record from `target`, or leaving it when
      `target` does not change it, extends the turn by one neighbour. */
  lemma PatchNext(cs0: Cells, target: Cells, prev: Cells, cs: Cells, neighbors: seq<Pos>, t: nat, done: set<Pos>)
    requires NoDup(neighbors) && t < |neighbors| && InGrid(cs0, neighbors[t])
    requires PatchedUpTo(cs0, target, prev, neighbors, t, done)
    requires cs == Update(prev, neighbors[t], At(target, neighbors[t])) ||
             (cs == prev && At(target, neighbors[t]) == At(cs0, neighbors[t]))
    ensures PatchedUpTo(cs0, target, cs, neighbors, t + 1, done + {neighbors[t]})
  {
    forall i | t + 1 <= i < |neighbors| ensures neighbors[i] !in done + {neighbors[t]} {
      assert neighbors[i] != neighbors[t];
    }
  }

  /** A turn that has written every neighbour, where `target` differs from
      `cs0` only at neighbours, has produced `target`. */
  lemma PatchEnds(cs0: Cells, target: Cells, cs: Cells, neighbors: seq<Pos>, done: set<Pos>)
    requires PatchedUpTo(cs0, target, cs, neighbors, |neighbors|, done)
    requires forall p :: InGrid(cs0, p) && p !in neighbors ==> At(target, p) == At(cs0, p)
    ensures cs == target
  {
    forall p | InGrid(cs, p) ensures At(cs, p) == At(target, p) {
      assert InGrid(cs0, p);
      if p !in done {
        assert p !in neighbors;
      }
    }
    CellsEqual(cs, target);
  }

  /** `getNeighbors` lists exactly the cells that `RelaxedFrom` speaks about. */
  lemma NeighborsDecideRelaxedFrom(cs: Cells, m: Metric, u: Pos, rows: nat, cols: nat)
    requires Rect(cs, rows, cols) && InBounds(u, rows, cols)
    requires !At(cs, u).isWall
    ensures RelaxedFrom(cs, m, u) <==>
      forall v :: v in Neighbors(u, rows, cols) ==> Offered(cs, m, Cost(cs, m, u), v)
  {
    var ns := Neighbors(u, rows, cols);
    if forall v :: v in ns ==> Offered(cs, m, Cost(cs, m, u), v) {
      forall v | InGrid(cs, v) && Adjacent(u, v) && !At(cs, v).isWall
        ensures !Cost(cs, m, u).PlusOne().Less(Cost(cs, m, v))
      {
        assert v in ns;
      }
    }
  }

  /** No edge out of `u` can be improved exactly when every neighbour of `u`
      has had its offer. */
  lemma AllOfferedRelaxed(cs: Cells, m: Metric, u: Pos, rows: nat, cols: nat)
    requires Rect(cs, rows, cols) && InBounds(u, rows, cols) && !At(cs, u).isWall
    ensures RelaxedFrom(cs, m, u) <==>
      OfferedUpTo(cs, m, Cost(cs, m, u), Neighbors(u, rows, cols), |Neighbors(u, rows, cols)|)
  {
    var neighbors := Neighbors(u, rows, cols);
    NeighborsDecideRelaxedFrom(cs, m, u, rows, cols);
    if OfferedUpTo(cs, m, Cost(cs, m, u), neighbors, |neighbors|) {
      forall v | v in neighbors ensures Offered(cs, m, Cost(cs, m, u), v) {
        var i :| 0 <= i < |neighbors| && neighbors[i] == v;
      }
    }
  }

  /** A reached non-wall node can be walked to from the start along its back-links. */
  lemma ForestReaches(cs: Cells, start: Pos, m: Metric, p: Pos)
    requires Forest(cs, start, m) && InGrid(cs, p) && !At(cs, p).isWall && Cost(cs, m, p).Finite?
    ensures Reachable(cs, start, p)
  {
    var chain := Chain(cs, m, p);
    ChainAscends(cs, m, p, chain);
    ChainEnds(cs, start, m, p, chain);
    if |chain| == 1 {
      assert IsWalk(cs, chain);
    }
  }

  /** The fixed point, node by node. */
  lemma RelaxedIff(cs: Cells, m: Metric)
    ensures Relaxed(cs, m) <==> forall u :: InGrid(cs, u) ==> RelaxedFrom(cs, m, u)
  {
    if forall u :: InGrid(cs, u) ==> RelaxedFrom(cs, m, u) {
      forall p, q | InGrid(cs, p) && InGrid(cs, q) && Adjacent(p, q) && !At(cs, p).isWall && !At(cs, q).isWall
        ensures !Cost(cs, m, p).PlusOne().Less(Cost(cs, m, q))
      {
        assert RelaxedFrom(cs, m, p);
      }
    }
  }

  /** In a forest a wall other than the start is never reached and never linked. */
  lemma WallsUnreached(cs: Cells, start: Pos, m: Metric, p: Pos)
    requires Forest(cs, start, m) && InGrid(cs, p) && At(cs, p).isWall && p != start
    ensures Cost(cs, m, p) == Infinity && At(cs, p).previousNode == None
  {
    assert LinkOk(cs, m, p) && Rooted(cs, start, m, p);
  }

  /** No edge between two non-wall neighbours can still be relaxed: the
      condition under which Bellman-Ford's final scan raises no warning. */
  ghost predicate Relaxed(cs: Cells, m: Metric) {
    forall p, q :: InGrid(cs, p) && InGrid(cs, q) && Adjacent(p, q) && !At(cs, p).isWall && !At(cs, q).isWall ==>
      !Cost(cs, m, p).PlusOne().Less(Cost(cs, m, q))
  }

  /** At a fixed point no wall-free walk from the start is shorter than the
      cost of the node it ends at. */
  lemma {:induction false} RelaxedBoundsWalks(cs: Cells, start: Pos, m: Metric, w: seq<Pos>)
    requires Forest(cs, start, m) && Relaxed(cs, m)
    requires IsWalk(cs, w) && w[0] == start
    ensures Cost(cs, m, w[|w| - 1]).Finite? && Cost(cs, m, w[|w| - 1]).n <= |w| - 1
    decreases |w|
  {
    if |w| > 1 {
      var front := w[..|w| - 1];
      assert IsWalk(cs, front);
      RelaxedBoundsWalks(cs, start, m, front);
      assert !Cost(cs, m, w[|w| - 2]).PlusOne().Less(Cost(cs, m, w[|w| - 1]));
    }
  }

  /** At a fixed point the cost of a reached node is exactly one less than
      the length of its back-link chain, and that chain starts at the start. */
  lemma {:induction false} RelaxedChainExact(cs: Cells, start: Pos, m: Metric, p: Pos)
    requires Forest(cs, start, m) && Relaxed(cs, m)
    requires InGrid(cs, p) && Cost(cs, m, p).Finite?
    ensures Chain(cs, m, p)[0] == start
    ensures |Chain(cs, m, p)| == Cost(cs, m, p).n + 1
    decreases ChainRank(cs, m, p)
  {
    assert LinkOk(cs, m, p) && Rooted(cs, start, m, p);
    match At(cs, p).previousNode
    case None =>
    case Some(q) =>
      RelaxedChainExact(cs, start, m, q);
      assert !Cost(cs, m, q).PlusOne().Less(Cost(cs, m, p));
  }

  /** At a fixed point of a forest rooted at a non-wall start, a node's cost
      is finite exactly when a wall-free walk reaches it, and then it is the
      length of a shortest such walk. */
  lemma FixedPointIsShortest(cs: Cells, start: Pos, m: Metric, p: Pos)
    requires Forest(cs, start, m) && Relaxed(cs, m)
    requires InGrid(cs, p) && !At(cs, start).isWall
    ensures Cost(cs, m, p).Finite? <==> Reachable(cs, start, p)
    ensures Cost(cs, m, p).Finite? ==>
      (exists w :: IsWalk(cs, w) && w[0] == start && w[|w| - 1] == p && |w| == Cost(cs, m, p).n + 1)
    ensures forall w :: IsWalk(cs, w) && w[0] == start && w[|w| - 1] == p ==> Cost(cs, m, p).n <= |w| - 1
  {
    forall w | IsWalk(cs, w) && w[0] == start && w[|w| - 1] == p
      ensures Cost(cs, m, p).Finite? && Cost(cs, m, p).n <= |w| - 1
    {
      RelaxedBoundsWalks(cs, start, m, w);
    }
    if Cost(cs, m, p).Finite? {
      var path := Chain(cs, m, p);
      RelaxedChainExact(cs, start, m, p);
      ChainAscends(cs, m, p, path);
      if |path| == 1 {
        assert IsWalk(cs, path);
      }
    }
  }
}
