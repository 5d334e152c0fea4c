/** The node record and the grid that the search algorithms and the page share.
    Every cell of the grid is a record with identity and role fields, which a
    search never writes, and scratch fields, which a search overwrites in place. */
module Grid {

  datatype Option<T> = None | Some(value: T)

  /** A cost as the source stores it: a non-negative integer, or `Infinity`
      for a node not (yet) reached. */
  datatype Dist = Finite(n: nat) | Infinity {

    /** The JavaScript comparison `this < other`: numbers compare as numbers,
        every number is below `Infinity`, and `Infinity` is below nothing,
        not even itself. */
    predicate Less(other: Dist): (r: bool)
      ensures this.Finite? && other.Finite? ==> (r <==> this.n < other.n)
      ensures other.Infinity? ==> (r <==> this.Finite?)
      ensures r ==> this.Finite? && this != other
    {
      match this
      case Infinity => false
      case Finite(a) => other.Infinity? || a < other.n
    }

    /** `this + 1`: the next value above a number, and `Infinity` for
        `Infinity`. */
    function PlusOne(): (r: Dist)
      ensures r.Finite? <==> this.Finite?
      ensures this.Finite? ==> this.Less(r) && forall d: Dist :: this.Less(d) ==> !d.Less(r)
    {
      match this
      case Infinity => Infinity
      case Finite(a) => Finite(a + 1)
    }
  }

  /** A grid position; it stands for the node record `grid[row][col]`. */
  datatype Pos = Pos(row: nat, col: nat)

  /** The node record built by the page: identity (`col`, `row`), roles
      (`isStart`, `isFinish`, `isWall`) and the scratch fields that the
      searches own (`distance`, `isVisited`, `previousNode`, `g`, `f`). */
  datatype Node = Node(
    col: nat, row: nat,
    isStart: bool, isFinish: bool,
    distance: Dist, isVisited: bool, isWall: bool,
    previousNode: Option<Pos>,
    g: Dist, f: Dist)

  /** A snapshot of a grid as rows of node records. */
  type Cells = seq<seq<Node>>

  /** The value held by `grid`, row by row. */
  ghost function View(grid: array2<Node>): (cs: Cells)
    reads grid
    ensures Rect(cs, grid.Length0, grid.Length1)
    ensures forall r, c :: 0 <= r < grid.Length0 && 0 <= c < grid.Length1 ==> cs[r][c] == grid[r, c]
  {
    seq(grid.Length0, r requires 0 <= r < grid.Length0 reads grid =>
      seq(grid.Length1, c requires 0 <= c < grid.Length1 reads grid => grid[r, c]))
  }

  ghost predicate Rect(cs: Cells, rows: nat, cols: nat) {
    |cs| == rows && forall r :: 0 <= r < rows ==> |cs[r]| == cols
  }

  predicate InBounds(p: Pos, rows: nat, cols: nat) {
    p.row < rows && p.col < cols
  }

  ghost predicate InGrid(cs: Cells, p: Pos) {
    p.row < |cs| && p.col < |cs[p.row]|
  }

  ghost function At(cs: Cells, p: Pos): Node
    requires InGrid(cs, p)
  {
    cs[p.row][p.col]
  }

  /** `cs` with the record at `p` replaced by `n`. */
  ghost function Update(cs: Cells, p: Pos, n: Node): (cs': Cells)
    requires InGrid(cs, p)
    ensures |cs'| == |cs| && forall r :: 0 <= r < |cs| ==> |cs'[r]| == |cs[r]|
    ensures forall q :: InGrid(cs, q) ==> At(cs', q) == if q == p then n else At(cs, q)
  {
    cs[p.row := cs[p.row][p.col := n]]
  }

  /** Two grids of one shape that hold the same record in every cell are equal. */
  lemma CellsEqual(a: Cells, b: Cells)
    requires |a| == |b| && forall r :: 0 <= r < |a| ==> |a[r]| == |b[r]|
    requires forall p :: InGrid(a, p) ==> At(a, p) == At(b, p)
    ensures a == b
  {
    forall r | 0 <= r < |a| ensures a[r] == b[r] {
      forall c | 0 <= c < |a[r]| ensures a[r][c] == b[r][c] {
        assert InGrid(a, Pos(r, c));
      }
    }
  }

  /** Every record stores its own position in `row` and `col`, as `createNode` makes it. */
  ghost predicate WellFormed(cs: Cells) {
    forall p :: InGrid(cs, p) ==> At(cs, p).row == p.row && At(cs, p).col == p.col
  }

  /** The one place where a search writes a node record. */
  method SetNode(grid: array2<Node>, p: Pos, n: Node)
    requires InBounds(p, grid.Length0, grid.Length1)
    modifies grid
    ensures View(grid) == Update(old(View(grid)), p, n)
  {
    ghost var before := View(grid);
    grid[p.row, p.col] := n;
    ghost var after := View(grid);
    ghost var expected := Update(before, p, n);
    assert forall r | 0 <= r < |after| :: after[r] == expected[r] by {
      forall r | 0 <= r < |after| ensures after[r] == expected[r] {
        assert forall c | 0 <= c < |after[r]| :: after[r][c] == At(expected, Pos(r, c));
      }
    }
  }

  /** `Math.abs(a - b)`. */
  function AbsDiff(a: int, b: int): nat {
    if a < b then b - a else a - b
  }

  /** `p` and `q` are one step apart horizontally or vertically. */
  predicate Adjacent(p: Pos, q: Pos) {
    (p.row == q.row && (p.col + 1 == q.col || q.col + 1 == p.col)) ||
    (p.col == q.col && (p.row + 1 == q.row || q.row + 1 == p.row))
  }

  /** Where `q` lies seen from its neighbour `p`: 0 up, 1 down, 2 left, 3 right. */
  function Direction(p: Pos, q: Pos): nat {
    if q.row < p.row then 0
    else if q.row > p.row then 1
    else if q.col < p.col then 2
    else 3
  }

  /** `getNeighbors`: the in-bounds cells next to `p`, up, down, left, right. */
  function Neighbors(p: Pos, rows: nat, cols: nat): (ns: seq<Pos>)
    requires InBounds(p, rows, cols)
    ensures |ns| <= 4
    ensures forall q :: q in ns <==> InBounds(q, rows, cols) && Adjacent(p, q)
    ensures forall i, j :: 0 <= i < j < |ns| ==> Direction(p, ns[i]) < Direction(p, ns[j])
    ensures NoDup(ns)
  {
    var up := if p.row > 0 then [Pos(p.row - 1, p.col)] else [];
    var down := if p.row < rows - 1 then [Pos(p.row + 1, p.col)] else [];
    var left := if p.col > 0 then [Pos(p.row, p.col - 1)] else [];
    var right := if p.col < cols - 1 then [Pos(p.row, p.col + 1)] else [];
    up + down + left + right
  }

  ghost predicate NoDup<T>(s: seq<T>) {
    forall i, j :: 0 <= i < j < |s| ==> s[i] != s[j]
  }

  lemma {:induction false} DistinctCard<T>(s: seq<T>)
    requires NoDup(s)
    ensures |set x | x in s| == |s|
  {
    if s != [] {
      var rest := s[1..];
      DistinctCard(rest);
      assert (set x | x in s) == (set x | x in rest) + {s[0]};
      assert s[0] !in rest;
    }
  }

  /** All positions of a `rows` by `cols` grid. */
  ghost function Box(rows: nat, cols: nat): set<Pos> {
    set r: nat, c: nat | r < rows && c < cols :: Pos(r, c)
  }

  /** All positions of row `r` in a grid of `cols` columns. */
  ghost function RowBox(r: nat, cols: nat): set<Pos> {
    set c: nat | c < cols :: Pos(r, c)
  }

  lemma {:induction false} RowCard(r: nat, cols: nat)
    ensures |RowBox(r, cols)| == cols
  {
    if cols > 0 {
      RowCard(r, cols - 1);
      assert RowBox(r, cols) == RowBox(r, cols - 1) + {Pos(r, cols - 1)};
    }
  }

  lemma {:induction false} BoxCard(rows: nat, cols: nat)
    ensures |Box(rows, cols)| == rows * cols
  {
    if rows > 0 {
      BoxCard(rows - 1, cols);
      RowCard(rows - 1, cols);
      var top, last := Box(rows - 1, cols), RowBox(rows - 1, cols);
      assert Box(rows, cols) == top + last;
      assert top * last == {};
      assert |top + last| == |top| + |last|;
      assert rows * cols == (rows - 1) * cols + cols;
    }
  }

  lemma {:induction false} SubsetCard<T>(a: set<T>, b: set<T>)
    requires a <= b
    ensures |a| <= |b|
  {
    if a != {} {
      var x :| x in a;
      SubsetCard(a - {x}, b - {x});
    }
  }

  /** A list of distinct in-bounds positions is no longer than the grid has cells. */
  lemma DistinctCellsBound(s: seq<Pos>, rows: nat, cols: nat)
    requires NoDup(s)
    requires forall i :: 0 <= i < |s| ==> InBounds(s[i], rows, cols)
    ensures |s| <= rows * cols
  {
    DistinctCard(s);
    BoxCard(rows, cols);
    SubsetCard((set x | x in s), Box(rows, cols));
  }
}
