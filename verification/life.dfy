/**
  The generation rule of the engine: Conway's B3/S23 rule on a bounded grid
  whose outside is permanently dead.

  Indexing convention. The engine reads cells as `grid[i][j]` with
  `0 <= i < bound0` and `0 <= j < bound1`, where (bound0, bound1) is the size
  it was built with. This module takes those two bounds as parameters and,
  where a whole grid is stepped, models the grid as indexed `[x][y]` with
  outer length `bound0` (`IsShape(g, w, h)`). The engine's constructor
  allocates the transposed shape; module Engine shows that the two agree
  exactly when the size is square, and what happens when it is not.
 */
module Life {

  import opened Grids

  /** Neighbour counts at which a dead cell is born. */
  const Birth: set<int> := {3}

  /** Neighbour counts at which a live cell survives. */
  const Survival: set<int> := {2, 3}

  /** The B3/S23 rule: is the cell alive in the next generation? */
  predicate ConwayAlive(current: int, neighbours: int) {
    (current == 1 && neighbours in Survival) || (current == 0 && neighbours in Birth)
  }

  /**
    The value the engine writes for one cell: it starts from a dead cell and
    sets it alive on survival or on birth. A cell holding anything other
    than 0 or 1 is neither, so it becomes dead.
   */
  function NextState(current: int, neighbours: int): (s: int)
    ensures s == 0 || s == 1
    ensures s == 1 <==> ConwayAlive(current, neighbours)
  {
    if current == 1 && (neighbours == 2 || neighbours == 3) then 1
    else if current == 0 && neighbours == 3 then 1
    else 0
  }

  /** (i, j) lies inside the bounds the engine checks before reading a neighbour. */
  predicate InWindow(w: int, h: int, i: int, j: int) {
    0 <= i < w && 0 <= j < h
  }

  /** Position (i, j) is either outside the bounds or a cell of `g`. */
  predicate CanRead(g: Grid, w: int, h: int, i: int, j: int) {
    InWindow(w, h, i, j) ==> InBounds(g, i, j)
  }

  /**
    Every neighbour of (x, y) inside the bounds can be read from `g`. The
    centre itself is skipped before any read, so it need not exist.
   */
  predicate Readable(g: Grid, w: int, h: int, x: int, y: int) {
    && CanRead(g, w, h, x - 1, y - 1) && CanRead(g, w, h, x - 1, y) && CanRead(g, w, h, x - 1, y + 1)
    && CanRead(g, w, h, x, y - 1) && CanRead(g, w, h, x, y + 1)
    && CanRead(g, w, h, x + 1, y - 1) && CanRead(g, w, h, x + 1, y) && CanRead(g, w, h, x + 1, y + 1)
  }

  /**
    What position (i, j) of the 3x3 block around (x, y) adds to the count:
    nothing for the centre, nothing outside the bounds, otherwise the cell.
   */
  function Contribution(g: Grid, w: int, h: int, x: int, y: int, i: int, j: int): int
    requires (i != x || j != y) ==> CanRead(g, w, h, i, j)
  {
    if i == x && j == y then 0
    else if i < 0 || i >= w || j < 0 || j >= h then 0
    else g[i][j]
  }

  /** The live-neighbour count of (x, y): the nine positions of its 3x3 block. */
  function Count(g: Grid, w: int, h: int, x: int, y: int): (n: int)
    requires Readable(g, w, h, x, y)
    ensures IsBinary(g) ==> 0 <= n <= 8
  {
    Contribution(g, w, h, x, y, x - 1, y - 1)
    + Contribution(g, w, h, x, y, x - 1, y)
    + Contribution(g, w, h, x, y, x - 1, y + 1)
    + Contribution(g, w, h, x, y, x, y - 1)
    + Contribution(g, w, h, x, y, x, y)
    + Contribution(g, w, h, x, y, x, y + 1)
    + Contribution(g, w, h, x, y, x + 1, y - 1)
    + Contribution(g, w, h, x, y, x + 1, y)
    + Contribution(g, w, h, x, y, x + 1, y + 1)
  }

  /** A grid of shape w x h can be read around every (x, y). */
  lemma ShapeIsReadable(g: Grid, w: nat, h: nat)
    requires IsShape(g, w, h)
    ensures forall x, y :: Readable(g, w, h, x, y)
  {
  }

  /** The next generation: every cell computed from the current grid only. */
  function Step(g: Grid, w: nat, h: nat): (r: Grid)
    requires IsShape(g, w, h)
    ensures IsShape(r, w, h) && IsBinary(r)
    ensures forall i, j {:trigger r[i][j]} :: 0 <= i < w && 0 <= j < h ==>
      (r[i][j] == 1 <==> ConwayAlive(g[i][j], Count(g, w, h, i, j)))
  {
    ShapeIsReadable(g, w, h);
    seq(w, i requires 0 <= i < w => seq(h, j requires 0 <= j < h => NextState(g[i][j], Count(g, w, h, i, j))))
  }

  /** One cell of the next generation, read through the rule. */
  lemma StepCell(g: Grid, w: nat, h: nat, i: int, j: int)
    requires IsShape(g, w, h) && 0 <= i < w && 0 <= j < h
    ensures Readable(g, w, h, i, j)
    ensures Step(g, w, h)[i][j] == NextState(g[i][j], Count(g, w, h, i, j))
  {
    ShapeIsReadable(g, w, h);
  }

  /** The grid with cell (x, y) flipped: `1 - v`. */
  function Toggle(g: Grid, x: int, y: int): (r: Grid)
    requires InBounds(g, x, y)
    ensures SameShape(r, g)
    ensures r[x][y] + g[x][y] == 1
    ensures forall i, j :: InBounds(g, i, j) && (i != x || j != y) ==> r[i][j] == g[i][j]
    ensures IsBinary(g) ==> IsBinary(r)
  {
    Set(g, x, y, 1 - g[x][y])
  }

  // Partial sums of the 3x3 block, in the order the engine's loops visit it.

  /** Contributions of row i of the block, for columns below `upto`. */
  function RowPrefix(g: Grid, w: int, h: int, x: int, y: int, i: int, upto: int): int
    requires x - 1 <= i <= x + 1 && Readable(g, w, h, x, y)
  {
    (if y - 1 < upto then Contribution(g, w, h, x, y, i, y - 1) else 0)
    + (if y < upto then Contribution(g, w, h, x, y, i, y) else 0)
    + (if y + 1 < upto then Contribution(g, w, h, x, y, i, y + 1) else 0)
  }

  /** Contributions of the whole rows of the block below `upto`. */
  function RowsBefore(g: Grid, w: int, h: int, x: int, y: int, upto: int): int
    requires Readable(g, w, h, x, y)
  {
    (if x - 1 < upto then RowPrefix(g, w, h, x, y, x - 1, y + 2) else 0)
    + (if x < upto then RowPrefix(g, w, h, x, y, x, y + 2) else 0)
    + (if x + 1 < upto then RowPrefix(g, w, h, x, y, x + 1, y + 2) else 0)
  }

  /**
    The engine's neighbour count: two nested loops over the 3x3 block that
    skip the centre and every position outside the bounds.
   */
  method CountLiveNeighbors(g: Grid, w: int, h: int, x: int, y: int) returns (count: int)
    requires Readable(g, w, h, x, y)
    ensures count == Count(g, w, h, x, y)
    ensures IsBinary(g) ==> 0 <= count <= 8
  {
    count := 0;
    for i := x - 1 to x + 2
      invariant count == RowsBefore(g, w, h, x, y, i)
    {
      for j := y - 1 to y + 2
        invariant count == RowsBefore(g, w, h, x, y, i) + RowPrefix(g, w, h, x, y, i, j)
      {
        if i == x && j == y {
          continue;
        }
        if i < 0 || i >= w || j < 0 || j >= h {
          continue;
        }
        assert InWindow(w, h, i, j);
        count := count + g[i][j];
      }
    }
  }

  /**
    The engine's generation step: a fresh all-dead grid, into which every
    cell that survives or is born is written as 1; every count is taken on
    the unchanged current grid.
   */
  method UpdateGrid(g: Grid, w: nat, h: nat) returns (next: Grid)
    requires IsShape(g, w, h)
    ensures IsShape(next, w, h) && IsBinary(next)
    ensures forall i, j {:trigger next[i][j]} :: 0 <= i < w && 0 <= j < h ==>
      (next[i][j] == 1 <==> ConwayAlive(g[i][j], Count(g, w, h, i, j)))
    ensures next == Step(g, w, h)
  {
    ShapeIsReadable(g, w, h);
    ghost var s := Step(g, w, h);
    next := Zeros(w, h);
    for i := 0 to w
      invariant IsShape(next, w, h)
      invariant forall a, b :: 0 <= a < i && 0 <= b < h ==> next[a][b] == s[a][b]
      invariant forall a, b :: i <= a < w && 0 <= b < h ==> next[a][b] == 0
    {
      for j := 0 to h
        invariant IsShape(next, w, h)
        invariant forall a, b :: 0 <= a < i && 0 <= b < h ==> next[a][b] == s[a][b]
        invariant forall b :: 0 <= b < j ==> next[i][b] == s[i][b]
        invariant forall a, b :: i <= a < w && 0 <= b < h && (a != i || j <= b) ==> next[a][b] == 0
      {
        var current := g[i][j];
        var alive := CountLiveNeighbors(g, w, h, i, j);
        if current == 1 && (alive == 2 || alive == 3) {
          next := next[i := next[i][j := 1]];
        }
        if current == 0 && alive == 3 {
          next := next[i := next[i][j := 1]];
        }
      }
    }
    assert forall i :: 0 <= i < w ==> next[i] == s[i];
  }
}
