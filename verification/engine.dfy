/**
  The simulation engine as a value: the size it was constructed with and
  its current grid. Every operation returns the engine's next value instead
  of changing a field.

  Size and shape. The size is (columns, rows) as the caller passes it. The
  constructor allocates `rows` rows of `columns` cells, but the step and the
  neighbour count read `grid[i][j]` with `i < columns` and `j < rows`. The
  two agree only when the size is square (or has no cells at all); on any
  other size the step reads past the end of the grid and raises an index
  error, which is modelled here as the `IndexError` outcome.
 */
module Engine {

  import opened Grids
  import Life
  import LifeProperties

  /** The outcome of an operation that can raise an index error. */
  datatype Result<T> = Ok(value: T) | IndexError

  datatype GameOfLife = GameOfLife(size: (int, int), grid: Grid)

  /** How many values `range(n)` yields: none when n is not positive. */
  function RangeLength(n: int): nat {
    if n < 0 then 0 else n
  }

  /** Cells per row: the first size component. */
  function Columns(e: GameOfLife): nat {
    RangeLength(e.size.0)
  }

  /** Number of rows: the second size component. */
  function Rows(e: GameOfLife): nat {
    RangeLength(e.size.1)
  }

  /** The engine invariant: the grid has the constructor's shape and holds only 0 and 1. */
  predicate Valid(e: GameOfLife) {
    IsShape(e.grid, Rows(e), Columns(e)) && IsBinary(e.grid)
  }

  /** Construction: an all-dead grid of `size.1` rows by `size.0` columns. */
  function New(size: (int, int)): (e: GameOfLife)
    ensures Valid(e)
    ensures IsDead(e.grid)
    ensures |e.grid| == RangeLength(size.1)
    ensures forall r :: 0 <= r < |e.grid| ==> |e.grid[r]| == RangeLength(size.0)
    ensures GetGridSize(e) == size
  {
    GameOfLife(size, Zeros(RangeLength(size.1), RangeLength(size.0)))
  }

  /** The size the engine was constructed with. */
  function GetGridSize(e: GameOfLife): (int, int) {
    e.size
  }

  /** The current grid, as a value. */
  function GetGrid(e: GameOfLife): (g: Grid)
    ensures Valid(e) ==> IsShape(g, Rows(e), Columns(e)) && IsBinary(g)
  {
    e.grid
  }

  /** Both dimensions are non-empty and they differ. */
  predicate ShapeMismatch(e: GameOfLife) {
    Columns(e) != Rows(e) && Columns(e) != 0 && Rows(e) != 0
  }

  /** Every cell the step visits, `grid[i][j]` for `i < size.0` and `j < size.1`, exists. */
  predicate StepReadable(e: GameOfLife) {
    forall i, j :: 0 <= i < e.size.0 && 0 <= j < e.size.1 ==> InBounds(e.grid, i, j)
  }

  /**
    The corrected step: every cell of the grid, in its own rows and
    columns, moves to the next generation. It never fails.
   */
  function Advance(e: GameOfLife): (r: GameOfLife)
    requires Valid(e)
    ensures Valid(r) && r.size == e.size
    ensures forall i, j {:trigger r.grid[i][j]} :: 0 <= i < Rows(e) && 0 <= j < Columns(e) ==>
      Life.Readable(e.grid, Rows(e), Columns(e), i, j) &&
      (r.grid[i][j] == 1 <==> Life.ConwayAlive(e.grid[i][j], Life.Count(e.grid, Rows(e), Columns(e), i, j)))
  {
    Life.ShapeIsReadable(e.grid, Rows(e), Columns(e));
    e.(grid := Life.Step(e.grid, Rows(e), Columns(e)))
  }

  /**
    Cell (i, j) of `next` exists and is what the rule gives for cell (i, j)
    of the engine's grid, with the neighbours counted inside the engine's
    size as the step as written counts them.
   */
  predicate FollowsRule(e: GameOfLife, next: Grid, i: int, j: int) {
    && InBounds(e.grid, i, j) && InBounds(next, i, j)
    && Life.Readable(e.grid, e.size.0, e.size.1, i, j)
    && (next[i][j] == 1 <==> Life.ConwayAlive(e.grid[i][j], Life.Count(e.grid, e.size.0, e.size.1, i, j)))
  }

  /**
    The step as written: it raises an index error exactly when it would
    read a cell the grid does not have, and otherwise replaces the grid by
    the next generation, each cell judged by the count the engine takes
    with the size's own bounds.
   */
  function UpdateGrid(e: GameOfLife): (r: Result<GameOfLife>)
    requires Valid(e)
    ensures r.Ok? <==> StepReadable(e)
    ensures r.Ok? ==> Valid(r.value) && r.value.size == e.size
    ensures r.Ok? ==> forall i, j :: 0 <= i < e.size.0 && 0 <= j < e.size.1 ==> FollowsRule(e, r.value.grid, i, j)
    ensures r.Ok? ==> r.value == Advance(e)
  {
    if ShapeMismatch(e) then
      assert Columns(e) > Rows(e) ==> !InBounds(e.grid, Rows(e), 0);
      assert Columns(e) < Rows(e) ==> !InBounds(e.grid, 0, Columns(e));
      IndexError
    else
      AdvanceReadsSize(e);
      Ok(Advance(e))
  }

  /**
    When the size is square or empty, the corrected step visits exactly the
    cells the step as written visits, and with the same bounds.
   */
  lemma {:induction false} AdvanceReadsSize(e: GameOfLife)
    requires Valid(e) && !ShapeMismatch(e)
    ensures StepReadable(e)
    ensures forall i, j :: 0 <= i < e.size.0 && 0 <= j < e.size.1 ==> FollowsRule(e, Advance(e).grid, i, j)
  {
    var r := Advance(e);
    forall i, j | 0 <= i < e.size.0 && 0 <= j < e.size.1
      ensures FollowsRule(e, r.grid, i, j)
    {
      assert e.size.0 == Rows(e) && e.size.1 == Columns(e);
      Life.ShapeIsReadable(e.grid, e.size.0, e.size.1);
    }
  }

  /**
    The neighbour count as written: bounds from the size, cells from the
    grid; an index error when an in-bounds neighbour is missing from the
    grid.
   */
  function CountLiveNeighbors(e: GameOfLife, x: int, y: int): (r: Result<int>)
    ensures r.Ok? <==> Life.Readable(e.grid, e.size.0, e.size.1, x, y)
    ensures r.Ok? && IsBinary(e.grid) ==> 0 <= r.value <= 8
  {
    if Life.Readable(e.grid, e.size.0, e.size.1, x, y) then Ok(Life.Count(e.grid, e.size.0, e.size.1, x, y))
    else IndexError
  }

  /** Flip the cell at row x, column y; nothing else changes. */
  function ToggleCell(e: GameOfLife, x: int, y: int): (r: GameOfLife)
    requires InBounds(e.grid, x, y)
    ensures Valid(e) ==> Valid(r)
    ensures r.size == e.size && SameShape(r.grid, e.grid)
    ensures r.grid[x][y] == 1 - e.grid[x][y]
    ensures forall i, j :: InBounds(e.grid, i, j) && (i != x || j != y) ==> r.grid[i][j] == e.grid[i][j]
  {
    e.(grid := Life.Toggle(e.grid, x, y))
  }

  /** The size never changes: construction records it and every operation keeps it. */
  lemma SizeIsFixed(e: GameOfLife, x: int, y: int)
    requires Valid(e)
    ensures UpdateGrid(e).Ok? ==> GetGridSize(UpdateGrid(e).value) == GetGridSize(e)
    ensures InBounds(e.grid, x, y) ==> GetGridSize(ToggleCell(e, x, y)) == GetGridSize(e)
    ensures GetGridSize(Advance(e)) == GetGridSize(e)
  {
  }

  /** On a square size the step never fails and the count never fails. */
  lemma {:induction false} SquareNeverRaises(e: GameOfLife, x: int, y: int)
    requires Valid(e) && e.size.0 == e.size.1
    ensures UpdateGrid(e).Ok?
    ensures CountLiveNeighbors(e, x, y).Ok?
  {
    Life.ShapeIsReadable(e.grid, Rows(e), Columns(e));
    assert Life.Readable(e.grid, Rows(e), Columns(e), x, y);
  }

  /** On every non-square size with cells the step raises an index error. */
  lemma {:induction false} NonSquareUpdateRaises(e: GameOfLife)
    requires Valid(e)
    ensures UpdateGrid(e).IndexError? <==> ShapeMismatch(e)
  {
  }

  /** The smallest instance: two columns, one row. */
  lemma TwoByOneUpdateRaises()
    ensures UpdateGrid(New((2, 1))).IndexError?
  {
    NonSquareUpdateRaises(New((2, 1)));
  }

  /** On a non-square size with cells some neighbour count also raises. */
  lemma {:induction false} NonSquareCountRaises(e: GameOfLife)
    requires Valid(e) && ShapeMismatch(e)
    ensures exists x, y :: CountLiveNeighbors(e, x, y).IndexError?
  {
    if Columns(e) > Rows(e) {
      var x, y := Rows(e) - 1, 0;
      assert !InBounds(e.grid, Rows(e), 0);
      assert CountLiveNeighbors(e, x, y).IndexError?;
    } else {
      var x, y := 0, Columns(e) - 1;
      assert !InBounds(e.grid, 0, Columns(e));
      assert CountLiveNeighbors(e, x, y).IndexError?;
    }
  }

  /**
    The count skips the centre before reading anything, so a centre missing
    from the grid is no error: on size (2, 1), whose grid is the single row
    [0, 0], the count at (1, 0) reads only (0, 0) and is 0.
   */
  lemma {:induction false} MissingCentreIsNotRead()
    ensures !InBounds(New((2, 1)).grid, 1, 0)
    ensures CountLiveNeighbors(New((2, 1)), 1, 0) == Ok(0)
  {
    var e := New((2, 1));
    assert e.grid[0][0] == 0;
    assert Life.Readable(e.grid, 2, 1, 1, 0);
  }

  /** Toggling the same cell twice gives back the same engine. */
  lemma ToggleCellTwice(e: GameOfLife, x: int, y: int)
    requires InBounds(e.grid, x, y)
    ensures InBounds(ToggleCell(e, x, y).grid, x, y)
    ensures ToggleCell(ToggleCell(e, x, y), x, y) == e
  {
    LifeProperties.ToggleTwice(e.grid, x, y);
  }
}
