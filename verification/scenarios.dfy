/**
  Concrete configurations: the neighbour counts around a lone cell, a cell
  with no neighbours at all, the block still life and the blinker
  oscillator, and the same blinker drawn and stepped through the engine's
  own operations.

  Each configuration is a predicate that fixes the shape and every cell of
  a grid, so the lemmas hold for any grid value drawn that way.
 */
module Scenarios {

  import opened Grids
  import opened Life
  import opened LifeProperties
  import Engine

  /** A 3x3 grid whose only live cell is the centre. */
  predicate IsLoneCentre(g: Grid) {
    IsShape(g, 3, 3) && forall i, j :: 0 <= i < 3 && 0 <= j < 3 ==> g[i][j] == (if i == 1 && j == 1 then 1 else 0)
  }

  /**
    Around a lone centre cell every other cell sees exactly one live
    neighbour, corners included (the centre is diagonally adjacent to them),
    and the centre sees none.
   */
  lemma LoneCentreCounts(g: Grid)
    requires IsLoneCentre(g)
    ensures forall x, y :: 0 <= x < 3 && 0 <= y < 3 ==>
      Readable(g, 3, 3, x, y) && Count(g, 3, 3, x, y) == (if x == 1 && y == 1 then 0 else 1)
  {
    forall x, y | 0 <= x < 3 && 0 <= y < 3
      ensures Readable(g, 3, 3, x, y) && Count(g, 3, 3, x, y) == (if x == 1 && y == 1 then 0 else 1)
    {
      ShapeIsReadable(g, 3, 3);
    }
  }

  /** The lone cell dies of loneliness and nothing is born: the next generation is all dead. */
  lemma LoneCentreDies(g: Grid)
    requires IsLoneCentre(g)
    ensures Step(g, 3, 3) == Zeros(3, 3)
  {
    LoneCentreCounts(g);
    var s := Step(g, 3, 3);
    forall i, j | 0 <= i < 3 && 0 <= j < 3
      ensures s[i][j] == 0
    {
      StepCell(g, 3, 3, i, j);
    }
    assert s[0] == Zeros(3, 3)[0] && s[1] == Zeros(3, 3)[1] && s[2] == Zeros(3, 3)[2];
  }

  /** On a 1x1 grid the only cell has no neighbours, whatever it holds. */
  lemma SingleCellHasNoNeighbours(g: Grid)
    requires IsShape(g, 1, 1)
    ensures Readable(g, 1, 1, 0, 0)
    ensures Count(g, 1, 1, 0, 0) == 0
  {
    ShapeIsReadable(g, 1, 1);
  }

  /** A 2x2 block of live cells in the middle of a 4x4 grid. */
  predicate IsBlock(g: Grid) {
    IsShape(g, 4, 4) && forall i, j :: 0 <= i < 4 && 0 <= j < 4 ==> g[i][j] == (if 1 <= i <= 2 && 1 <= j <= 2 then 1 else 0)
  }

  /** The block's cells one by one. */
  lemma BlockCells(g: Grid)
    requires IsBlock(g)
    ensures g[0][0] == 0 && g[0][1] == 0 && g[0][2] == 0 && g[0][3] == 0
    ensures g[1][0] == 0 && g[1][1] == 1 && g[1][2] == 1 && g[1][3] == 0
    ensures g[2][0] == 0 && g[2][1] == 1 && g[2][2] == 1 && g[2][3] == 0
    ensures g[3][0] == 0 && g[3][1] == 0 && g[3][2] == 0 && g[3][3] == 0
  {
  }

  /** The border rows of the block grid stay dead. */
  lemma BlockOuterRows(g: Grid)
    requires IsBlock(g)
    ensures forall j :: 0 <= j < 4 ==> Step(g, 4, 4)[0][j] == g[0][j] && Step(g, 4, 4)[3][j] == g[3][j]
  {
    BlockCells(g);
    StepCell(g, 4, 4, 0, 0);
    StepCell(g, 4, 4, 0, 1);
    StepCell(g, 4, 4, 0, 2);
    StepCell(g, 4, 4, 0, 3);
    StepCell(g, 4, 4, 3, 0);
    StepCell(g, 4, 4, 3, 1);
    StepCell(g, 4, 4, 3, 2);
    StepCell(g, 4, 4, 3, 3);
  }

  /** Every block cell survives with three neighbours; the border cells beside it see only two. */
  lemma BlockInnerRows(g: Grid)
    requires IsBlock(g)
    ensures forall j :: 0 <= j < 4 ==> Step(g, 4, 4)[1][j] == g[1][j] && Step(g, 4, 4)[2][j] == g[2][j]
  {
    BlockCells(g);
    StepCell(g, 4, 4, 1, 0);
    StepCell(g, 4, 4, 1, 1);
    StepCell(g, 4, 4, 1, 2);
    StepCell(g, 4, 4, 1, 3);
    StepCell(g, 4, 4, 2, 0);
    StepCell(g, 4, 4, 2, 1);
    StepCell(g, 4, 4, 2, 2);
    StepCell(g, 4, 4, 2, 3);
  }

  /** The block is a still life: one step leaves it as it is. */
  lemma {:induction false} BlockIsStill(g: Grid)
    requires IsBlock(g)
    ensures Step(g, 4, 4) == g
  {
    BlockOuterRows(g);
    BlockInnerRows(g);
    var s := Step(g, 4, 4);
    assert s[0] == g[0] && s[1] == g[1] && s[2] == g[2] && s[3] == g[3];
  }

  /** So it stays unchanged for any number of generations. */
  lemma BlockForever(g: Grid, k: nat)
    requires IsBlock(g)
    ensures Generations(g, 4, 4, k) == g
  {
    BlockIsStill(g);
    StillLifeForever(g, 4, 4, k);
  }

  /** A blinker in the phase that lies along the first index: cells (2, 1), (2, 2), (2, 3) of a 5x5 grid. */
  predicate IsBlinkerAcross(g: Grid) {
    IsShape(g, 5, 5) && forall i, j :: 0 <= i < 5 && 0 <= j < 5 ==> g[i][j] == (if i == 2 && 1 <= j <= 3 then 1 else 0)
  }

  /** The other phase: cells (1, 2), (2, 2), (3, 2). */
  predicate IsBlinkerDown(g: Grid) {
    IsShape(g, 5, 5) && forall i, j :: 0 <= i < 5 && 0 <= j < 5 ==> g[i][j] == (if 1 <= i <= 3 && j == 2 then 1 else 0)
  }

  /** The cells of the first phase one by one. */
  lemma BlinkerAcrossCells(g: Grid)
    requires IsBlinkerAcross(g)
    ensures g[0][0] == 0 && g[0][1] == 0 && g[0][2] == 0 && g[0][3] == 0 && g[0][4] == 0
    ensures g[1][0] == 0 && g[1][1] == 0 && g[1][2] == 0 && g[1][3] == 0 && g[1][4] == 0
    ensures g[2][0] == 0 && g[2][1] == 1 && g[2][2] == 1 && g[2][3] == 1 && g[2][4] == 0
    ensures g[3][0] == 0 && g[3][1] == 0 && g[3][2] == 0 && g[3][3] == 0 && g[3][4] == 0
    ensures g[4][0] == 0 && g[4][1] == 0 && g[4][2] == 0 && g[4][3] == 0 && g[4][4] == 0
  {
  }

  /** The border row before the line stays dead. */
  lemma BlinkerTopRow(g: Grid)
    requires IsBlinkerAcross(g)
    ensures forall j :: 0 <= j < 5 ==> Step(g, 5, 5)[0][j] == 0
  {
    BlinkerAcrossCells(g);
    StepCell(g, 5, 5, 0, 0);
    StepCell(g, 5, 5, 0, 1);
    StepCell(g, 5, 5, 0, 2);
    StepCell(g, 5, 5, 0, 3);
    StepCell(g, 5, 5, 0, 4);
  }

  /** Beside the line only the middle cell is born, with three neighbours. */
  lemma BlinkerUpperRow(g: Grid)
    requires IsBlinkerAcross(g)
    ensures forall j :: 0 <= j < 5 ==> Step(g, 5, 5)[1][j] == (if j == 2 then 1 else 0)
  {
    BlinkerAcrossCells(g);
    StepCell(g, 5, 5, 1, 0);
    StepCell(g, 5, 5, 1, 1);
    StepCell(g, 5, 5, 1, 2);
    StepCell(g, 5, 5, 1, 3);
    StepCell(g, 5, 5, 1, 4);
  }

  /** On the line the two ends die with one neighbour and the middle survives with two. */
  lemma BlinkerMiddleRow(g: Grid)
    requires IsBlinkerAcross(g)
    ensures forall j :: 0 <= j < 5 ==> Step(g, 5, 5)[2][j] == (if j == 2 then 1 else 0)
  {
    BlinkerAcrossCells(g);
    StepCell(g, 5, 5, 2, 0);
    StepCell(g, 5, 5, 2, 1);
    StepCell(g, 5, 5, 2, 2);
    StepCell(g, 5, 5, 2, 3);
    StepCell(g, 5, 5, 2, 4);
  }

  /** The other side of the line: again only the middle cell is born. */
  lemma BlinkerLowerRow(g: Grid)
    requires IsBlinkerAcross(g)
    ensures forall j :: 0 <= j < 5 ==> Step(g, 5, 5)[3][j] == (if j == 2 then 1 else 0)
  {
    BlinkerAcrossCells(g);
    StepCell(g, 5, 5, 3, 0);
    StepCell(g, 5, 5, 3, 1);
    StepCell(g, 5, 5, 3, 2);
    StepCell(g, 5, 5, 3, 3);
    StepCell(g, 5, 5, 3, 4);
  }

  /** The border row after the line stays dead. */
  lemma BlinkerBottomRow(g: Grid)
    requires IsBlinkerAcross(g)
    ensures forall j :: 0 <= j < 5 ==> Step(g, 5, 5)[4][j] == 0
  {
    BlinkerAcrossCells(g);
    StepCell(g, 5, 5, 4, 0);
    StepCell(g, 5, 5, 4, 1);
    StepCell(g, 5, 5, 4, 2);
    StepCell(g, 5, 5, 4, 3);
    StepCell(g, 5, 5, 4, 4);
  }

  /** One step turns the line across into the line down. */
  lemma {:induction false} BlinkerTurns(g: Grid)
    requires IsBlinkerAcross(g)
    ensures IsBlinkerDown(Step(g, 5, 5))
  {
    var s := Step(g, 5, 5);
    forall i, j | 0 <= i < 5 && 0 <= j < 5
      ensures s[i][j] == (if 1 <= i <= 3 && j == 2 then 1 else 0)
    {
      if i == 0 {
        BlinkerTopRow(g);
      } else if i == 1 {
        BlinkerUpperRow(g);
      } else if i == 2 {
        BlinkerMiddleRow(g);
      } else if i == 3 {
        BlinkerLowerRow(g);
      } else {
        BlinkerBottomRow(g);
      }
    }
  }

  /** The line down is the line across with the two indices swapped. */
  lemma {:induction false} DownIsTransposedAcross(g: Grid)
    requires IsBlinkerDown(g)
    ensures IsBlinkerAcross(Transpose(g, 5, 5))
    ensures Transpose(Transpose(g, 5, 5), 5, 5) == g
  {
    var t := Transpose(g, 5, 5);
    var tt := Transpose(t, 5, 5);
    forall i, j | 0 <= i < 5 && 0 <= j < 5
      ensures tt[i][j] == g[i][j]
    {
      assert tt[i][j] == t[j][i];
    }
    assert forall i :: 0 <= i < 5 ==> tt[i] == g[i];
  }

  /** The line down turns back into the line across, by the symmetry of the rule. */
  lemma {:induction false} BlinkerTurnsBack(g: Grid)
    requires IsBlinkerDown(g)
    ensures IsBlinkerAcross(Step(g, 5, 5))
  {
    DownIsTransposedAcross(g);
    var t := Transpose(g, 5, 5);
    BlinkerTurns(t);
    StepTranspose(t, 5, 5);
    assert Step(g, 5, 5) == Transpose(Step(t, 5, 5), 5, 5);
  }

  /** A phase determines the grid: two grids drawn as the same phase are equal. */
  lemma {:induction false} AcrossIsOneGrid(a: Grid, b: Grid)
    requires IsBlinkerAcross(a) && IsBlinkerAcross(b)
    ensures a == b
  {
    assert forall i :: 0 <= i < 5 ==> a[i] == b[i];
  }

  /** The blinker has period two: two steps bring back the same grid. */
  lemma {:induction false} BlinkerPeriodTwo(g: Grid)
    requires IsBlinkerAcross(g)
    ensures IsBlinkerDown(Step(g, 5, 5))
    ensures Step(Step(g, 5, 5), 5, 5) == g
  {
    BlinkerTurns(g);
    BlinkerTurnsBack(Step(g, 5, 5));
    AcrossIsOneGrid(Step(Step(g, 5, 5), 5, 5), g);
  }

  /** After every even number of generations the blinker is back in its first phase. */
  lemma BlinkerOscillates(g: Grid, k: nat)
    requires IsBlinkerAcross(g)
    ensures Generations(g, 5, 5, 2 * k) == g
  {
    BlinkerPeriodTwo(g);
    PeriodTwoForever(g, 5, 5, k);
  }

  /** A 5x5 engine with the cells (2, 1), (2, 2) and (2, 3) toggled on. */
  function BlinkerEngine(): (e: Engine.GameOfLife)
    ensures Engine.Valid(e) && e.size == (5, 5)
    ensures IsBlinkerAcross(e.grid)
  {
    var e0 := Engine.New((5, 5));
    var e1 := Engine.ToggleCell(e0, 2, 1);
    var e2 := Engine.ToggleCell(e1, 2, 2);
    Engine.ToggleCell(e2, 2, 3)
  }

  /**
    Drawn into a 5x5 engine, the blinker steps through the engine's own
    update: the square size never raises, one update turns the line, and a
    second update restores the engine exactly.
   */
  lemma {:induction false} EngineBlinkerSteps(e: Engine.GameOfLife)
    requires Engine.Valid(e) && e.size == (5, 5) && IsBlinkerAcross(e.grid)
    ensures Engine.UpdateGrid(e).Ok?
    ensures Engine.UpdateGrid(e).value.size == (5, 5)
    ensures IsBlinkerDown(Engine.UpdateGrid(e).value.grid)
    ensures Engine.UpdateGrid(Engine.UpdateGrid(e).value) == Engine.Ok(e)
  {
    Engine.SquareNeverRaises(e, 0, 0);
    var e1 := Engine.UpdateGrid(e).value;
    BlinkerPeriodTwo(e.grid);
    Engine.SquareNeverRaises(e1, 0, 0);
  }

  /** The blinker toggled cell by cell into a fresh engine oscillates with period two. */
  lemma EngineBlinker()
    ensures Engine.UpdateGrid(BlinkerEngine()).Ok?
    ensures Engine.UpdateGrid(Engine.UpdateGrid(BlinkerEngine()).value) == Engine.Ok(BlinkerEngine())
  {
    EngineBlinkerSteps(BlinkerEngine());
  }
}
