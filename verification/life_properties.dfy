/**
  Properties of the generation rule: what the neighbour count ignores, how
  the bounded edge behaves, that a step reads only the old generation, and
  that toggling is its own inverse.
 */
module LifeProperties {

  import opened Grids
  import opened Life

  /** How many of the eight neighbour positions of (x, y) lie inside the bounds. */
  function Slots(w: int, h: int, x: int, y: int): (n: nat)
    ensures n <= 8
  {
    (if InWindow(w, h, x - 1, y - 1) then 1 else 0)
    + (if InWindow(w, h, x - 1, y) then 1 else 0)
    + (if InWindow(w, h, x - 1, y + 1) then 1 else 0)
    + (if InWindow(w, h, x, y - 1) then 1 else 0)
    + (if InWindow(w, h, x, y + 1) then 1 else 0)
    + (if InWindow(w, h, x + 1, y - 1) then 1 else 0)
    + (if InWindow(w, h, x + 1, y) then 1 else 0)
    + (if InWindow(w, h, x + 1, y + 1) then 1 else 0)
  }

  /** A position outside the bounds is never read and never adds to the count. */
  lemma {:induction false} OutsideAddsNothing(g: Grid, w: int, h: int, x: int, y: int)
    requires Readable(g, w, h, x, y) && IsBinary(g)
    ensures Count(g, w, h, x, y) <= Slots(w, h, x, y)
  {
    forall i, j | x - 1 <= i <= x + 1 && y - 1 <= j <= y + 1
      ensures Contribution(g, w, h, x, y, i, j) <= (if InWindow(w, h, i, j) && (i != x || j != y) then 1 else 0)
    {
      if InWindow(w, h, i, j) && (i != x || j != y) {
        assert InBounds(g, i, j);
      }
    }
  }

  /** A cell in a corner of the bounds has at most three neighbours alive. */
  lemma CornerCountAtMostThree(g: Grid, w: int, h: int, x: int, y: int)
    requires Readable(g, w, h, x, y) && IsBinary(g)
    requires x == 0 || x == w - 1
    requires y == 0 || y == h - 1
    ensures Count(g, w, h, x, y) <= 3
  {
    OutsideAddsNothing(g, w, h, x, y);
  }

  /** A cell on an edge of the bounds has at most five neighbours alive. */
  lemma EdgeCountAtMostFive(g: Grid, w: int, h: int, x: int, y: int)
    requires Readable(g, w, h, x, y) && IsBinary(g)
    requires x == 0 || x == w - 1 || y == 0 || y == h - 1
    ensures Count(g, w, h, x, y) <= 5
  {
    OutsideAddsNothing(g, w, h, x, y);
  }

  /** The count of (x, y) does not depend on the value of (x, y) itself. */
  lemma CountIgnoresCentre(g: Grid, w: int, h: int, x: int, y: int, v: int)
    requires Readable(g, w, h, x, y) && InBounds(g, x, y)
    ensures Readable(Set(g, x, y, v), w, h, x, y)
    ensures Count(Set(g, x, y, v), w, h, x, y) == Count(g, w, h, x, y)
  {
  }

  /**
    The grid surrounded by a one-cell border of dead cells: cell (i, j) of
    `g` becomes cell (i + 1, j + 1).
   */
  function Pad(g: Grid, w: nat, h: nat): (r: Grid)
    requires IsShape(g, w, h)
    ensures IsShape(r, w + 2, h + 2)
    ensures forall i, j :: 0 <= i < w && 0 <= j < h ==> r[i + 1][j + 1] == g[i][j]
    ensures forall j :: 0 <= j < h + 2 ==> r[0][j] == 0 && r[w + 1][j] == 0
    ensures forall i :: 0 <= i < w + 2 ==> r[i][0] == 0 && r[i][h + 1] == 0
  {
    seq(w + 2, i requires 0 <= i < w + 2 =>
      seq(h + 2, j requires 0 <= j < h + 2 =>
        if 1 <= i <= w && 1 <= j <= h then g[i - 1][j - 1] else 0))
  }

  /** Each position of the 3x3 block adds the same to the count in `g` and in its padding. */
  lemma PadContribution(g: Grid, w: nat, h: nat, x: int, y: int, i: int, j: int)
    requires IsShape(g, w, h)
    ensures CanRead(Pad(g, w, h), w + 2, h + 2, i + 1, j + 1) && CanRead(g, w, h, i, j)
    ensures Contribution(Pad(g, w, h), w + 2, h + 2, x + 1, y + 1, i + 1, j + 1)
         == Contribution(g, w, h, x, y, i, j)
  {
    var p := Pad(g, w, h);
    if InWindow(w + 2, h + 2, i + 1, j + 1) && !InWindow(w, h, i, j) {
      assert i + 1 == 0 || i + 1 == w + 1 || j + 1 == 0 || j + 1 == h + 1;
      assert p[i + 1][j + 1] == 0;
    }
  }

  /**
    The edge policy: a cell's neighbour count is the one it would have if
    the grid were surrounded by cells that are never alive.
   */
  lemma {:induction false} EdgeIsDeadVoid(g: Grid, w: nat, h: nat, x: int, y: int)
    requires IsShape(g, w, h)
    ensures Readable(Pad(g, w, h), w + 2, h + 2, x + 1, y + 1)
    ensures Count(Pad(g, w, h), w + 2, h + 2, x + 1, y + 1) == Count(g, w, h, x, y)
  {
    PadContribution(g, w, h, x, y, x - 1, y - 1);
    PadContribution(g, w, h, x, y, x - 1, y);
    PadContribution(g, w, h, x, y, x - 1, y + 1);
    PadContribution(g, w, h, x, y, x, y - 1);
    PadContribution(g, w, h, x, y, x, y);
    PadContribution(g, w, h, x, y, x, y + 1);
    PadContribution(g, w, h, x, y, x + 1, y - 1);
    PadContribution(g, w, h, x, y, x + 1, y);
    PadContribution(g, w, h, x, y, x + 1, y + 1);
  }

  /** Cells evolve in the padded grid exactly as in the original. */
  lemma StepIgnoresDeadBorder(g: Grid, w: nat, h: nat, x: int, y: int)
    requires IsShape(g, w, h)
    requires 0 <= x < w && 0 <= y < h
    ensures Step(Pad(g, w, h), w + 2, h + 2)[x + 1][y + 1] == Step(g, w, h)[x][y]
  {
    EdgeIsDeadVoid(g, w, h, x, y);
  }

  /** `a` and `b` hold the same cells at every in-bounds position of the 3x3 block around (x, y). */
  predicate AgreeAround(a: Grid, b: Grid, w: nat, h: nat, x: int, y: int)
    requires IsShape(a, w, h) && IsShape(b, w, h)
  {
    forall i, j :: x - 1 <= i <= x + 1 && y - 1 <= j <= y + 1 && 0 <= i < w && 0 <= j < h ==> a[i][j] == b[i][j]
  }

  /**
    The step is synchronous and local: the next state of (x, y) depends only
    on the current generation's cells in its 3x3 block, never on cells
    already written for the next generation.
   */
  lemma StepIsLocal(a: Grid, b: Grid, w: nat, h: nat, x: int, y: int)
    requires IsShape(a, w, h) && IsShape(b, w, h)
    requires 0 <= x < w && 0 <= y < h
    requires AgreeAround(a, b, w, h, x, y)
    ensures Step(a, w, h)[x][y] == Step(b, w, h)[x][y]
  {
    ShapeIsReadable(a, w, h);
    ShapeIsReadable(b, w, h);
    assert Count(a, w, h, x, y) == Count(b, w, h, x, y);
  }

  /** The grid read the other way round: `r[j][i] == g[i][j]`. */
  function Transpose(g: Grid, w: nat, h: nat): (r: Grid)
    requires IsShape(g, w, h)
    ensures IsShape(r, h, w)
    ensures forall i, j :: 0 <= i < w && 0 <= j < h ==> r[j][i] == g[i][j]
  {
    seq(h, j requires 0 <= j < h => seq(w, i requires 0 <= i < w => g[i][j]))
  }

  /** Counting in the transposed grid at (y, x) gives the count at (x, y). */
  lemma CountTranspose(g: Grid, w: nat, h: nat, x: int, y: int)
    requires IsShape(g, w, h)
    ensures Readable(g, w, h, x, y) && Readable(Transpose(g, w, h), h, w, y, x)
    ensures Count(Transpose(g, w, h), h, w, y, x) == Count(g, w, h, x, y)
  {
    ShapeIsReadable(g, w, h);
    ShapeIsReadable(Transpose(g, w, h), h, w);
  }

  /**
    Which of the two indices is the row does not matter to the rule: the
    next generation of the transposed grid is the transposed next
    generation.
   */
  lemma {:induction false} StepTranspose(g: Grid, w: nat, h: nat)
    requires IsShape(g, w, h)
    ensures Step(Transpose(g, w, h), h, w) == Transpose(Step(g, w, h), w, h)
  {
    var t := Transpose(g, w, h);
    var left := Step(t, h, w);
    var right := Transpose(Step(g, w, h), w, h);
    forall j, i | 0 <= j < h && 0 <= i < w
      ensures left[j][i] == right[j][i]
    {
      CountTranspose(g, w, h, i, j);
    }
    assert forall j :: 0 <= j < h ==> left[j] == right[j];
  }

  /** An all-dead grid stays all dead. */
  lemma {:induction false} DeadStaysDead(w: nat, h: nat)
    ensures Step(Zeros(w, h), w, h) == Zeros(w, h)
  {
    var z := Zeros(w, h);
    var s := Step(z, w, h);
    forall i, j | 0 <= i < w && 0 <= j < h
      ensures s[i][j] == 0
    {
      ShapeIsReadable(z, w, h);
      assert Count(z, w, h, i, j) == 0;
    }
    assert forall i :: 0 <= i < w ==> s[i] == z[i];
  }

  /** Toggling the same cell twice restores the grid. */
  lemma {:induction false} ToggleTwice(g: Grid, x: int, y: int)
    requires InBounds(g, x, y)
    ensures InBounds(Toggle(g, x, y), x, y)
    ensures Toggle(Toggle(g, x, y), x, y) == g
  {
    var t := Toggle(Toggle(g, x, y), x, y);
    assert t[x] == g[x];
  }

  /** The grid after `k` successive steps. */
  function Generations(g: Grid, w: nat, h: nat, k: nat): (r: Grid)
    requires IsShape(g, w, h)
    ensures IsShape(r, w, h)
    decreases k
  {
    if k == 0 then g else Generations(Step(g, w, h), w, h, k - 1)
  }

  /** A still life stays unchanged for any number of generations. */
  lemma {:induction false} StillLifeForever(g: Grid, w: nat, h: nat, k: nat)
    requires IsShape(g, w, h) && Step(g, w, h) == g
    ensures Generations(g, w, h, k) == g
    decreases k
  {
    if k > 0 {
      StillLifeForever(g, w, h, k - 1);
    }
  }

  /** A period-two oscillator is back in its first phase after every even number of generations. */
  lemma {:induction false} PeriodTwoForever(g: Grid, w: nat, h: nat, k: nat)
    requires IsShape(g, w, h) && Step(Step(g, w, h), w, h) == g
    ensures Generations(g, w, h, 2 * k) == g
    decreases k
  {
    if k > 0 {
      calc {
        Generations(g, w, h, 2 * k);
        Generations(Step(g, w, h), w, h, 2 * k - 1);
        Generations(Step(Step(g, w, h), w, h), w, h, 2 * k - 2);
        { PeriodTwoForever(g, w, h, k - 1); }
        g;
      }
    }
  }
}
