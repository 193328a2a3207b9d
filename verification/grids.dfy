/**
  Grids of cell values as the simulation engine stores them: a sequence of
  rows, each a sequence of integers. A cell holding 1 is alive and a cell
  holding 0 is dead; nothing in the engine itself stops other values from
  being stored, so "every cell is 0 or 1" is a separate predicate.
 */
module Grids {

  type Grid = seq<seq<int>>

  /** `g` has exactly `outer` rows, each with exactly `inner` cells. */
  predicate IsShape(g: Grid, outer: nat, inner: nat) {
    |g| == outer && forall r :: 0 <= r < |g| ==> |g[r]| == inner
  }

  /** `a` and `b` have the same number of rows and matching row lengths. */
  predicate SameShape(a: Grid, b: Grid) {
    |a| == |b| && forall r :: 0 <= r < |a| ==> |a[r]| == |b[r]|
  }

  /** `g[i][j]` can be read without an index error. */
  predicate InBounds(g: Grid, i: int, j: int) {
    0 <= i < |g| && 0 <= j < |g[i]|
  }

  /** Every cell is dead (0) or alive (1). */
  predicate IsBinary(g: Grid) {
    forall i, j :: 0 <= i < |g| && 0 <= j < |g[i]| ==> g[i][j] == 0 || g[i][j] == 1
  }

  /** Every cell is dead. */
  predicate IsDead(g: Grid) {
    forall i, j :: 0 <= i < |g| && 0 <= j < |g[i]| ==> g[i][j] == 0
  }

  /** A freshly allocated grid: `outer` rows of `inner` dead cells. */
  function Zeros(outer: nat, inner: nat): (g: Grid)
    ensures IsShape(g, outer, inner)
    ensures IsDead(g) && IsBinary(g)
  {
    seq(outer, _ => seq(inner, _ => 0))
  }

  /** The grid with cell (i, j) replaced by `v`. */
  function Set(g: Grid, i: int, j: int, v: int): (r: Grid)
    requires InBounds(g, i, j)
    ensures SameShape(r, g)
    ensures r[i][j] == v
    ensures forall a, b :: InBounds(g, a, b) && (a != i || b != j) ==> r[a][b] == g[a][b]
  {
    g[i := g[i][j := v]]
  }
}
