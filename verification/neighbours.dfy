/**
 Neighbour counting. `count_neighbors` counts the live cells of the 3x3 window around
 a cell, clipped to the grid edges (no wrap-around), skipping the cell itself.
 This module gives that window computation as a function and as the nested
 loop the program runs, and proves both equal to a declarative count: the
 number of live cells on the grid at Chebyshev distance exactly 1.
 */
module Neighbours {
  import opened Board

  // ---------------------------------------------------------------------------
  // The clipped window
  // ---------------------------------------------------------------------------

  /** First index, along one axis, of the window around `i`:
      `i.saturating_sub(1)`, which stays at 0 instead of going below it. */
  function WindowLo(i: nat): nat
  {
    if i == 0 then 0 else i - 1
  }

  /** Last index (inclusive), along an axis of length `n`, of the window around
      `i`: `(i + 1).min(n - 1)`. */
  function WindowHi(i: nat, n: nat): nat
    requires i < n
  {
    if i + 1 < n - 1 then i + 1 else n - 1
  }

  /** Number of indices in the window around `i` along an axis of length `n`. */
  function Span(i: nat, n: nat): nat
    requires i < n
  {
    WindowHi(i, n) + 1 - WindowLo(i)
  }

  /** The window around `i` is exactly the on-grid indices within distance 1 of
      `i`: it holds `i`, stays on the axis, and loses only what the edges cut,
      so it spans 3 indices inside, 2 at an end, and 1 on an axis of length 1. */
  lemma WindowIsClippedNeighbourhood(i: nat, n: nat, x: int)
    requires i < n
    ensures 0 <= WindowLo(i) <= i <= WindowHi(i, n) < n
    ensures WindowLo(i) <= x <= WindowHi(i, n) <==> 0 <= x < n && i - 1 <= x <= i + 1
    ensures Span(i, n) == if n == 1 then 1 else if i == 0 || i == n - 1 then 2 else 3
  {
  }

  // ---------------------------------------------------------------------------
  // The count as `count_neighbors` computes it
  // ---------------------------------------------------------------------------

  /** 1 when (x, y) is a live cell other than the centre (i, j), else 0. */
  function Tally(g: Grid, i: nat, j: nat, x: nat, y: nat): nat
    requires x < |g| && y < |g[x]|
  {
    if (x, y) != (i, j) && g[x][y] then 1 else 0
  }

  /** Tallies of row `x`, columns `lo` up to (excluding) `hi`. */
  function RowTally(g: Grid, i: nat, j: nat, x: nat, lo: nat, hi: nat): nat
    requires x < |g| && lo <= hi <= |g[x]|
    decreases hi - lo
  {
    if hi == lo then 0 else RowTally(g, i, j, x, lo, hi - 1) + Tally(g, i, j, x, hi - 1)
  }

  /** Tallies of rows `xlo` up to (excluding) `xhi`, columns `ylo` up to
      (excluding) `yhi`, in the program's row-then-column order. */
  function BlockTally(g: Grid, i: nat, j: nat, xlo: nat, xhi: nat, ylo: nat, yhi: nat): nat
    requires xlo <= xhi <= |g| && ylo <= yhi
    requires forall x :: xlo <= x < xhi ==> yhi <= |g[x]|
    decreases xhi - xlo
  {
    if xhi == xlo then 0
    else BlockTally(g, i, j, xlo, xhi - 1, ylo, yhi) + RowTally(g, i, j, xhi - 1, ylo, yhi)
  }

  /** `count_neighbors(i, j)`: the tallies over the clipped window. */
  function WindowCount(game: GameOfLife, i: nat, j: nat): nat
    requires game.Valid() && i < game.height && j < game.width
  {
    BlockTally(game.grid, i, j,
               WindowLo(i), WindowHi(i, game.height) + 1,
               WindowLo(j), WindowHi(j, game.width) + 1)
  }

  // ---------------------------------------------------------------------------
  // The declarative count
  // ---------------------------------------------------------------------------

  function Bit(b: bool): nat
  {
    if b then 1 else 0
  }

  /** (x, y) is a live cell on the grid, and not the centre (i, j). */
  predicate IsLiveNeighbour(g: Grid, i: int, j: int, x: int, y: int)
  {
    (x, y) != (i, j) && LiveAt(g, x, y)
  }

  /** Live neighbours of (i, j) in row `x`, among columns j-1, j, j+1. */
  function MooreRow(g: Grid, i: int, j: int, x: int): nat
  {
    Bit(IsLiveNeighbour(g, i, j, x, j - 1))
    + Bit(IsLiveNeighbour(g, i, j, x, j))
    + Bit(IsLiveNeighbour(g, i, j, x, j + 1))
  }

  /** The live cells among the eight around (i, j), off-grid positions counting
      as dead. */
  function MooreCount(g: Grid, i: int, j: int): nat
  {
    MooreRow(g, i, j, i - 1) + MooreRow(g, i, j, i) + MooreRow(g, i, j, i + 1)
  }

  /** The set of live cells on the grid at Chebyshev distance exactly 1 from
      (i, j). */
  function LiveNeighbours(g: Grid, i: int, j: int): set<(int, int)>
  {
    set x: int, y: int | i - 1 <= x <= i + 1 && j - 1 <= y <= j + 1 && IsLiveNeighbour(g, i, j, x, y) :: (x, y)
  }

  // ---------------------------------------------------------------------------
  // The window count is the declarative count
  // ---------------------------------------------------------------------------

  /** One row of the clipped window tallies what that row contributes to the
      declarative count. */
  lemma {:induction false} RowTallyIsMooreRow(g: Grid, i: nat, j: nat, x: nat, w: nat)
    requires x < |g| && |g[x]| == w && j < w
    ensures RowTally(g, i, j, x, WindowLo(j), WindowHi(j, w) + 1) == MooreRow(g, i, j, x)
  {
    var lo, hi := WindowLo(j), WindowHi(j, w) + 1;
    assert RowTally(g, i, j, x, lo, lo) == 0;
    if j > 0 {
      assert RowTally(g, i, j, x, lo, j) == Bit(IsLiveNeighbour(g, i, j, x, j - 1));
    } else {
      assert !IsLiveNeighbour(g, i, j, x, j - 1);
    }
    assert RowTally(g, i, j, x, lo, j + 1)
        == Bit(IsLiveNeighbour(g, i, j, x, j - 1)) + Bit(IsLiveNeighbour(g, i, j, x, j));
    if j + 1 < w {
      assert hi == j + 2;
    } else {
      assert hi == j + 1;
      assert !IsLiveNeighbour(g, i, j, x, j + 1);
    }
  }

  /** `count_neighbors` counts exactly the live cells at Chebyshev distance 1
      that lie on the grid. */
  lemma {:induction false} WindowCountIsMoore(game: GameOfLife, i: nat, j: nat)
    requires game.Valid() && i < game.height && j < game.width
    ensures WindowCount(game, i, j) == MooreCount(game.grid, i, j)
  {
    var g, h, w := game.grid, game.height, game.width;
    var lo, hi := WindowLo(i), WindowHi(i, h) + 1;
    var ylo, yhi := WindowLo(j), WindowHi(j, w) + 1;
    assert BlockTally(g, i, j, lo, lo, ylo, yhi) == 0;
    if i > 0 {
      RowTallyIsMooreRow(g, i, j, i - 1, w);
      assert BlockTally(g, i, j, lo, i, ylo, yhi) == MooreRow(g, i, j, i - 1);
    } else {
      assert MooreRow(g, i, j, i - 1) == 0;
    }
    RowTallyIsMooreRow(g, i, j, i, w);
    assert BlockTally(g, i, j, lo, i + 1, ylo, yhi)
        == MooreRow(g, i, j, i - 1) + MooreRow(g, i, j, i);
    if i + 1 < h {
      RowTallyIsMooreRow(g, i, j, i + 1, w);
      assert hi == i + 2;
    } else {
      assert hi == i + 1;
      assert MooreRow(g, i, j, i + 1) == 0;
    }
  }

  /** The declarative count is the size of the set of live neighbours. */
  lemma MooreCountIsCardinality(g: Grid, i: int, j: int)
    ensures |LiveNeighbours(g, i, j)| == MooreCount(g, i, j)
  {
    var r0, r1, r2 := RowSet(g, i, j, i - 1), RowSet(g, i, j, i), RowSet(g, i, j, i + 1);
    RowSetSize(g, i, j, i - 1);
    RowSetSize(g, i, j, i);
    RowSetSize(g, i, j, i + 1);
    assert |r0 + r1| == |r0| + |r1| by {
      assert r0 !! r1;
    }
    assert |r0 + r1 + r2| == |r0 + r1| + |r2| by {
      assert (r0 + r1) !! r2;
    }
    LiveNeighboursByRows(g, i, j);
  }

  /** The live neighbours, gathered row by row. */
  lemma LiveNeighboursByRows(g: Grid, i: int, j: int)
    ensures LiveNeighbours(g, i, j) == RowSet(g, i, j, i - 1) + RowSet(g, i, j, i) + RowSet(g, i, j, i + 1)
  {
  }

  /** The live neighbour at (x, y), as a set of at most one cell. */
  function Single(g: Grid, i: int, j: int, x: int, y: int): set<(int, int)>
  {
    if IsLiveNeighbour(g, i, j, x, y) then {(x, y)} else {}
  }

  /** The live neighbours of (i, j) in row `x`. */
  function RowSet(g: Grid, i: int, j: int, x: int): set<(int, int)>
  {
    Single(g, i, j, x, j - 1) + Single(g, i, j, x, j) + Single(g, i, j, x, j + 1)
  }

  lemma RowSetSize(g: Grid, i: int, j: int, x: int)
    ensures |RowSet(g, i, j, x)| == MooreRow(g, i, j, x)
    ensures forall p :: p in RowSet(g, i, j, x) ==> p.0 == x && j - 1 <= p.1 <= j + 1 && IsLiveNeighbour(g, i, j, p.0, p.1)
  {
  }

  // ---------------------------------------------------------------------------
  // The nested loop of `count_neighbors`
  // ---------------------------------------------------------------------------

  /** `count_neighbors` as the program runs it: two nested inclusive ranges over
      the clipped window, every grid access in bounds. */
  method CountNeighbors(game: GameOfLife, i: nat, j: nat) returns (count: nat)
    requires game.Valid() && i < game.height && j < game.width
    ensures count == MooreCount(game.grid, i, j)
    ensures count == |LiveNeighbours(game.grid, i, j)|
  {
    var g := game.grid;
    var xlo, xhi := WindowLo(i), WindowHi(i, game.height);
    var ylo, yhi := WindowLo(j), WindowHi(j, game.width);
    count := 0;
    var x := xlo;
    while x <= xhi
      invariant xlo <= x <= xhi + 1
      invariant count == BlockTally(g, i, j, xlo, x, ylo, yhi + 1)
    {
      var y := ylo;
      while y <= yhi
        invariant ylo <= y <= yhi + 1
        invariant count == BlockTally(g, i, j, xlo, x, ylo, yhi + 1) + RowTally(g, i, j, x, ylo, y)
      {
        if (x, y) != (i, j) && g[x][y] {
          count := count + 1;
        }
        y := y + 1;
      }
      x := x + 1;
    }
    WindowCountIsMoore(game, i, j);
    MooreCountIsCardinality(g, i, j);
  }
}
