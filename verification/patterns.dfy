/**
 Concrete generations, and why `next` builds a fresh grid. The vertical
 blinker becomes the horizontal one and back, even on a 3x3 grid where the
 window is clipped; updating the cells in place, in the order `next`
 visits them, would get the blinker wrong.
 */
module Patterns {
  import opened Board
  import opened Neighbours
  import opened Life

  /** A blinker: a 3x3 simulator whose live cells are exactly the middle
      column (when `vertical`) or exactly the middle row (otherwise). */
  predicate Blinker(game: GameOfLife, vertical: bool)
  {
    game.Valid() && game.height == 3 && game.width == 3
    && forall x, y :: 0 <= x < 3 && 0 <= y < 3 ==> game.grid[x][y] == (if vertical then y == 1 else x == 1)
  }

  /** One cell of a generation, read off `Step`'s contract at a named cell. */
  lemma StepAt(game: GameOfLife, x: nat, y: nat)
    requires game.Valid() && x < game.height && y < game.width
    ensures Step(game).grid[x][y] == Rule(game.grid[x][y], MooreCount(game.grid, x, y))
  {
  }

  /** The live-neighbour counts of a blinker: along the line of live cells the
      ends see 1 and the middle 2; beside it the ends see 2 and the middle 3. */
  lemma BlinkerCount(game: GameOfLife, vertical: bool, x: nat, y: nat)
    requires Blinker(game, vertical) && x < 3 && y < 3
    ensures var (along, across) := if vertical then (x, y) else (y, x);
            MooreCount(game.grid, x, y)
            == if across == 1 then (if along == 1 then 2 else 1) else (if along == 1 then 3 else 2)
  {
  }

  /** The blinker turns over each generation, even on a 3x3 grid where every
      window but the centre's is clipped. */
  lemma BlinkerTurns(game: GameOfLife, vertical: bool)
    requires Blinker(game, vertical)
    ensures Blinker(Step(game), !vertical)
  {
    var g, s := game.grid, Step(game);
    assert Rect(g, 3, 3);
    forall x, y | 0 <= x < 3 && 0 <= y < 3
      ensures s.grid[x][y] == (if vertical then x == 1 else y == 1)
    {
      StepAt(game, x, y);
      BlinkerCount(game, vertical, x, y);
    }
  }

  /** Hence the blinker has period 2. */
  lemma BlinkerHasPeriodTwo(game: GameOfLife, vertical: bool)
    requires Blinker(game, vertical)
    ensures Step(Step(game)) == game
  {
    BlinkerTurns(game, vertical);
    BlinkerTurns(Step(game), !vertical);
    var g, t := game.grid, Step(Step(game)).grid;
    assert forall x, y :: 0 <= x < 3 && 0 <= y < 3 ==> t[x][y] == g[x][y];
    assert t[0] == g[0] && t[1] == g[1] && t[2] == g[2];
  }

  /** The update `next` avoids: starting at (x, y), each cell in row-major
      order is overwritten with the rule applied to the grid as it stands, so
      a cell's count sees neighbours already moved to the next generation.
      Cells before (x, y) are left as they are. */
  function InPlaceSweep(game: GameOfLife, x: nat, y: nat): (r: GameOfLife)
    requires game.Valid() && x <= game.height && y <= game.width
    ensures r.Valid() && r.width == game.width && r.height == game.height
    ensures forall a, b :: 0 <= a < game.height && 0 <= b < game.width && (a < x || (a == x && b < y)) ==>
              r.grid[a][b] == game.grid[a][b]
    decreases game.height - x, game.width - y
  {
    if x == game.height then game
    else if y == game.width then InPlaceSweep(game, x + 1, 0)
    else
      var cell := Rule(game.grid[x][y], MooreCount(game.grid, x, y));
      InPlaceSweep(game.(grid := game.grid[x := game.grid[x][y := cell]]), x, y + 1)
  }

  /** On the vertical blinker the in-place sweep leaves (1, 0) dead: by the
      time it is visited its upper neighbour (0, 1) has already died. The
      snapshot update of `next` brings it to life. */
  lemma InPlaceSweepBreaksBlinker(game: GameOfLife)
    requires Blinker(game, true)
    ensures InPlaceSweep(game, 0, 0).grid[1][0] == false
    ensures Step(game).grid[1][0] == true
  {
    var g0 := game.grid;
    assert MooreCount(g0, 0, 0) == 2;
    assert InPlaceSweep(game, 0, 0) == InPlaceSweep(game, 0, 1) by {
      assert Rule(g0[0][0], MooreCount(g0, 0, 0)) == false;
      assert g0[0][0 := false] == g0[0];
      assert g0[0 := g0[0][0 := false]] == g0;
      assert game.(grid := g0) == game;
    }
    assert MooreCount(g0, 0, 1) == 1;
    var g1 := g0[0 := g0[0][1 := false]];
    var a := game.(grid := g1);
    assert InPlaceSweep(game, 0, 1) == InPlaceSweep(a, 0, 2);
    assert MooreCount(g1, 0, 2) == 1;
    assert InPlaceSweep(a, 0, 2) == InPlaceSweep(a, 0, 3) by {
      assert Rule(g1[0][2], MooreCount(g1, 0, 2)) == false;
      assert g1[0][2 := false] == g1[0];
      assert g1[0 := g1[0][2 := false]] == g1;
      assert a.(grid := g1) == a;
    }
    assert InPlaceSweep(a, 0, 3) == InPlaceSweep(a, 1, 0);
    assert MooreCount(g1, 1, 0) == 2;
    assert InPlaceSweep(a, 1, 0) == InPlaceSweep(a, 1, 1) by {
      assert Rule(g1[1][0], MooreCount(g1, 1, 0)) == false;
      assert g1[1][0 := false] == g1[1];
      assert g1[1 := g1[1][0 := false]] == g1;
      assert a.(grid := g1) == a;
    }
    StepAt(game, 1, 0);
  }
}
