/**
 The simulator's state: a fixed-size rectangular grid of cells, each alive or
 dead, stored row-major and indexed `grid[row][column]`.
 */
module Board {

  /** A grid of cells; `true` means alive. */
  type Grid = seq<seq<bool>>

  /** `g` has exactly `height` rows of exactly `width` cells each. */
  predicate Rect(g: Grid, height: nat, width: nat)
  {
    |g| == height && forall x :: 0 <= x < |g| ==> |g[x]| == width
  }

  /** The simulator: its two dimensions and the grid they describe. */
  datatype GameOfLife = GameOfLife(width: nat, height: nat, grid: Grid)
  {
    /** The dimensions describe the grid: it never becomes ragged. */
    predicate Valid()
    {
      Rect(grid, height, width)
    }
  }

  /** True when (x, y) lies on the grid and the cell there is alive. Coordinates
      off the grid, negative ones included, read as dead. */
  predicate LiveAt(g: Grid, x: int, y: int)
  {
    0 <= x < |g| && 0 <= y < |g[x]| && g[x][y]
  }

  /** No cell of `g` is alive. */
  predicate AllDead(g: Grid)
  {
    forall x, y :: 0 <= x < |g| && 0 <= y < |g[x]| ==> !g[x][y]
  }

  /** Construction (`GameOfLife::new`). Each cell gets an independent random
      boolean; here the randomness is a parameter, `coin(x, y)` being the
      value drawn for the cell in row `x`, column `y`. */
  function New(width: nat, height: nat, coin: (nat, nat) -> bool): (game: GameOfLife)
    ensures game.Valid()
    ensures game.width == width && game.height == height
    ensures forall x, y :: 0 <= x < height && 0 <= y < width ==> game.grid[x][y] == coin(x, y)
  {
    GameOfLife(width, height, seq(height, (x: nat) => seq(width, (y: nat) => coin(x, y))))
  }

  /** Every valid simulator is one that construction can produce: no grid of
      the right shape is out of reach of the random fill. */
  lemma NewReachesEveryGrid(game: GameOfLife)
    requires game.Valid()
    ensures New(game.width, game.height, (x: nat, y: nat) => LiveAt(game.grid, x, y)) == game
  {
    var made := New(game.width, game.height, (x: nat, y: nat) => LiveAt(game.grid, x, y));
    assert forall x :: 0 <= x < game.height ==> made.grid[x] == game.grid[x];
  }
}
