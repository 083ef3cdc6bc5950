/**
 One generation of the automaton. Every cell of a fresh grid is computed from
 the cell's state and its neighbour count in the old grid under the B3/S23
 rule; the fresh grid replaces the old one only once every cell is computed.
 */
module Life {
  import opened Board
  import opened Neighbours

  /** The B3/S23 rule: the next state of a cell from its state and its count
      of live neighbours. */
  function Rule(alive: bool, count: nat): (next: bool)
    // survival: a live cell stays alive exactly with 2 or 3 live neighbours
    ensures alive ==> (next <==> count == 2 || count == 3)
    // birth: a dead cell comes alive exactly with 3 live neighbours
    ensures !alive ==> (next <==> count == 3)
  {
    match (alive, count)
    case (true, 2) => true
    case (true, 3) => true
    case (false, 3) => true
    case _ => false
  }

  /** `count_neighbors` agrees with the declarative count at every cell. */
  lemma WindowCountIsMooreEverywhere(game: GameOfLife)
    requires game.Valid()
    ensures forall x: nat, y: nat :: x < game.height && y < game.width ==>
              WindowCount(game, x, y) == MooreCount(game.grid, x, y)
  {
    forall x: nat, y: nat | x < game.height && y < game.width {
      WindowCountIsMoore(game, x, y);
    }
  }

  /** `next` as a function: the same dimensions, and every cell is the rule
      applied to the OLD cell and its neighbour count in the OLD grid. */
  function Step(game: GameOfLife): (r: GameOfLife)
    requires game.Valid()
    ensures r.Valid() && r.width == game.width && r.height == game.height
    ensures forall x, y :: 0 <= x < r.height && 0 <= y < r.width ==>
              r.grid[x][y] == Rule(game.grid[x][y], MooreCount(game.grid, x, y))
  {
    WindowCountIsMooreEverywhere(game);
    var h, w := game.height, game.width;
    GameOfLife(w, h,
      seq(h, (x: nat) requires x < h =>
        seq(w, (y: nat) requires y < w => Rule(game.grid[x][y], WindowCount(game, x, y)))))
  }

  /** `next` as the program runs it: a fresh all-dead grid is filled cell by
      cell in row-major order, each cell reading only the old grid, and is
      made the new state at the end. */
  method Next(game: GameOfLife) returns (next: GameOfLife)
    requires game.Valid()
    ensures next.Valid() && next.width == game.width && next.height == game.height
    ensures forall x, y :: 0 <= x < next.height && 0 <= y < next.width ==>
              next.grid[x][y] == Rule(game.grid[x][y], MooreCount(game.grid, x, y))
    ensures next == Step(game)
  {
    var h, w := game.height, game.width;
    var nextGrid: Grid := seq(h, _ => seq(w, _ => false));
    for i := 0 to h
      invariant Rect(nextGrid, h, w)
      invariant forall x, y :: 0 <= x < i && 0 <= y < w ==>
                  nextGrid[x][y] == Rule(game.grid[x][y], MooreCount(game.grid, x, y))
    {
      for j := 0 to w
        invariant Rect(nextGrid, h, w)
        invariant forall x, y :: 0 <= x < i && 0 <= y < w ==>
                    nextGrid[x][y] == Rule(game.grid[x][y], MooreCount(game.grid, x, y))
        invariant forall y :: 0 <= y < j ==>
                    nextGrid[i][y] == Rule(game.grid[i][y], MooreCount(game.grid, i, y))
      {
        var count := CountNeighbors(game, i, j);
        var cell := Rule(game.grid[i][j], count);
        nextGrid := nextGrid[i := nextGrid[i][j := cell]];
      }
    }
    next := GameOfLife(w, h, nextGrid);
    var expected := Step(game);
    assert forall x :: 0 <= x < h ==> next.grid[x] == expected.grid[x];
  }

  // ---------------------------------------------------------------------------
  // Properties of the count
  // ---------------------------------------------------------------------------

  /** The count never exceeds the number of cells the clipped window holds
      besides the centre: 8 inside, 5 on an edge, 3 in a corner. */
  lemma {:induction false} CountBounds(game: GameOfLife, i: nat, j: nat)
    requires game.Valid() && i < game.height && j < game.width
    ensures WindowCount(game, i, j) <= Span(i, game.height) * Span(j, game.width) - 1
    ensures WindowCount(game, i, j) <= 8
    ensures (i == 0 || i == game.height - 1 || j == 0 || j == game.width - 1) ==>
              WindowCount(game, i, j) <= 5
    ensures (i == 0 || i == game.height - 1) && (j == 0 || j == game.width - 1) ==>
              WindowCount(game, i, j) <= 3
  {
    var g, h, w := game.grid, game.height, game.width;
    WindowCountIsMoore(game, i, j);
    RowBound(g, i, j, i - 1, w);
    RowBound(g, i, j, i, w);
    RowBound(g, i, j, i + 1, w);
    assert MooreRow(g, i, j, i) <= Span(j, w) - 1;
    var si, sj := Span(i, h), Span(j, w);
    assert 1 <= si <= 3 && 1 <= sj <= 3;
    if i == 0 || i == h - 1 {
      assert MooreCount(g, i, j) <= (si - 1) * sj + sj - 1;
    } else {
      assert si == 3;
    }
  }

  /** A row of the window contributes at most the window's width, and nothing
      when it lies off the grid. */
  lemma RowBound(g: Grid, i: nat, j: nat, x: int, w: nat)
    requires Rect(g, |g|, w) && i < |g| && j < w
    ensures MooreRow(g, i, j, x) <= Span(j, w)
    ensures x == i ==> MooreRow(g, i, j, x) <= Span(j, w) - 1
    ensures !(0 <= x < |g|) ==> MooreRow(g, i, j, x) == 0
  {
  }

  /** Away from every edge the window is the full 3x3 block, so the count is
      over all eight surrounding cells with no clipping. */
  lemma InteriorCount(game: GameOfLife, i: nat, j: nat)
    requires game.Valid() && 0 < i < game.height - 1 && 0 < j < game.width - 1
    ensures Span(i, game.height) == 3 && Span(j, game.width) == 3
    ensures var g := game.grid;
            WindowCount(game, i, j)
            == Bit(g[i-1][j-1]) + Bit(g[i-1][j]) + Bit(g[i-1][j+1])
             + Bit(g[i][j-1])                    + Bit(g[i][j+1])
             + Bit(g[i+1][j-1]) + Bit(g[i+1][j]) + Bit(g[i+1][j+1])
  {
    WindowCountIsMoore(game, i, j);
  }

  // ---------------------------------------------------------------------------
  // Properties of one generation
  // ---------------------------------------------------------------------------

  /** An all-dead grid stays all dead: every count is 0, and a dead cell with
      no live neighbours stays dead. */
  lemma StepKeepsDeadGridDead(game: GameOfLife)
    requires game.Valid() && AllDead(game.grid)
    ensures AllDead(Step(game).grid)
  {
    var r := Step(game);
    forall x, y | 0 <= x < |r.grid| && 0 <= y < |r.grid[x]|
      ensures !r.grid[x][y]
    {
      assert MooreCount(game.grid, x, y) == 0;
    }
  }

  /** A live cell with no live neighbours dies after one generation. */
  lemma IsolatedCellDies(game: GameOfLife, i: nat, j: nat)
    requires game.Valid() && i < game.height && j < game.width
    requires game.grid[i][j] && WindowCount(game, i, j) == 0
    ensures !Step(game).grid[i][j]
  {
    WindowCountIsMoore(game, i, j);
  }
}
