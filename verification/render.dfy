/**
 Textual rendering. One glyph per cell with no separator, one line per row,
 and one empty line after the last row. The two glyphs `print` uses are
 abstracted as two distinct symbols; writing the lines out is not modelled.
 */
module Render {
  import opened Board

  /** The symbol printed for a live cell and the one printed for a dead cell. */
  datatype Glyph = LiveGlyph | DeadGlyph

  type Line = seq<Glyph>

  function GlyphOf(alive: bool): Glyph
  {
    if alive then LiveGlyph else DeadGlyph
  }

  /** The line printed for one row. */
  function RenderRow(row: seq<bool>): (line: Line)
    ensures |line| == |row|
    ensures forall y :: 0 <= y < |row| ==> (line[y] == LiveGlyph <==> row[y])
  {
    seq(|row|, (y: nat) requires y < |row| => GlyphOf(row[y]))
  }

  /** `print` as a pure function: the rows' lines, then one empty line. */
  function Lines(game: GameOfLife): (lines: seq<Line>)
    requires game.Valid()
    ensures |lines| == game.height + 1
    ensures lines[game.height] == []
    ensures forall x :: 0 <= x < game.height ==> |lines[x]| == game.width
    ensures forall x, y :: 0 <= x < game.height && 0 <= y < game.width ==>
              (lines[x][y] == LiveGlyph <==> game.grid[x][y])
  {
    seq(game.height, (x: nat) requires x < game.height => RenderRow(game.grid[x])) + [[]]
  }

  /** Reads a grid back from rendered lines: every line but the last is a row,
      a cell being alive exactly where its glyph is the live one. */
  function Parse(lines: seq<Line>): (g: Grid)
    requires |lines| > 0
    ensures |g| == |lines| - 1
    ensures forall x :: 0 <= x < |g| ==> |g[x]| == |lines[x]|
  {
    seq(|lines| - 1, (x: nat) requires x < |lines| - 1 =>
      seq(|lines[x]|, (y: nat) requires y < |lines[x]| => lines[x][y] == LiveGlyph))
  }

  /** Rendering loses nothing: the grid can be read back from its lines, so
      different grids print differently. */
  lemma ParseLines(game: GameOfLife)
    requires game.Valid()
    ensures Parse(Lines(game)) == game.grid
  {
    var g := Parse(Lines(game));
    assert forall x :: 0 <= x < game.height ==> g[x] == game.grid[x];
  }

  /** `print` as the program runs it: for each row, one glyph per cell, then a
      line break; then one more line break. */
  method Print(game: GameOfLife) returns (lines: seq<Line>)
    requires game.Valid()
    ensures |lines| == game.height + 1 && lines[game.height] == []
    ensures forall x :: 0 <= x < game.height ==> |lines[x]| == game.width
    ensures forall x, y :: 0 <= x < game.height && 0 <= y < game.width ==>
              lines[x][y] == GlyphOf(game.grid[x][y])
    ensures lines == Lines(game)
  {
    lines := [];
    for i := 0 to game.height
      invariant |lines| == i
      invariant forall x :: 0 <= x < i ==> |lines[x]| == game.width
      invariant forall x, y :: 0 <= x < i && 0 <= y < game.width ==>
                  lines[x][y] == GlyphOf(game.grid[x][y])
    {
      var line: Line := [];
      for j := 0 to game.width
        invariant |line| == j
        invariant forall y :: 0 <= y < j ==> line[y] == GlyphOf(game.grid[i][y])
      {
        line := line + [GlyphOf(game.grid[i][j])];
      }
      lines := lines + [line];
    }
    lines := lines + [[]];
    assert forall x :: 0 <= x < game.height ==> lines[x] == Lines(game)[x];
  }
}
