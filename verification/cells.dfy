/** Cells, coordinates and the two-dimensional grid that the maze generator
    carves and the move rule reads. */
module Cells {

  /** State of one cell. The game stores the number 1 for a wall and 0 for an
      open cell; nothing else is ever written into the grid. */
  datatype Cell = Wall | Open

  /** A coordinate: `x` selects the column, `y` the row. */
  datatype Pos = Pos(x: int, y: int)

  /** Rows of cells, indexed `maze[y][x]` like the game's array of arrays. */
  type Grid = seq<seq<Cell>>

  /** The grid has `rows` rows of `cols` cells each. */
  predicate Shaped(g: Grid, cols: int, rows: int) {
    |g| == rows && forall y :: 0 <= y < |g| ==> |g[y]| == cols
  }

  predicate InBounds(cols: int, rows: int, p: Pos) {
    0 <= p.x < cols && 0 <= p.y < rows
  }

  /** `p` names a cell that exists in `g`. */
  predicate InGrid(g: Grid, p: Pos) {
    0 <= p.y < |g| && 0 <= p.x < |g[p.y]|
  }

  /** The passability query: `p` is a cell of `g` and it is open. */
  predicate IsOpen(g: Grid, p: Pos) {
    InGrid(g, p) && g[p.y][p.x] == Open
  }

  predicate IsWall(g: Grid, p: Pos) {
    InGrid(g, p) && g[p.y][p.x] == Wall
  }

  predicate SameShape(g: Grid, h: Grid) {
    |g| == |h| && forall y :: 0 <= y < |g| ==> |g[y]| == |h[y]|
  }

  /** `h` is `g` with zero or more walls opened and no open cell closed. */
  ghost predicate Opens(g: Grid, h: Grid) {
    SameShape(g, h) && forall p :: IsOpen(g, p) ==> IsOpen(h, p)
  }

  /** Writing 0 into `maze[p.y][p.x]`. */
  function SetOpen(g: Grid, p: Pos): (h: Grid)
    requires InGrid(g, p)
    ensures Opens(g, h)
    ensures IsOpen(h, p)
    ensures forall q :: q != p ==> (IsOpen(h, q) <==> IsOpen(g, q))
    ensures forall q :: q != p ==> (IsWall(h, q) <==> IsWall(g, q))
    ensures IsOpen(g, p) ==> h == g
  {
    var row := g[p.y][p.x := Open];
    assert IsOpen(g, p) ==> row == g[p.y];
    g[p.y := row]
  }

  /** The set of wall cells of `g`. */
  function WallCells(g: Grid): (s: set<Pos>)
    ensures forall q :: q in s <==> IsWall(g, q)
  {
    var s := set y, x | 0 <= y < |g| && 0 <= x < |g[y]| && g[y][x] == Wall :: Pos(x, y);
    assert forall q :: IsWall(g, q) ==> q in s by {
      forall q | IsWall(g, q) ensures q in s {
        assert q == Pos(q.x, q.y);
      }
    }
    s
  }

  /** Opening a wall strictly shrinks the set of walls: the measure under
      which the carving loop terminates. */
  lemma OpeningShrinksWalls(g: Grid, h: Grid, p: Pos)
    requires Opens(g, h)
    requires IsWall(g, p) && IsOpen(h, p)
    ensures WallCells(h) < WallCells(g)
  {
    forall q | q in WallCells(h) ensures q in WallCells(g) {
      assert IsWall(h, q);
      assert !IsOpen(h, q);
      assert !IsOpen(g, q);
    }
    assert p in WallCells(g) && p !in WallCells(h);
  }
}
