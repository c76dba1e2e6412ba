/**
 * The maze grid shared by the generator and the game: a row-major 2-D array
 * of integers, `g[y, x]` being the cell in column `x` of row `y`, where `1`
 * is a wall and `0` is an open corridor.
 */
module Grid {

  /** A grid coordinate, the `{x, y}` objects of the game (x = column, y = row). */
  datatype Cell = Cell(x: int, y: int)

  const WALL := 1
  const OPEN := 0

  /** The player's start cell, which is also where carving begins. */
  const Start := Cell(1, 1)

  /** The cells of a grid `w` columns wide and `h` rows high. */
  predicate InGrid(c: Cell, w: int, h: int) {
    0 <= c.x < w && 0 <= c.y < h
  }

  /** The cells of such a grid strictly inside its outer ring. */
  predicate Interior(c: Cell, w: int, h: int) {
    0 < c.x < w - 1 && 0 < c.y < h - 1
  }

  predicate InBounds(g: array2<int>, c: Cell) {
    InGrid(c, g.Length1, g.Length0)
  }

  predicate IsOpen(g: array2<int>, c: Cell)
    reads g
  {
    InBounds(g, c) && g[c.y, c.x] == OPEN
  }

  /** Cells in the outermost ring of the grid. */
  predicate OnBorder(g: array2<int>, c: Cell) {
    InBounds(g, c) && !Interior(c, g.Length1, g.Length0)
  }

  /** Two cells one step apart horizontally or vertically. */
  predicate Adjacent(a: Cell, b: Cell) {
    (a.x == b.x && (a.y - b.y == 1 || b.y - a.y == 1)) ||
    (a.y == b.y && (a.x - b.x == 1 || b.x - a.x == 1))
  }

  /** A walk through open cells, each step to an adjacent cell. */
  ghost predicate IsOpenPath(g: array2<int>, p: seq<Cell>)
    reads g
  {
    |p| > 0 &&
    (forall i :: 0 <= i < |p| ==> IsOpen(g, p[i])) &&
    (forall i :: 0 < i < |p| ==> Adjacent(p[i - 1], p[i]))
  }

  ghost predicate Reachable(g: array2<int>, a: Cell, b: Cell)
    reads g
  {
    exists p :: IsOpenPath(g, p) && p[0] == a && p[|p| - 1] == b
  }
}
