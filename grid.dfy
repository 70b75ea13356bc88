/** Vocabulary shared by the path engine and the grid editor: coordinates,
    the maze matrix, 4-connected moves and walks through open cells. */
module Grid {

  datatype Option<+T> = None | Some(value: T)

  /** A cell position `(row, col)`; the `(x, y)` tuples of the search. */
  datatype Coord = Coord(row: int, col: int)

  /** The maze matrix: `maze[r][c] == 0` is an open cell, anything else a wall. */
  type Maze = seq<seq<int>>

  function Rows(maze: Maze): nat { |maze| }

  /** `len(maze[0])`; zero only for a maze without rows. */
  function Cols(maze: Maze): nat { if |maze| == 0 then 0 else |maze[0]| }

  /** A rectangular matrix with at least one row (so that `maze[0]` exists). */
  predicate IsRect(maze: Maze) {
    |maze| >= 1 && forall r :: 0 <= r < |maze| ==> |maze[r]| == |maze[0]|
  }

  predicate InBounds(maze: Maze, c: Coord) {
    0 <= c.row < Rows(maze) && 0 <= c.col < Cols(maze)
  }

  /** The search's test for entering a cell: in bounds and holding 0. */
  predicate Walkable(maze: Maze, c: Coord) {
    InBounds(maze, c) && c.col < |maze[c.row]| && maze[c.row][c.col] == 0
  }

  function Abs(x: int): nat { if x < 0 then -x else x }

  /** 4-connected adjacency: one unit apart in exactly one axis. */
  predicate Adjacent(a: Coord, b: Coord) {
    Abs(a.row - b.row) + Abs(a.col - b.col) == 1
  }

  /** The four moves, in the order the search tries them: up, down, left, right. */
  const Directions: seq<(int, int)> := [(-1, 0), (1, 0), (0, -1), (0, 1)]

  /** The cell one move away from `c` in direction `j` (0 to 3). */
  function Neighbor(c: Coord, j: nat): (n: Coord)
    requires j < 4
    ensures n == Coord(c.row + Directions[j].0, c.col + Directions[j].1)
    ensures Adjacent(c, n)
  {
    match j
    case 0 => Coord(c.row - 1, c.col)
    case 1 => Coord(c.row + 1, c.col)
    case 2 => Coord(c.row, c.col - 1)
    case 3 => Coord(c.row, c.col + 1)
  }

  /** Every adjacent cell is reached by one of the four moves. */
  function DirectionOf(a: Coord, b: Coord): (j: nat)
    requires Adjacent(a, b)
    ensures j < 4 && Neighbor(a, j) == b
  {
    if b.row == a.row - 1 then 0
    else if b.row == a.row + 1 then 1
    else if b.col == a.col - 1 then 2
    else 3
  }

  /** A walk from `s` to `e`: it starts at `s`, ends at `e`, moves one unit at
      a time, and every cell after the first is walkable (the first cell
      is never inspected by the search). */
  predicate IsWalk(maze: Maze, s: Coord, e: Coord, p: seq<Coord>) {
    |p| >= 1 && p[0] == s && p[|p| - 1] == e &&
    (forall i :: 1 <= i < |p| ==> Walkable(maze, p[i])) &&
    (forall i :: 0 <= i < |p| - 1 ==> Adjacent(p[i], p[i + 1]))
  }

  ghost predicate Reachable(maze: Maze, s: Coord, e: Coord) {
    exists p :: IsWalk(maze, s, e, p)
  }

  /** A walk with no fewer cells than any other walk between the same cells. */
  ghost predicate IsShortestWalk(maze: Maze, s: Coord, e: Coord, p: seq<Coord>) {
    IsWalk(maze, s, e, p) && forall q :: IsWalk(maze, s, e, q) ==> |p| <= |q|
  }

  /** The matrix with cell `c` set to `v` (`m[row][col] = v`). */
  function SetCell<T>(m: seq<seq<T>>, c: Coord, v: T): (m': seq<seq<T>>)
    requires 0 <= c.row < |m| && 0 <= c.col < |m[c.row]|
    ensures |m'| == |m|
    ensures forall r :: 0 <= r < |m'| ==> |m'[r]| == |m[r]|
    ensures m'[c.row][c.col] == v
    ensures forall r, k :: 0 <= r < |m'| && 0 <= k < |m'[r]| && (r != c.row || k != c.col) ==>
              m'[r][k] == m[r][k]
  {
    m[c.row := m[c.row][c.col := v]]
  }
}
