/** Facts about walks on the grid that pin down what `dijkstra` returns in
    two situations: an all-open grid, where the shortest walk follows the
    Manhattan distance, and a walled end cell, which no walk can enter. */
module Walks {
  import opened Grid

  /** The number of unit moves between `a` and `b` when nothing is in the way. */
  function Manhattan(a: Coord, b: Coord): nat {
    Abs(a.row - b.row) + Abs(a.col - b.col)
  }

  /** `c` lies in the rectangle spanned by `a` and `b`. */
  predicate InBox(a: Coord, b: Coord, c: Coord) {
    (a.row <= c.row <= b.row || b.row <= c.row <= a.row) &&
    (a.col <= c.col <= b.col || b.col <= c.col <= a.col)
  }

  /** One move from `s` towards `e`: along the row axis first, then along
      the column axis. */
  function Step(s: Coord, e: Coord): (t: Coord)
    requires s != e
    ensures Adjacent(s, t) && Manhattan(t, e) + 1 == Manhattan(s, e)
    ensures InBox(s, e, t)
    ensures forall c :: InBox(t, e, c) ==> InBox(s, e, c)
  {
    if s.row < e.row then Coord(s.row + 1, s.col)
    else if s.row > e.row then Coord(s.row - 1, s.col)
    else if s.col < e.col then Coord(s.row, s.col + 1)
    else Coord(s.row, s.col - 1)
  }

  /** A walk from `s` to `e` that never leaves their rectangle and takes
      exactly the Manhattan distance in moves. */
  function StraightRoute(s: Coord, e: Coord): (p: seq<Coord>)
    ensures |p| == Manhattan(s, e) + 1
    ensures p[0] == s && p[|p| - 1] == e
    ensures forall i :: 0 <= i < |p| - 1 ==> Adjacent(p[i], p[i + 1])
    ensures forall i :: 0 <= i < |p| ==> InBox(s, e, p[i])
    decreases Manhattan(s, e)
  {
    if s == e then [s]
    else
      var rest := StraightRoute(Step(s, e), e);
      assert forall i :: 1 <= i < |rest| + 1 ==> ([s] + rest)[i] == rest[i - 1];
      [s] + rest
  }

  /** No walk beats the Manhattan distance: one move changes it by at most one. */
  lemma {:induction false} WalkAtLeastManhattan(maze: Maze, s: Coord, e: Coord, p: seq<Coord>)
    requires IsWalk(maze, s, e, p)
    ensures |p| >= Manhattan(s, e) + 1
    decreases |p|
  {
    if |p| > 1 {
      var q := p[..|p| - 1];
      var e' := q[|q| - 1];
      assert IsWalk(maze, s, e', q) by {
        forall i | 1 <= i < |q| ensures Walkable(maze, q[i]) {
          assert q[i] == p[i];
        }
        forall i | 0 <= i < |q| - 1 ensures Adjacent(q[i], q[i + 1]) {
          assert q[i] == p[i] && q[i + 1] == p[i + 1];
        }
      }
      WalkAtLeastManhattan(maze, s, e', q);
      assert Adjacent(p[|p| - 2], p[|p| - 1]);
    }
  }

  /** A grid in which every cell is open. */
  predicate AllOpen(maze: Maze) {
    forall r, c :: 0 <= r < |maze| && 0 <= c < |maze[r]| ==> maze[r][c] == 0
  }

  /** On an all-open grid every end is reachable, and a shortest walk has
      exactly Manhattan distance plus one cells, which is therefore the
      length of what `dijkstra` returns there. */
  lemma OpenGridDistance(maze: Maze, s: Coord, e: Coord)
    requires IsRect(maze) && AllOpen(maze) && InBounds(maze, s) && InBounds(maze, e)
    ensures Reachable(maze, s, e)
    ensures forall p :: IsShortestWalk(maze, s, e, p) ==> |p| == Manhattan(s, e) + 1
  {
    var route := StraightRoute(s, e);
    forall i | 0 <= i < |route| ensures Walkable(maze, route[i]) {
      assert InBox(s, e, route[i]);
    }
    assert IsWalk(maze, s, e, route);
    forall p | IsShortestWalk(maze, s, e, p) ensures |p| == Manhattan(s, e) + 1 {
      WalkAtLeastManhattan(maze, s, e, p);
    }
  }

  /** An end cell that holds a wall cannot be entered, so unless it is the
      start itself no walk reaches it. */
  lemma WalledEndUnreachable(maze: Maze, s: Coord, e: Coord)
    requires InBounds(maze, e) && e.col < |maze[e.row]| && maze[e.row][e.col] != 0 && e != s
    ensures !Reachable(maze, s, e)
  {
  }
}
