/** The editing side of `MazeSolverApp`: the maze matrix with its start and
    end markers, the click handlers that change them, random wall
    placement, reset, and the solve request that hands the maze to the
    search. Drawing on the canvas is not part of this model. */
module MazeEditor {
  import opened Grid
  import opened Walks
  import PathEngine

  const ROWS: nat := 15
  const COLS: nat := 15

  /** `int(ROWS * COLS * 0.25)`: the number of walls placed by default. */
  const WALL_COUNT: nat := 56

  /** A coordinate on the 15 × 15 board. */
  predicate InGrid(c: Coord) {
    0 <= c.row < ROWS && 0 <= c.col < COLS
  }

  /** A cell an edit may turn into a wall: present in `m`, open, and
      neither the start nor the end. */
  predicate Eligible(m: Maze, start: Option<Coord>, end: Option<Coord>, c: Coord) {
    0 <= c.row < |m| && 0 <= c.col < |m[c.row]| && m[c.row][c.col] == 0 &&
    start != Some(c) && end != Some(c)
  }

  /** `m'` has the rows and row lengths of `m`. */
  predicate SameShape(m: Maze, m': Maze) {
    |m'| == |m| && forall r :: 0 <= r < |m| ==> |m'[r]| == |m[r]|
  }

  /** The cells that are open in `m` and walls in `m'`. */
  function NewWalls(m: Maze, m': Maze): set<Coord>
    requires SameShape(m, m')
  {
    set r, c | 0 <= r < |m| && 0 <= c < |m[r]| && m[r][c] == 0 && m'[r][c] != 0 :: Coord(r, c)
  }

  /** The cells a wall may still be placed on. */
  function EligibleCells(m: Maze, start: Option<Coord>, end: Option<Coord>): set<Coord> {
    set r, c | 0 <= r < |m| && 0 <= c < |m[r]| && Eligible(m, start, end, Coord(r, c)) :: Coord(r, c)
  }

  /** One attempted wall, the rule shared by a left click and by each
      random draw: `c` becomes a wall when it is eligible; otherwise
      nothing changes. No other cell ever changes. */
  function AddWall(m: Maze, start: Option<Coord>, end: Option<Coord>, c: Coord): (r: Maze)
    ensures SameShape(m, r)
    ensures Eligible(m, start, end, c) ==> r[c.row][c.col] == 1
    ensures !Eligible(m, start, end, c) ==> r == m
    ensures forall i, j :: 0 <= i < |m| && 0 <= j < |m[i]| && Coord(i, j) != c ==> r[i][j] == m[i][j]
  {
    if Eligible(m, start, end, c) then SetCell(m, c, 1) else m
  }

  /** A second click on the same cell changes nothing. */
  lemma AddWallIdempotent(m: Maze, start: Option<Coord>, end: Option<Coord>, c: Coord)
    ensures AddWall(AddWall(m, start, end, c), start, end, c) == AddWall(m, start, end, c)
  {
  }

  /** An attempted wall never opens a cell, never walls an endpoint, and
      adds exactly one wall when the cell is eligible and none otherwise. */
  lemma AddWallEffect(m: Maze, start: Option<Coord>, end: Option<Coord>, c: Coord)
    ensures NewWalls(m, AddWall(m, start, end, c)) == if Eligible(m, start, end, c) then {c} else {}
    ensures forall i, j :: 0 <= i < |m| && 0 <= j < |m[i]| && m[i][j] != 0 ==>
              AddWall(m, start, end, c)[i][j] == m[i][j]
    ensures forall p :: (start == Some(p) || end == Some(p)) && 0 <= p.row < |m| && 0 <= p.col < |m[p.row]| ==>
              AddWall(m, start, end, c)[p.row][p.col] == m[p.row][p.col]
  {
    var r := AddWall(m, start, end, c);
    if Eligible(m, start, end, c) {
      assert c == Coord(c.row, c.col);
      assert c in NewWalls(m, r);
    } else {
      assert NewWalls(m, r) == {};
    }
  }

  /** The maze the wall-placement loop leaves behind after trying the
      random draws `cs` in order with `k` walls still to place: it stops
      as soon as no wall is left to place (or no draw is left). */
  function PlaceWalls(m: Maze, start: Option<Coord>, end: Option<Coord>, cs: seq<Coord>, k: nat): (r: Maze)
    ensures SameShape(m, r)
    decreases |cs|
  {
    if k == 0 || |cs| == 0 then m
    else if Eligible(m, start, end, cs[0]) then PlaceWalls(AddWall(m, start, end, cs[0]), start, end, cs[1..], k - 1)
    else PlaceWalls(m, start, end, cs[1..], k)
  }

  /** Walling one more eligible cell `c` adds exactly `c` to the new walls. */
  lemma NewWallsStep(m: Maze, start: Option<Coord>, end: Option<Coord>, c: Coord, r: Maze)
    requires Eligible(m, start, end, c)
    requires SameShape(m, r) && r[c.row][c.col] != 0
    ensures SameShape(AddWall(m, start, end, c), r)
    ensures NewWalls(m, r) == NewWalls(AddWall(m, start, end, c), r) + {c}
    ensures c !in NewWalls(AddWall(m, start, end, c), r)
  {
    var m1 := AddWall(m, start, end, c);
    assert c == Coord(c.row, c.col);
    forall x | x in NewWalls(m, r) ensures x in NewWalls(m1, r) + {c} {
      if x != c {
        assert m1[x.row][x.col] == m[x.row][x.col];
      }
    }
  }

  /** `m'` has the shape of `m` and no cell that is open in `m'` was a
      wall in `m`: edits since `m` have only added walls. */
  predicate OnlyWalled(m: Maze, m': Maze) {
    SameShape(m, m') &&
    forall r, c :: 0 <= r < |m| && 0 <= c < |m[r]| && m'[r][c] == 0 ==> m[r][c] == 0
  }

  /** Walling one more open cell of `m'` adds exactly that cell to the walls
      placed since `m`, so their number grows by one. */
  lemma NewWallsGrow(m: Maze, m': Maze, c: Coord)
    requires OnlyWalled(m, m') && 0 <= c.row < |m'| && 0 <= c.col < |m'[c.row]| && m'[c.row][c.col] == 0
    ensures OnlyWalled(m, SetCell(m', c, 1))
    ensures NewWalls(m, SetCell(m', c, 1)) == NewWalls(m, m') + {c}
    ensures |NewWalls(m, SetCell(m', c, 1))| == |NewWalls(m, m')| + 1
  {
    var m'' := SetCell(m', c, 1);
    assert c == Coord(c.row, c.col);
    assert c !in NewWalls(m, m');
    assert c in NewWalls(m, m'');
    forall x | x in NewWalls(m, m'') ensures x in NewWalls(m, m') + {c} {
      if x != c {
        assert m''[x.row][x.col] == m'[x.row][x.col];
      }
    }
  }

  /** One accepted draw of the wall-placement loop: draw `cs[i]` is walled,
      the walls placed since `m0` grow by one, and what is left to do is
      the draws after it with one wall fewer to place. */
  lemma WallStep(m0: Maze, m: Maze, start: Option<Coord>, end: Option<Coord>, cs: seq<Coord>, i: nat, k: nat)
    requires OnlyWalled(m0, m) && i < |cs| && k > 0 && Eligible(m, start, end, cs[i])
    ensures OnlyWalled(m0, SetCell(m, cs[i], 1))
    ensures |NewWalls(m0, SetCell(m, cs[i], 1))| == |NewWalls(m0, m)| + 1
    ensures PlaceWalls(SetCell(m, cs[i], 1), start, end, cs[i + 1..], k - 1) == PlaceWalls(m, start, end, cs[i..], k)
  {
    NewWallsGrow(m0, m, cs[i]);
    assert cs[i..][0] == cs[i] && cs[i..][1..] == cs[i + 1..];
  }

  /** A rejected draw of the wall-placement loop changes nothing but the
      draws that are left. */
  lemma SkipStep(m: Maze, start: Option<Coord>, end: Option<Coord>, cs: seq<Coord>, i: nat, k: nat)
    requires i < |cs| && k > 0 && !Eligible(m, start, end, cs[i])
    ensures PlaceWalls(m, start, end, cs[i + 1..], k) == PlaceWalls(m, start, end, cs[i..], k)
  {
    assert cs[i..][0] == cs[i] && cs[i..][1..] == cs[i + 1..];
  }

  /** The wall-placement loop only walls cells that were eligible and were
      drawn, and changes nothing else: it never opens a cell and never
      touches an endpoint. */
  lemma {:induction false} PlaceWallsChanges(m: Maze, start: Option<Coord>, end: Option<Coord>, cs: seq<Coord>, k: nat)
    ensures var r := PlaceWalls(m, start, end, cs, k);
      forall i, j :: 0 <= i < |m| && 0 <= j < |m[i]| && r[i][j] != m[i][j] ==>
        Eligible(m, start, end, Coord(i, j)) && r[i][j] == 1 && Coord(i, j) in cs
    decreases |cs|
  {
    var r := PlaceWalls(m, start, end, cs, k);
    if k > 0 && |cs| > 0 {
      var c := cs[0];
      var m1 := AddWall(m, start, end, c);
      var k1 := if Eligible(m, start, end, c) then k - 1 else k;
      PlaceWallsChanges(m1, start, end, cs[1..], k1);
      assert r == PlaceWalls(m1, start, end, cs[1..], k1);
      forall i, j | 0 <= i < |m| && 0 <= j < |m[i]| && r[i][j] != m[i][j]
        ensures Eligible(m, start, end, Coord(i, j)) && r[i][j] == 1 && Coord(i, j) in cs
      {
        if Coord(i, j) != c || !Eligible(m, start, end, c) {
          assert m1[i][j] == m[i][j];
          assert Coord(i, j) in cs[1..];
        }
      }
    }
  }

  /** At most `k` new walls, and fewer only when none of the draws is
      still eligible in the result `r`. */
  ghost predicate CountOk(m: Maze, start: Option<Coord>, end: Option<Coord>, cs: seq<Coord>, k: nat, r: Maze)
    requires SameShape(m, r)
  {
    |NewWalls(m, r)| <= k &&
    (|NewWalls(m, r)| == k || forall i :: 0 <= i < |cs| ==> !Eligible(r, start, end, cs[i]))
  }

  /** The wall-placement loop places at most `k` walls; if it places fewer,
      it has run out of draws and none of them is still eligible. */
  lemma {:induction false} PlaceWallsCount(m: Maze, start: Option<Coord>, end: Option<Coord>, cs: seq<Coord>, k: nat)
    ensures CountOk(m, start, end, cs, k, PlaceWalls(m, start, end, cs, k))
    decreases |cs|
  {
    var r := PlaceWalls(m, start, end, cs, k);
    if k == 0 || |cs| == 0 {
      assert NewWalls(m, r) == {};
    } else if Eligible(m, start, end, cs[0]) {
      PlaceWallsCount(AddWall(m, start, end, cs[0]), start, end, cs[1..], k - 1);
      CountAfterWall(m, start, end, cs, k);
    } else {
      PlaceWallsCount(m, start, end, cs[1..], k);
      CountAfterSkip(m, start, end, cs, k);
    }
  }

  /** The counting step for a draw that is walled. */
  lemma CountAfterWall(m: Maze, start: Option<Coord>, end: Option<Coord>, cs: seq<Coord>, k: nat)
    requires k > 0 && |cs| > 0 && Eligible(m, start, end, cs[0])
    requires CountOk(AddWall(m, start, end, cs[0]), start, end, cs[1..], k - 1,
                     PlaceWalls(AddWall(m, start, end, cs[0]), start, end, cs[1..], k - 1))
    ensures CountOk(m, start, end, cs, k, PlaceWalls(m, start, end, cs, k))
  {
    var c := cs[0];
    var m1 := AddWall(m, start, end, c);
    var r := PlaceWalls(m1, start, end, cs[1..], k - 1);
    assert r == PlaceWalls(m, start, end, cs, k);
    PlaceWallsChanges(m1, start, end, cs[1..], k - 1);
    assert r[c.row][c.col] == 1;
    NewWallsStep(m, start, end, c, r);
    assert |NewWalls(m, r)| == |NewWalls(m1, r)| + 1;
    if |NewWalls(m, r)| != k {
      forall i | 0 <= i < |cs| ensures !Eligible(r, start, end, cs[i]) {
        if i > 0 {
          assert cs[i] == cs[1..][i - 1];
        }
      }
    }
  }

  /** The counting step for a draw that is rejected. */
  lemma CountAfterSkip(m: Maze, start: Option<Coord>, end: Option<Coord>, cs: seq<Coord>, k: nat)
    requires k > 0 && |cs| > 0 && !Eligible(m, start, end, cs[0])
    requires CountOk(m, start, end, cs[1..], k, PlaceWalls(m, start, end, cs[1..], k))
    ensures CountOk(m, start, end, cs, k, PlaceWalls(m, start, end, cs, k))
  {
    var c := cs[0];
    var r := PlaceWalls(m, start, end, cs[1..], k);
    assert r == PlaceWalls(m, start, end, cs, k);
    PlaceWallsChanges(m, start, end, cs[1..], k);
    forall i | 0 <= i < |cs| && |NewWalls(m, r)| != k ensures !Eligible(r, start, end, cs[i]) {
      if i > 0 {
        assert cs[i] == cs[1..][i - 1];
      } else if 0 <= c.row < |m| && 0 <= c.col < |m[c.row]| && m[c.row][c.col] == 0 {
        assert start == Some(c) || end == Some(c);
      }
    }
  }

  lemma {:induction false} SubsetCard(a: set<Coord>, b: set<Coord>)
    requires a <= b
    ensures |a| <= |b|
    decreases |a|
  {
    if a != {} {
      var x :| x in a;
      SubsetCard(a - {x}, b - {x});
    }
  }

  /** The walls placed are eligible cells of the maze they were placed on. */
  lemma NewWallsEligible(m: Maze, start: Option<Coord>, end: Option<Coord>, cs: seq<Coord>, k: nat)
    ensures NewWalls(m, PlaceWalls(m, start, end, cs, k)) <= EligibleCells(m, start, end)
  {
    var r := PlaceWalls(m, start, end, cs, k);
    PlaceWallsChanges(m, start, end, cs, k);
    forall x | x in NewWalls(m, r) ensures x in EligibleCells(m, start, end) {
      assert Eligible(m, start, end, Coord(x.row, x.col));
    }
  }

  /** As written, the loop of `generate_random_walls` only stops once
      `wall_count` walls are placed. When fewer cells than that are
      eligible, no sequence of draws, however long, gets there, so the
      loop never ends. */
  lemma WallTargetUnreachable(m: Maze, start: Option<Coord>, end: Option<Coord>, cs: seq<Coord>, k: nat)
    requires |EligibleCells(m, start, end)| < k
    ensures |NewWalls(m, PlaceWalls(m, start, end, cs, k))| < k
  {
    NewWallsEligible(m, start, end, cs, k);
    SubsetCard(NewWalls(m, PlaceWalls(m, start, end, cs, k)), EligibleCells(m, start, end));
  }

  /** The number of walls to place, capped at what can be placed at all. */
  function WallTarget(m: Maze, start: Option<Coord>, end: Option<Coord>, k: nat): (t: nat)
    ensures t <= k && t <= |EligibleCells(m, start, end)|
    ensures t == k || t == |EligibleCells(m, start, end)|
  {
    var n := |EligibleCells(m, start, end)|;
    if k <= n then k else n
  }

  /** With the capped target, draws that go through every cell of the
      maze (as when sampling from the eligible cells directly) place
      exactly the target number of walls, so the loop ends. */
  lemma CappedTargetReached(m: Maze, start: Option<Coord>, end: Option<Coord>, cs: seq<Coord>, k: nat)
    requires forall i, j :: 0 <= i < |m| && 0 <= j < |m[i]| ==> Coord(i, j) in cs
    ensures |NewWalls(m, PlaceWalls(m, start, end, cs, WallTarget(m, start, end, k)))| == WallTarget(m, start, end, k)
  {
    var t := WallTarget(m, start, end, k);
    var r := PlaceWalls(m, start, end, cs, t);
    PlaceWallsCount(m, start, end, cs, t);
    NewWallsEligible(m, start, end, cs, t);
    if |NewWalls(m, r)| != t {
      forall x | x in EligibleCells(m, start, end) ensures x in NewWalls(m, r) {
        assert Coord(x.row, x.col) in cs;
        var i :| 0 <= i < |cs| && cs[i] == x;
        assert !Eligible(r, start, end, cs[i]);
      }
      SubsetCard(EligibleCells(m, start, end), NewWalls(m, r));
      assert false;
    }
  }

  /** What the solve button reports. */
  datatype SolveOutcome = MissingPoints | NoPath | PathFound(path: seq<Coord>)

  class MazeSolverApp {
    var maze: Maze
    var start: Option<Coord>
    var end: Option<Coord>

    /** A 15 × 15 board of zeros and ones; the markers lie on the board,
        and an end is only ever set after the start and apart from it. */
    predicate Valid()
      reads this
    {
      |maze| == ROWS && (forall r :: 0 <= r < ROWS ==> |maze[r]| == COLS) &&
      (forall r, c :: 0 <= r < ROWS && 0 <= c < COLS ==> maze[r][c] == 0 || maze[r][c] == 1) &&
      (start.Some? ==> InGrid(start.value)) &&
      (end.Some? ==> InGrid(end.value) && start.Some? && end != start)
    }

    /** An all-open board with no markers. */
    constructor ()
      ensures Valid() && AllOpen(maze) && start == None && end == None
    {
      maze := seq(ROWS, _ => seq(COLS, _ => 0));
      start := None;
      end := None;
    }

    /** A left click on `(row, col)` walls that cell when it is open and
        not a marker. */
    method LeftClick(row: int, col: int)
      requires Valid() && InGrid(Coord(row, col))
      modifies this
      ensures Valid() && start == old(start) && end == old(end)
      ensures maze == AddWall(old(maze), start, end, Coord(row, col))
    {
      if maze[row][col] == 0 && Some(Coord(row, col)) != start && Some(Coord(row, col)) != end {
        maze := SetCell(maze, Coord(row, col), 1);
      }
    }

    /** A right click sets the start (and then places the random walls)
        when there is none yet; otherwise it sets the end, unless one is
        set already or the click is on the start. */
    method RightClick(row: int, col: int, draws: seq<Coord>)
      requires Valid() && InGrid(Coord(row, col))
      requires forall i :: 0 <= i < |draws| ==> InGrid(draws[i])
      modifies this
      ensures Valid()
      ensures old(start).None? ==>
                start == Some(Coord(row, col)) && end == None &&
                maze == PlaceWalls(old(maze), start, end, draws, WallTarget(old(maze), start, end, WALL_COUNT))
      ensures old(start).Some? && old(end).None? && Coord(row, col) != old(start).value ==>
                start == old(start) && end == Some(Coord(row, col)) && maze == old(maze)
      ensures old(start).Some? && (old(end).Some? || Coord(row, col) == old(start).value) ==>
                start == old(start) && end == old(end) && maze == old(maze)
    {
      if start.None? {
        start := Some(Coord(row, col));
        GenerateRandomWalls(draws, WallTarget(maze, start, end, WALL_COUNT));
      } else if end.None? {
        if Coord(row, col) == start.value {
          return;
        }
        end := Some(Coord(row, col));
      }
    }

    /** The wall-placement loop, bounded by the draws it is given: each
        draw that hits an eligible cell walls it, until `wallCount` walls
        are placed or the draws run out. */
    method GenerateRandomWalls(draws: seq<Coord>, wallCount: nat)
      requires Valid()
      requires forall i :: 0 <= i < |draws| ==> InGrid(draws[i])
      modifies this
      ensures Valid() && start == old(start) && end == old(end)
      ensures maze == PlaceWalls(old(maze), start, end, draws, wallCount)
    {
      ghost var m0 := maze;
      var placed := 0;
      var i := 0;
      while placed < wallCount && i < |draws|
        invariant 0 <= placed <= wallCount && 0 <= i <= |draws|
        invariant Valid() && start == old(start) && end == old(end)
        invariant OnlyWalled(m0, maze) && placed == |NewWalls(m0, maze)|
        invariant PlaceWalls(maze, start, end, draws[i..], wallCount - placed) ==
                  PlaceWalls(m0, start, end, draws, wallCount)
      {
        var cell := draws[i];
        if Some(cell) != start && Some(cell) != end && maze[cell.row][cell.col] == 0 {
          WallStep(m0, maze, start, end, draws, i, wallCount - placed);
          maze := SetCell(maze, cell, 1);
          placed := placed + 1;
        } else {
          SkipStep(maze, start, end, draws, i, wallCount - placed);
        }
        i := i + 1;
      }
    }

    /** Back to an all-open board with no markers. */
    method Reset()
      modifies this
      ensures Valid() && AllOpen(maze) && start == None && end == None
    {
      maze := seq(ROWS, _ => seq(COLS, _ => 0));
      start := None;
      end := None;
    }

    /** The solve button: without both markers it reports them missing;
        otherwise it runs the search and reports a shortest walk or that
        there is none. */
    method SolveMaze() returns (outcome: SolveOutcome)
      requires Valid()
      ensures outcome.MissingPoints? <==> start.None? || end.None?
      ensures start.Some? && end.Some? ==>
                (outcome.NoPath? <==> !Reachable(maze, start.value, end.value))
      ensures outcome.PathFound? ==>
                start.Some? && end.Some? && IsShortestWalk(maze, start.value, end.value, outcome.path)
    {
      if start.None? || end.None? {
        return MissingPoints;
      }
      var path := PathEngine.Dijkstra(maze, start.value, end.value);
      if path.Some? {
        outcome := PathFound(path.value);
      } else {
        outcome := NoPath;
      }
    }
  }
}
