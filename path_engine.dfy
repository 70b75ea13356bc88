/** The shortest-path search of `MazeSolverApp.dijkstra`: a priority-queue
    search from `start` over the 4-connected open cells, every move costing
    one, followed by the walk back along the predecessor links.

    `dist` and `prev` are the search's own lists of lists; nothing else
    refers to them, so updating a cell in place is the same as replacing
    the matrix by `SetCell(...)`, which is how they are written here. */
module PathEngine {
  import opened Grid

  /** A tentative distance: `Fin(n)` moves, or `Inf` for `float('inf')`. */
  datatype Dist = Fin(n: nat) | Inf

  /** `new_dist < dist[nx][ny]`, with infinity above every number. */
  predicate Improves(nd: nat, d: Dist) {
    d.Inf? || nd < d.n
  }

  /** A heap entry `(d, (x, y))`. */
  datatype Entry = Entry(d: nat, at: Coord)

  /** Python's order on the tuples `(d, (x, y))`, which `heapq` uses. */
  predicate EntryLe(a: Entry, b: Entry) {
    a.d < b.d ||
    (a.d == b.d && (a.at.row < b.at.row || (a.at.row == b.at.row && a.at.col <= b.at.col)))
  }

  /** The position of a least entry: what `heapq.heappop` hands out. The
      order is total on entries, so every least entry equals the popped one. */
  function MinIndex(pq: seq<Entry>): (k: nat)
    requires |pq| > 0
    ensures k < |pq|
    ensures forall j :: 0 <= j < |pq| ==> EntryLe(pq[k], pq[j])
  {
    if |pq| == 1 then 0
    else
      var k := MinIndex(pq[1..]) + 1;
      if EntryLe(pq[0], pq[k]) then 0 else k
  }

  /** Python's tuple order is total and antisymmetric, so a least entry is
      unique: any way of picking one agrees with `heapq.heappop`. */
  lemma LeastEntryUnique(pq: seq<Entry>, k: nat, k': nat)
    requires k < |pq| && k' < |pq|
    requires forall j :: 0 <= j < |pq| ==> EntryLe(pq[k], pq[j])
    requires forall j :: 0 <= j < |pq| ==> EntryLe(pq[k'], pq[j])
    ensures pq[k] == pq[k']
  {
    assert EntryLe(pq[k], pq[k']) && EntryLe(pq[k'], pq[k]);
  }

  /** The queue after its `k`-th entry is taken out: the same entries, one
      copy of `pq[k]` fewer, the others keeping their relative order. */
  function RemoveAt(pq: seq<Entry>, k: nat): (r: seq<Entry>)
    requires k < |pq|
    ensures multiset(r) == multiset(pq) - multiset{pq[k]}
    ensures |r| == |pq| - 1
    ensures forall i :: 0 <= i < |r| ==> r[i] == if i < k then pq[i] else pq[i + 1]
  {
    assert pq == pq[..k] + [pq[k]] + pq[k + 1..];
    pq[..k] + pq[k + 1..]
  }

  // ---------------------------------------------------------------------
  // The state of the search, as predicates over `dist`, `prev` and `pq`.

  /** A matrix laid out like the maze, as `dist` and `prev` are. */
  predicate Sized<T>(maze: Maze, m: seq<seq<T>>) {
    |m| == Rows(maze) && forall r :: 0 <= r < |m| ==> |m[r]| == Cols(maze)
  }

  /** The first `m` (at most four) neighbours of `v` that may be entered
      have been offered distance `k + 1`. */
  ghost predicate Relaxed(maze: Maze, dist: seq<seq<Dist>>, v: Coord, k: nat, m: nat)
    requires Sized(maze, dist)
  {
    forall j :: 0 <= j < m && j < 4 && Walkable(maze, Neighbor(v, j)) ==>
      dist[Neighbor(v, j).row][Neighbor(v, j).col].Fin? &&
      dist[Neighbor(v, j).row][Neighbor(v, j).col].n <= k + 1
  }

  /** Every reached cell is either still queued with its current distance or
      has had all its neighbours relaxed; the exception is `u`, which is
      being expanded with distance `d` and has had its first `m` neighbours
      relaxed. With `m == 4` the exception adds nothing. */
  ghost predicate Frontier(maze: Maze, dist: seq<seq<Dist>>, pq: seq<Entry>, u: Coord, d: nat, m: nat)
    requires Sized(maze, dist)
  {
    forall v :: InBounds(maze, v) && dist[v.row][v.col].Fin? ==>
      Entry(dist[v.row][v.col].n, v) in pq ||
      Relaxed(maze, dist, v, dist[v.row][v.col].n, 4) ||
      (v == u && dist[v.row][v.col].n == d && Relaxed(maze, dist, v, d, m))
  }

  /** The predecessor link of one cell: set exactly for the reached cells
      other than `start`, and pointing to an adjacent cell that is strictly
      closer to `start`. */
  ghost predicate LinkOk(maze: Maze, start: Coord, dist: seq<seq<Dist>>, prev: seq<seq<Option<Coord>>>, v: Coord)
    requires Sized(maze, dist) && Sized(maze, prev) && InBounds(maze, v)
  {
    (v != start && dist[v.row][v.col].Fin? ==> prev[v.row][v.col].Some?) &&
    (prev[v.row][v.col].Some? ==>
      var u := prev[v.row][v.col].value;
      v != start && dist[v.row][v.col].Fin? && Walkable(maze, v) &&
      InBounds(maze, u) && Adjacent(u, v) &&
      dist[u.row][u.col].Fin? && dist[u.row][u.col].n < dist[v.row][v.col].n)
  }

  /** `dist[start]` is 0, `prev[start]` is unset, and every link is sound. */
  ghost predicate Linked(maze: Maze, start: Coord, dist: seq<seq<Dist>>, prev: seq<seq<Option<Coord>>>)
    requires Sized(maze, dist) && Sized(maze, prev) && InBounds(maze, start)
  {
    dist[start.row][start.col] == Fin(0) && prev[start.row][start.col] == None &&
    forall v :: InBounds(maze, v) ==> LinkOk(maze, start, dist, prev, v)
  }

  /** Every queued entry names a reached cell, is no better than its
      recorded distance, and is at least `level`; no entry is queued twice. */
  ghost predicate Queued(maze: Maze, dist: seq<seq<Dist>>, pq: seq<Entry>, level: nat)
    requires Sized(maze, dist)
  {
    (forall i :: 0 <= i < |pq| ==>
      InBounds(maze, pq[i].at) && level <= pq[i].d &&
      dist[pq[i].at.row][pq[i].at.col].Fin? && dist[pq[i].at.row][pq[i].at.col].n <= pq[i].d) &&
    (forall i, j :: 0 <= i < j < |pq| ==> pq[i] != pq[j])
  }

  /** Cells expanded with their final distance: that distance is at most
      `level` and is no longer queued. */
  ghost predicate Settled(maze: Maze, dist: seq<seq<Dist>>, pq: seq<Entry>, settled: set<Coord>, level: nat)
    requires Sized(maze, dist)
  {
    forall v :: v in settled ==>
      InBounds(maze, v) && dist[v.row][v.col].Fin? && dist[v.row][v.col].n <= level &&
      Entry(dist[v.row][v.col].n, v) !in pq
  }

  /** No recorded distance got worse from `dist` to `dist'`. */
  ghost predicate NoWorse(maze: Maze, dist: seq<seq<Dist>>, dist': seq<seq<Dist>>)
    requires Sized(maze, dist) && Sized(maze, dist')
  {
    forall v :: InBounds(maze, v) && dist[v.row][v.col].Fin? ==>
      dist'[v.row][v.col].Fin? && dist'[v.row][v.col].n <= dist[v.row][v.col].n
  }

  /** Making no distance worse twice makes no distance worse. */
  lemma NoWorseTrans(maze: Maze, d0: seq<seq<Dist>>, d1: seq<seq<Dist>>, d2: seq<seq<Dist>>)
    requires Sized(maze, d0) && Sized(maze, d1) && Sized(maze, d2)
    requires NoWorse(maze, d0, d1) && NoWorse(maze, d1, d2)
    ensures NoWorse(maze, d0, d2)
  {
  }

  ghost function AllCells(maze: Maze): set<Coord> {
    set r, c | 0 <= r < Rows(maze) && 0 <= c < Cols(maze) :: Coord(r, c)
  }

  lemma CellInAllCells(maze: Maze, v: Coord)
    requires InBounds(maze, v)
    ensures v in AllCells(maze)
  {
    assert v == Coord(v.row, v.col);
  }

  // ---------------------------------------------------------------------
  // How the state predicates survive one relaxation
  // `dist[n] = nd; prev[n] = u; heappush(pq, (nd, n))`.

  lemma RelaxedKept(maze: Maze, dist: seq<seq<Dist>>, dist': seq<seq<Dist>>, v: Coord, k: nat, m: nat)
    requires Sized(maze, dist) && Sized(maze, dist')
    requires NoWorse(maze, dist, dist') && Relaxed(maze, dist, v, k, m)
    ensures Relaxed(maze, dist', v, k, m)
  {
    forall j | 0 <= j < m && j < 4 && Walkable(maze, Neighbor(v, j))
      ensures dist'[Neighbor(v, j).row][Neighbor(v, j).col].Fin? &&
              dist'[Neighbor(v, j).row][Neighbor(v, j).col].n <= k + 1
    {
      var w := Neighbor(v, j);
      assert dist[w.row][w.col].Fin? && dist[w.row][w.col].n <= k + 1;
    }
  }

  lemma LinkedKept(maze: Maze, start: Coord, dist: seq<seq<Dist>>, prev: seq<seq<Option<Coord>>>,
                   n: Coord, nd: nat, u: Coord)
    requires Sized(maze, dist) && Sized(maze, prev) && InBounds(maze, start) && InBounds(maze, n)
    requires Linked(maze, start, dist, prev) && Improves(nd, dist[n.row][n.col])
    requires Walkable(maze, n) && InBounds(maze, u) && Adjacent(u, n)
    requires dist[u.row][u.col].Fin? && dist[u.row][u.col].n < nd
    ensures Sized(maze, SetCell(dist, n, Fin(nd))) && Sized(maze, SetCell(prev, n, Some(u)))
    ensures Linked(maze, start, SetCell(dist, n, Fin(nd)), SetCell(prev, n, Some(u)))
  {
    var dist': seq<seq<Dist>> := SetCell(dist, n, Fin(nd));
    var prev': seq<seq<Option<Coord>>> := SetCell(prev, n, Some(u));
    assert n != start;
    forall v | InBounds(maze, v) ensures LinkOk(maze, start, dist', prev', v) {
      assert LinkOk(maze, start, dist, prev, v);
      if v != n && prev'[v.row][v.col].Some? {
        var w := prev'[v.row][v.col].value;
        assert InBounds(maze, w);
      }
    }
  }

  lemma QueuedKept(maze: Maze, dist: seq<seq<Dist>>, pq: seq<Entry>, level: nat, n: Coord, nd: nat)
    requires Sized(maze, dist) && InBounds(maze, n) && level <= nd
    requires Queued(maze, dist, pq, level) && Improves(nd, dist[n.row][n.col])
    ensures Sized(maze, SetCell(dist, n, Fin(nd)))
    ensures Queued(maze, SetCell(dist, n, Fin(nd)), pq + [Entry(nd, n)], level)
  {
    var dist': seq<seq<Dist>>, pq' := SetCell(dist, n, Fin(nd)), pq + [Entry(nd, n)];
    forall i | 0 <= i < |pq'|
      ensures InBounds(maze, pq'[i].at) && level <= pq'[i].d &&
              dist'[pq'[i].at.row][pq'[i].at.col].Fin? &&
              dist'[pq'[i].at.row][pq'[i].at.col].n <= pq'[i].d
    {
      if i < |pq| {
        assert pq'[i] == pq[i];
      }
    }
    forall i, j | 0 <= i < j < |pq'| ensures pq'[i] != pq'[j] {
      if j == |pq| && pq[i].at == n {
        assert dist[n.row][n.col].n <= pq[i].d;
      }
    }
  }

  lemma SettledKept(maze: Maze, dist: seq<seq<Dist>>, pq: seq<Entry>, settled: set<Coord>, level: nat,
                    n: Coord, nd: nat)
    requires Sized(maze, dist) && InBounds(maze, n) && level < nd
    requires Settled(maze, dist, pq, settled, level) && Improves(nd, dist[n.row][n.col])
    ensures Sized(maze, SetCell(dist, n, Fin(nd)))
    ensures Settled(maze, SetCell(dist, n, Fin(nd)), pq + [Entry(nd, n)], settled, level)
  {
    var dist': seq<seq<Dist>> := SetCell(dist, n, Fin(nd));
    forall v | v in settled
      ensures InBounds(maze, v) && dist'[v.row][v.col].Fin? && dist'[v.row][v.col].n <= level &&
              Entry(dist'[v.row][v.col].n, v) !in pq + [Entry(nd, n)]
    {
      assert v != n;
    }
  }

  /** Relaxing neighbour `j` of `u` without a change extends the frontier
      to that neighbour. */
  lemma FrontierStep(maze: Maze, dist: seq<seq<Dist>>, pq: seq<Entry>, u: Coord, d: nat, j: nat)
    requires Sized(maze, dist) && j < 4
    requires Frontier(maze, dist, pq, u, d, j)
    requires Walkable(maze, Neighbor(u, j)) ==>
               !Improves(d + 1, dist[Neighbor(u, j).row][Neighbor(u, j).col])
    ensures Frontier(maze, dist, pq, u, d, j + 1)
  {
    if InBounds(maze, u) && dist[u.row][u.col].Fin? && dist[u.row][u.col].n == d {
      assert Relaxed(maze, dist, u, d, j) ==> Relaxed(maze, dist, u, d, j + 1);
    }
  }

  /** Relaxing neighbour `j` of `u` with a change keeps the frontier and
      extends it to that neighbour. */
  lemma FrontierKept(maze: Maze, dist: seq<seq<Dist>>, pq: seq<Entry>, u: Coord, d: nat, j: nat)
    requires Sized(maze, dist) && j < 4 && Walkable(maze, Neighbor(u, j))
    requires Frontier(maze, dist, pq, u, d, j)
    requires Improves(d + 1, dist[Neighbor(u, j).row][Neighbor(u, j).col])
    ensures Sized(maze, SetCell(dist, Neighbor(u, j), Fin(d + 1)))
    ensures Frontier(maze, SetCell(dist, Neighbor(u, j), Fin(d + 1)), pq + [Entry(d + 1, Neighbor(u, j))], u, d, j + 1)
  {
    var n := Neighbor(u, j);
    var dist': seq<seq<Dist>>, pq' := SetCell(dist, n, Fin(d + 1)), pq + [Entry(d + 1, n)];
    forall v | InBounds(maze, v) && dist'[v.row][v.col].Fin?
      ensures Entry(dist'[v.row][v.col].n, v) in pq' ||
              Relaxed(maze, dist', v, dist'[v.row][v.col].n, 4) ||
              (v == u && dist'[v.row][v.col].n == d && Relaxed(maze, dist', v, d, j + 1))
    {
      if v == n {
        assert pq'[|pq|] == Entry(dist'[v.row][v.col].n, v);
      } else {
        var k := dist[v.row][v.col].n;
        assert dist'[v.row][v.col] == Fin(k);
        if Entry(k, v) !in pq {
          if Relaxed(maze, dist, v, k, 4) {
            RelaxedKept(maze, dist, dist', v, k, 4);
          } else {
            RelaxedKept(maze, dist, dist', v, d, j);
            assert dist'[n.row][n.col] == Fin(d + 1);
          }
        }
      }
    }
  }

  /** Along any walk from `start`, the `i`-th cell has been reached within
      `i` moves, unless some queued entry is at most `i` (so the search
      has not yet got that far). */
  lemma {:induction false} WalkBound(maze: Maze, start: Coord, dist: seq<seq<Dist>>, pq: seq<Entry>,
                                     m: nat, p: seq<Coord>, i: nat)
    requires IsRect(maze) && Sized(maze, dist) && InBounds(maze, start)
    requires dist[start.row][start.col] == Fin(0)
    requires Frontier(maze, dist, pq, start, 0, 4)
    requires forall k :: 0 <= k < |pq| ==> m <= pq[k].d
    requires |p| > 0 && IsWalk(maze, start, p[|p| - 1], p) && i < |p|
    ensures InBounds(maze, p[i])
    ensures (dist[p[i].row][p[i].col].Fin? && dist[p[i].row][p[i].col].n <= i) || m <= i
  {
    if i > 0 {
      WalkBound(maze, start, dist, pq, m, p, i - 1);
      var a, b := p[i - 1], p[i];
      assert Walkable(maze, b);
      if dist[a.row][a.col].Fin? && dist[a.row][a.col].n <= i - 1 {
        var j := DirectionOf(a, b);
        if Entry(dist[a.row][a.col].n, a) in pq {
          var k :| 0 <= k < |pq| && pq[k] == Entry(dist[a.row][a.col].n, a);
        } else {
          assert Relaxed(maze, dist, a, dist[a.row][a.col].n, 4);
          assert Neighbor(a, j) == b;
        }
      }
    }
  }

  // ---------------------------------------------------------------------
  // How the state predicates survive a pop.

  lemma RemoveAtKeeps(pq: seq<Entry>, k: nat, x: Entry)
    requires k < |pq| && x in pq && x != pq[k]
    ensures x in RemoveAt(pq, k)
  {
    assert x in multiset(RemoveAt(pq, k));
  }

  lemma RemoveAtDrops(pq: seq<Entry>, k: nat)
    requires k < |pq|
    requires forall i, j :: 0 <= i < j < |pq| ==> pq[i] != pq[j]
    ensures pq[k] !in RemoveAt(pq, k)
  {
    var r := RemoveAt(pq, k);
    forall i | 0 <= i < |r| ensures r[i] != pq[k] {
      if i < k {
        assert r[i] == pq[i];
      } else {
        assert r[i] == pq[i + 1];
      }
    }
  }

  /** The popped entry `pq[k]` is least, so every entry that stays is at
      least its distance, and the queue keeps its invariant one level up. */
  lemma QueuedAfterPop(maze: Maze, dist: seq<seq<Dist>>, pq: seq<Entry>, k: nat, level: nat)
    requires Sized(maze, dist) && k < |pq| && Queued(maze, dist, pq, level)
    requires forall j :: 0 <= j < |pq| ==> EntryLe(pq[k], pq[j])
    ensures level <= pq[k].d
    ensures Queued(maze, dist, RemoveAt(pq, k), pq[k].d)
  {
    var r := RemoveAt(pq, k);
    forall i | 0 <= i < |r|
      ensures InBounds(maze, r[i].at) && pq[k].d <= r[i].d &&
              dist[r[i].at.row][r[i].at.col].Fin? && dist[r[i].at.row][r[i].at.col].n <= r[i].d
    {
      var i' := if i < k then i else i + 1;
      assert r[i] == pq[i'];
      assert EntryLe(pq[k], pq[i']);
    }
    forall i, j | 0 <= i < j < |r| ensures r[i] != r[j] {
      var i', j' := if i < k then i else i + 1, if j < k then j else j + 1;
      assert r[i] == pq[i'] && r[j] == pq[j'];
    }
  }

  /** Popping an entry that still carries its cell's distance settles that
      cell. */
  lemma FreshPop(maze: Maze, start: Coord, dist: seq<seq<Dist>>, pq: seq<Entry>, k: nat,
                 settled: set<Coord>, level: nat)
    requires Sized(maze, dist) && k < |pq|
    requires forall j :: 0 <= j < |pq| ==> EntryLe(pq[k], pq[j])
    requires Queued(maze, dist, pq, level) && Settled(maze, dist, pq, settled, level)
    requires Frontier(maze, dist, pq, start, 0, 4)
    requires dist[pq[k].at.row][pq[k].at.col] == Fin(pq[k].d)
    ensures InBounds(maze, pq[k].at) && pq[k].at !in settled && level <= pq[k].d
    ensures Queued(maze, dist, RemoveAt(pq, k), pq[k].d)
    ensures Settled(maze, dist, RemoveAt(pq, k), settled + {pq[k].at}, pq[k].d)
    ensures Frontier(maze, dist, RemoveAt(pq, k), pq[k].at, pq[k].d, 0)
  {
    var r, u, d := RemoveAt(pq, k), pq[k].at, pq[k].d;
    QueuedAfterPop(maze, dist, pq, k, level);
    RemoveAtDrops(pq, k);
    forall v | v in settled + {u}
      ensures InBounds(maze, v) && dist[v.row][v.col].Fin? && dist[v.row][v.col].n <= d &&
              Entry(dist[v.row][v.col].n, v) !in r
    {
      if v != u {
        assert Entry(dist[v.row][v.col].n, v) !in pq;
        assert multiset(r) <= multiset(pq);
        assert Entry(dist[v.row][v.col].n, v) !in multiset(r);
      }
    }
    forall v | InBounds(maze, v) && dist[v.row][v.col].Fin?
      ensures Entry(dist[v.row][v.col].n, v) in r ||
              Relaxed(maze, dist, v, dist[v.row][v.col].n, 4) ||
              (v == u && dist[v.row][v.col].n == d && Relaxed(maze, dist, v, d, 0))
    {
      var x := Entry(dist[v.row][v.col].n, v);
      if x in pq && x != pq[k] {
        RemoveAtKeeps(pq, k, x);
      }
    }
  }

  /** Popping an entry whose cell has since been reached more cheaply
      changes nothing: that cell's cheaper entry was popped before (it is
      no longer queued, since the popped entry is least), so its
      neighbours are already relaxed. */
  lemma StalePop(maze: Maze, start: Coord, dist: seq<seq<Dist>>, pq: seq<Entry>, k: nat,
                 settled: set<Coord>, level: nat)
    requires Sized(maze, dist) && k < |pq|
    requires forall j :: 0 <= j < |pq| ==> EntryLe(pq[k], pq[j])
    requires Queued(maze, dist, pq, level) && Settled(maze, dist, pq, settled, level)
    requires Frontier(maze, dist, pq, start, 0, 4)
    requires dist[pq[k].at.row][pq[k].at.col] != Fin(pq[k].d)
    ensures InBounds(maze, pq[k].at) && level <= pq[k].d
    ensures dist[pq[k].at.row][pq[k].at.col].Fin? && dist[pq[k].at.row][pq[k].at.col].n < pq[k].d
    ensures Relaxed(maze, dist, pq[k].at, dist[pq[k].at.row][pq[k].at.col].n, 4)
    ensures Queued(maze, dist, RemoveAt(pq, k), level)
    ensures Settled(maze, dist, RemoveAt(pq, k), settled, level)
    ensures Frontier(maze, dist, RemoveAt(pq, k), pq[k].at, pq[k].d, 0)
  {
    var r, u, d := RemoveAt(pq, k), pq[k].at, pq[k].d;
    QueuedAfterPop(maze, dist, pq, k, level);
    assert InBounds(maze, u) && dist[u.row][u.col].Fin? && dist[u.row][u.col].n <= d;
    var du := dist[u.row][u.col].n;
    forall i | 0 <= i < |pq| ensures pq[i] != Entry(du, u) {
      assert EntryLe(pq[k], pq[i]);
    }
    forall v | v in settled
      ensures InBounds(maze, v) && dist[v.row][v.col].Fin? && dist[v.row][v.col].n <= level &&
              Entry(dist[v.row][v.col].n, v) !in r
    {
      assert multiset(r) <= multiset(pq);
      assert Entry(dist[v.row][v.col].n, v) !in multiset(r);
    }
    forall v | InBounds(maze, v) && dist[v.row][v.col].Fin?
      ensures Entry(dist[v.row][v.col].n, v) in r ||
              Relaxed(maze, dist, v, dist[v.row][v.col].n, 4)
    {
      var x := Entry(dist[v.row][v.col].n, v);
      if x in pq && x != pq[k] {
        RemoveAtKeeps(pq, k, x);
      }
    }
    assert Queued(maze, dist, r, d);
    forall i | 0 <= i < |r| ensures level <= r[i].d {
      assert level <= d;
    }
  }

  // ---------------------------------------------------------------------
  // The search itself.

  /** A neighbour can only be improved from a fresh pop: a stale pop's cell
      is already relaxed with its smaller distance. */
  lemma ImprovedOnlyWhenFresh(maze: Maze, dist: seq<seq<Dist>>, u: Coord, d: nat, j: nat)
    requires Sized(maze, dist) && j < 4 && InBounds(maze, u)
    requires dist[u.row][u.col].Fin? && dist[u.row][u.col].n <= d
    requires dist[u.row][u.col].n < d ==> Relaxed(maze, dist, u, dist[u.row][u.col].n, 4)
    requires Walkable(maze, Neighbor(u, j)) && Improves(d + 1, dist[Neighbor(u, j).row][Neighbor(u, j).col])
    ensures dist[u.row][u.col].n == d
  {
  }

  /** The relaxation `dist[n] = d + 1; prev[n] = u; heappush(pq, (d + 1, n))`
      of an improved neighbour `n` keeps every invariant of the search,
      makes no distance worse and leaves `dist[u]` alone. */
  lemma ImprovedKeeps(maze: Maze, start: Coord, dist: seq<seq<Dist>>, prev: seq<seq<Option<Coord>>>,
                      pq: seq<Entry>, u: Coord, d: nat, j: nat, settled: set<Coord>, level: nat)
    requires IsRect(maze) && Sized(maze, dist) && Sized(maze, prev) && InBounds(maze, start)
    requires j < 4 && InBounds(maze, u) && level <= d
    requires dist[u.row][u.col].Fin? && dist[u.row][u.col].n <= d
    requires dist[u.row][u.col].n < d ==> Relaxed(maze, dist, u, dist[u.row][u.col].n, 4)
    requires Linked(maze, start, dist, prev)
    requires Queued(maze, dist, pq, level) && Settled(maze, dist, pq, settled, level)
    requires Frontier(maze, dist, pq, u, d, j)
    requires Walkable(maze, Neighbor(u, j)) && Improves(d + 1, dist[Neighbor(u, j).row][Neighbor(u, j).col])
    ensures dist[u.row][u.col].n == d
    ensures var n := Neighbor(u, j);
      var dist' := SetCell(dist, n, Fin(d + 1));
      var prev' := SetCell(prev, n, Some(u));
      var pq' := pq + [Entry(d + 1, n)];
      Sized(maze, dist') && Sized(maze, prev') &&
      Linked(maze, start, dist', prev') &&
      Queued(maze, dist', pq', level) && Settled(maze, dist', pq', settled, level) &&
      Frontier(maze, dist', pq', u, d, j + 1) &&
      NoWorse(maze, dist, dist') && dist'[u.row][u.col] == dist[u.row][u.col]
  {
    var n := Neighbor(u, j);
    ImprovedOnlyWhenFresh(maze, dist, u, d, j);
    LinkedKept(maze, start, dist, prev, n, d + 1, u);
    QueuedKept(maze, dist, pq, level, n, d + 1);
    SettledKept(maze, dist, pq, settled, level, n, d + 1);
    FrontierKept(maze, dist, pq, u, d, j);
    assert n != u;
  }

  /** One pass of the inner loop of the search: try neighbour `j` of `u`,
      popped with distance `d`; if it is open and `d + 1` beats its
      recorded distance, record the new distance and predecessor and queue
      it. Every invariant of the search is kept, and the frontier moves on
      to neighbour `j + 1`. A stale pop (one whose distance was since
      improved) changes nothing. */
  method RelaxNeighbor(maze: Maze, ghost start: Coord, dist: seq<seq<Dist>>, prev: seq<seq<Option<Coord>>>,
                       pq: seq<Entry>, u: Coord, d: nat, j: nat,
                       ghost settled: set<Coord>, ghost level: nat)
    returns (dist': seq<seq<Dist>>, prev': seq<seq<Option<Coord>>>, pq': seq<Entry>)
    requires IsRect(maze) && Sized(maze, dist) && Sized(maze, prev) && InBounds(maze, start)
    requires j < 4 && InBounds(maze, u) && level <= d
    requires dist[u.row][u.col].Fin? && dist[u.row][u.col].n <= d
    requires dist[u.row][u.col].n < d ==> Relaxed(maze, dist, u, dist[u.row][u.col].n, 4)
    requires Linked(maze, start, dist, prev)
    requires Queued(maze, dist, pq, level) && Settled(maze, dist, pq, settled, level)
    requires Frontier(maze, dist, pq, u, d, j)
    ensures Sized(maze, dist') && Sized(maze, prev')
    ensures Linked(maze, start, dist', prev')
    ensures Queued(maze, dist', pq', level) && Settled(maze, dist', pq', settled, level)
    ensures Frontier(maze, dist', pq', u, d, j + 1)
    ensures NoWorse(maze, dist, dist') && dist'[u.row][u.col] == dist[u.row][u.col]
    ensures dist[u.row][u.col].n < d ==> dist' == dist && prev' == prev && pq' == pq
  {
    dist', prev', pq' := dist, prev, pq;
    var (dx, dy) := Directions[j];
    var nx, ny := u.row + dx, u.col + dy;
    var n := Coord(nx, ny);
    assert n == Neighbor(u, j);
    if 0 <= nx < |maze| && 0 <= ny < |maze[0]| && maze[nx][ny] == 0 {
      var newDist := d + 1;
      if Improves(newDist, dist[nx][ny]) {
        ImprovedKeeps(maze, start, dist, prev, pq, u, d, j, settled, level);
        dist' := SetCell(dist, n, Fin(newDist));
        prev' := SetCell(prev, n, Some(u));
        pq' := pq + [Entry(newDist, n)];
      } else {
        FrontierStep(maze, dist, pq, u, d, j);
      }
    } else {
      FrontierStep(maze, dist, pq, u, d, j);
    }
  }

  /** The inner loop of the search: relax the four neighbours of `u`,
      popped with distance `d`, in the order up, down, left, right.
      Afterwards every reached cell is queued or fully relaxed. */
  method Expand(maze: Maze, ghost start: Coord, dist: seq<seq<Dist>>, prev: seq<seq<Option<Coord>>>,
                pq: seq<Entry>, u: Coord, d: nat, ghost settled: set<Coord>, ghost level: nat)
    returns (dist': seq<seq<Dist>>, prev': seq<seq<Option<Coord>>>, pq': seq<Entry>)
    requires IsRect(maze) && Sized(maze, dist) && Sized(maze, prev) && InBounds(maze, start)
    requires InBounds(maze, u) && level <= d
    requires dist[u.row][u.col].Fin? && dist[u.row][u.col].n <= d
    requires dist[u.row][u.col].n < d ==> Relaxed(maze, dist, u, dist[u.row][u.col].n, 4)
    requires Linked(maze, start, dist, prev)
    requires Queued(maze, dist, pq, level) && Settled(maze, dist, pq, settled, level)
    requires Frontier(maze, dist, pq, u, d, 0)
    ensures Sized(maze, dist') && Sized(maze, prev')
    ensures Linked(maze, start, dist', prev')
    ensures Queued(maze, dist', pq', level) && Settled(maze, dist', pq', settled, level)
    ensures Frontier(maze, dist', pq', start, 0, 4)
    ensures NoWorse(maze, dist, dist')
    ensures dist[u.row][u.col].n < d ==> dist' == dist && prev' == prev && pq' == pq
  {
    dist', prev', pq' := dist, prev, pq;
    for j := 0 to 4
      invariant Sized(maze, dist') && Sized(maze, prev')
      invariant Linked(maze, start, dist', prev')
      invariant Queued(maze, dist', pq', level) && Settled(maze, dist', pq', settled, level)
      invariant Frontier(maze, dist', pq', u, d, j)
      invariant dist'[u.row][u.col] == dist[u.row][u.col]
      invariant NoWorse(maze, dist, dist')
      invariant dist[u.row][u.col].n < d ==> dist' == dist && prev' == prev && pq' == pq
    {
      ghost var before := dist';
      dist', prev', pq' := RelaxNeighbor(maze, start, dist', prev', pq', u, d, j, settled, level);
      NoWorseTrans(maze, dist, before, dist');
    }
  }

  /** `end` has been reached, in fewer moves than any walk from `start`
      to `end` has cells. */
  ghost predicate BelowEveryWalk(maze: Maze, start: Coord, end: Coord, dist: seq<seq<Dist>>)
    requires Sized(maze, dist) && InBounds(maze, end)
  {
    forall q :: IsWalk(maze, start, end, q) ==>
      dist[end.row][end.col].Fin? && dist[end.row][end.col].n < |q|
  }

  /** When the least entry is popped, the popped cell's distance is already
      optimal: no walk reaches it in fewer moves. This is what makes the
      early `break` at `end` sound. */
  lemma BoundAtPop(maze: Maze, start: Coord, dist: seq<seq<Dist>>, pq: seq<Entry>, k: nat, level: nat)
    requires IsRect(maze) && Sized(maze, dist) && InBounds(maze, start)
    requires dist[start.row][start.col] == Fin(0)
    requires Queued(maze, dist, pq, level) && Frontier(maze, dist, pq, start, 0, 4)
    requires k < |pq| && forall j :: 0 <= j < |pq| ==> EntryLe(pq[k], pq[j])
    ensures InBounds(maze, pq[k].at) && BelowEveryWalk(maze, start, pq[k].at, dist)
  {
    var e := pq[k].at;
    assert dist[e.row][e.col].Fin? && dist[e.row][e.col].n <= pq[k].d;
    forall q | IsWalk(maze, start, e, q)
      ensures dist[e.row][e.col].Fin? && dist[e.row][e.col].n < |q|
    {
      WalkBound(maze, start, dist, pq, pq[k].d, q, |q| - 1);
    }
  }

  /** When the queue has run empty, every cell some walk reaches has a
      distance below that walk's length. */
  lemma BoundWhenDrained(maze: Maze, start: Coord, end: Coord, dist: seq<seq<Dist>>)
    requires IsRect(maze) && Sized(maze, dist) && InBounds(maze, start) && InBounds(maze, end)
    requires dist[start.row][start.col] == Fin(0)
    requires Frontier(maze, dist, [], start, 0, 4)
    ensures BelowEveryWalk(maze, start, end, dist)
  {
    forall q | IsWalk(maze, start, end, q)
      ensures dist[end.row][end.col].Fin? && dist[end.row][end.col].n < |q|
    {
      WalkBound(maze, start, dist, [], |q|, q, |q| - 1);
    }
  }

  /** The search loop of `dijkstra`, up to the point where it stops: when
      the queue runs empty or `end` is popped. The distances it leaves
      behind are linked back to `start`, and `end` has been reached within
      as few moves as any walk from `start` takes. */
  method Explore(maze: Maze, start: Coord, end: Coord)
    returns (dist: seq<seq<Dist>>, prev: seq<seq<Option<Coord>>>)
    requires IsRect(maze) && InBounds(maze, start) && InBounds(maze, end)
    ensures Sized(maze, dist) && Sized(maze, prev)
    ensures Linked(maze, start, dist, prev)
    ensures BelowEveryWalk(maze, start, end, dist)
  {
    var rows, cols := |maze|, |maze[0]|;
    dist := seq(rows, _ => seq(cols, _ => Inf));
    dist := SetCell(dist, start, Fin(0));
    prev := seq(rows, _ => seq(cols, _ => None));
    var pq := [Entry(0, start)];
    ghost var settled: set<Coord> := {};
    ghost var level: nat := 0;
    ghost var reachedEnd := false;
    while |pq| > 0
      invariant Sized(maze, dist) && Sized(maze, prev)
      invariant Linked(maze, start, dist, prev)
      invariant Queued(maze, dist, pq, level) && Settled(maze, dist, pq, settled, level)
      invariant Frontier(maze, dist, pq, start, 0, 4)
      invariant !reachedEnd
      decreases AllCells(maze) - settled, |pq|
    {
      ghost var pq0 := pq;
      var k := MinIndex(pq);
      var d, u := pq[k].d, pq[k].at;
      pq := RemoveAt(pq, k);
      if u == end {
        BoundAtPop(maze, start, dist, pq0, k, level);
        reachedEnd := true;
        break;
      }
      ghost var isFresh := dist[u.row][u.col] == Fin(d);
      if isFresh {
        FreshPop(maze, start, dist, pq0, k, settled, level);
        CellInAllCells(maze, u);
        settled := settled + {u};
        level := d;
      } else {
        StalePop(maze, start, dist, pq0, k, settled, level);
      }
      dist, prev, pq := Expand(maze, start, dist, prev, pq, u, d, settled, level);
    }
    if !reachedEnd {
      BoundWhenDrained(maze, start, end, dist);
    }
  }

  // ---------------------------------------------------------------------
  // Reconstructing the path.

  /** `s` back to front (`list.reverse()`). */
  function Reversed<T>(s: seq<T>): (r: seq<T>)
    ensures |r| == |s|
    ensures forall i :: 0 <= i < |s| ==> r[i] == s[|s| - 1 - i]
  {
    if |s| == 0 then [] else Reversed(s[1..]) + [s[0]]
  }

  /** A walk written from its last cell back to its first: it starts at
      `e`, each cell is entered from the next one, and every cell but the
      last (the walk's first) is open. */
  ghost predicate BackTrail(maze: Maze, e: Coord, q: seq<Coord>) {
    |q| >= 1 && q[0] == e &&
    forall i :: 0 <= i < |q| - 1 ==> Walkable(maze, q[i]) && Adjacent(q[i + 1], q[i])
  }

  /** Turning a back trail that ends at `s` around gives a walk from `s` to `e`. */
  lemma ReversedBackTrail(maze: Maze, s: Coord, e: Coord, q: seq<Coord>)
    requires BackTrail(maze, e, q) && q[|q| - 1] == s
    ensures IsWalk(maze, s, e, Reversed(q))
  {
    var r := Reversed(q);
    forall i | 1 <= i < |r| ensures Walkable(maze, r[i]) {
      assert r[i] == q[|q| - 1 - i];
    }
    forall i | 0 <= i < |r| - 1 ensures Adjacent(r[i], r[i + 1]) {
      assert r[i] == q[(|q| - 2 - i) + 1] && r[i + 1] == q[|q| - 2 - i];
    }
  }

  /** The tail of `dijkstra`: follow the predecessor links back from `end`
      to `start`, then reverse. The result is a walk from `start` to `end`
      with at most `dist[end] + 1` cells, since every link leads to a
      strictly closer cell. */
  method TracePath(maze: Maze, start: Coord, end: Coord, dist: seq<seq<Dist>>, prev: seq<seq<Option<Coord>>>)
    returns (path: seq<Coord>)
    requires Sized(maze, dist) && Sized(maze, prev) && InBounds(maze, start) && InBounds(maze, end)
    requires Linked(maze, start, dist, prev) && dist[end.row][end.col].Fin?
    ensures IsWalk(maze, start, end, path)
    ensures |path| <= dist[end.row][end.col].n + 1
  {
    path := [];
    var cur := end;
    while cur != start
      invariant InBounds(maze, cur) && dist[cur.row][cur.col].Fin?
      invariant BackTrail(maze, end, path + [cur])
      invariant |path| + dist[cur.row][cur.col].n <= dist[end.row][end.col].n
      decreases dist[cur.row][cur.col].n
    {
      assert LinkOk(maze, start, dist, prev, cur);
      var next := prev[cur.row][cur.col].value;
      path := path + [cur];
      cur := next;
    }
    path := path + [start];
    ReversedBackTrail(maze, start, end, path);
    path := Reversed(path);
  }

  /** `dijkstra(maze, start, end)`: `None` exactly when no walk leads from
      `start` to `end`, and otherwise a walk with as few cells as any. */
  method Dijkstra(maze: Maze, start: Coord, end: Coord) returns (path: Option<seq<Coord>>)
    requires IsRect(maze) && InBounds(maze, start) && InBounds(maze, end)
    ensures path.Some? <==> Reachable(maze, start, end)
    ensures path.Some? ==> IsShortestWalk(maze, start, end, path.value)
    ensures start == end ==> path == Some([start])
  {
    var dist, prev := Explore(maze, start, end);
    if dist[end.row][end.col] == Inf {
      return None;
    }
    var p := TracePath(maze, start, end, dist, prev);
    if start == end {
      assert IsWalk(maze, start, end, [start]);
      assert p == [p[0]];
    }
    return Some(p);
  }
}
