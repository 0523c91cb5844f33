/** The state of `dijkstra` between iterations of its main loop, and the facts
    that make the popped distances shortest-route distances.

    The state is the `distances` and `prev` tables, the `unvisited` list and
    the `visitedNodesInOrder` list. The tables are stated here as values, one
    row per grid row (the search keeps them in arrays and mirrors their
    contents). Alongside the state the proof keeps, as ghost data, the
    distance each visited cell had when it was popped (`shortest`) and, for
    every cell with a finite distance, a route that realises it (`routes`). */
module SearchState {
  import opened Grid
  import opened Routes
  import opened Distances

  /** A `prev` entry: `null` or the cell the best known route came from. */
  datatype Option<T> = None | Some(value: T)

  /** `t` has `numRows` rows of `numCols` entries. */
  ghost predicate Table<T>(t: seq<seq<T>>, numRows: nat, numCols: nat) {
    |t| == numRows && forall r :: 0 <= r < numRows ==> |t[r]| == numCols
  }

  /** The cell's coordinate indexes `t`. */
  ghost predicate Has<T>(t: seq<seq<T>>, c: Cell) {
    0 <= c.row < |t| && 0 <= c.col < |t[c.row]|
  }

  /** `t` with the entry at (row, col) replaced by `v`. */
  function Updated<T>(t: seq<seq<T>>, row: nat, col: nat, v: T): (u: seq<seq<T>>)
    requires row < |t| && col < |t[row]|
    ensures |u| == |t| && forall r :: 0 <= r < |t| ==> |u[r]| == |t[r]|
    ensures u[row][col] == v
    ensures forall r, c :: 0 <= r < |t| && 0 <= c < |t[r]| && (r != row || c != col) ==> u[r][c] == t[r][c]
  {
    t[row := t[row][col := v]]
  }

  /** The tables have one entry per cell of a well-formed grid. */
  ghost predicate Shaped(grid: seq<seq<Cell>>, numRows: nat, numCols: nat, dist: seq<seq<Dist>>, prev: seq<seq<Option<Cell>>>) {
    WellFormed(grid, numRows, numCols) && Table(dist, numRows, numCols) && Table(prev, numRows, numCols)
  }

  /** The unvisited and visited lists split the open cells between them: every
      open cell is in exactly one of them, and in it exactly once. */
  ghost predicate Pool(grid: seq<seq<Cell>>, unvisited: seq<Cell>, visited: seq<Cell>) {
    && (forall x :: x in unvisited ==> Open(grid, x) && multiset(unvisited)[x] == 1 && x !in visited)
    && (forall i :: 0 <= i < |visited| ==> Open(grid, visited[i]))
    && (forall i, j :: 0 <= i < j < |visited| ==> visited[i] != visited[j])
    && Covers(grid, unvisited, visited)
  }

  /** Every open cell is unvisited or visited. */
  ghost predicate Covers(grid: seq<seq<Cell>>, unvisited: seq<Cell>, visited: seq<Cell>) {
    forall x :: Open(grid, x) ==> x in unvisited || x in visited
  }

  /** `prev` says that the best known route to `x` arrives from the visited
      cell `u`, one step shorter. */
  ghost predicate LinkedTo(grid: seq<seq<Cell>>, dist: seq<seq<Dist>>, visited: seq<Cell>, x: Cell, u: Cell) {
    && u in visited && Open(grid, u) && Open(grid, x) && Adjacent(u, x)
    && Has(dist, u) && Has(dist, x)
    && dist[x.row][x.col].Fin? && 1 <= dist[x.row][x.col].n
    && dist[u.row][u.col] == Fin(dist[x.row][x.col].n - 1)
  }

  /** The `prev` table: the start has distance 0 and no predecessor, every
      other cell with a finite distance has one, and each predecessor is a
      visited neighbour one step closer to the start. */
  ghost predicate Links(grid: seq<seq<Cell>>, numRows: nat, numCols: nat, start: Coord,
                        dist: seq<seq<Dist>>, prev: seq<seq<Option<Cell>>>, visited: seq<Cell>)
    requires Shaped(grid, numRows, numCols, dist, prev) && InBounds(numRows, numCols, start)
  {
    && dist[start.row][start.col] == Fin(0)
    && prev[start.row][start.col] == None
    && forall r, c :: 0 <= r < numRows && 0 <= c < numCols ==>
         && (prev[r][c].Some? ==> LinkedTo(grid, dist, visited, grid[r][c], prev[r][c].value))
         && (dist[r][c].Fin? && Coord(r, c) != start ==> prev[r][c].Some?)
  }

  /** Every open cell with a finite distance d has a route of d + 1 cells from
      the start, recorded in `routes`. */
  ghost predicate Witnessed(grid: seq<seq<Cell>>, numRows: nat, numCols: nat, start: Coord,
                            dist: seq<seq<Dist>>, routes: map<Coord, seq<Cell>>)
    requires Table(dist, numRows, numCols) && Table(grid, numRows, numCols)
  {
    forall r, c :: 0 <= r < numRows && 0 <= c < numCols && dist[r][c].Fin? && Open(grid, grid[r][c]) ==>
      && Coord(r, c) in routes
      && RouteFromTo(grid, routes[Coord(r, c)], start, Coord(r, c))
      && |routes[Coord(r, c)]| == dist[r][c].n + 1
  }

  /** Each visited cell still has the distance it was popped with. */
  ghost predicate Recorded(dist: seq<seq<Dist>>, visited: seq<Cell>, shortest: seq<nat>) {
    && |shortest| == |visited|
    && forall i :: 0 <= i < |visited| ==>
         Has(dist, visited[i]) && dist[visited[i].row][visited[i].col] == Fin(shortest[i])
  }

  /** The popped distances are non-decreasing, and each is the length of a
      shortest route from the start to the cell popped. */
  ghost predicate Settled(grid: seq<seq<Cell>>, start: Coord, visited: seq<Cell>, shortest: seq<nat>) {
    && |shortest| == |visited|
    && (forall i, j :: 0 <= i <= j < |shortest| ==> shortest[i] <= shortest[j])
    && (forall i :: 0 <= i < |visited| ==> ShortestIs(grid, start, Pos(visited[i]), shortest[i]))
  }

  /** The last distance popped, 0 before the first pop. */
  function LastPopped(shortest: seq<nat>): nat {
    if shortest == [] then 0 else shortest[|shortest| - 1]
  }

  /** No unvisited cell has a finite distance below `floor`. */
  ghost predicate Frontier(dist: seq<seq<Dist>>, unvisited: seq<Cell>, floor: nat) {
    forall x :: x in unvisited ==>
      Has(dist, x) && (dist[x.row][x.col].Fin? ==> floor <= dist[x.row][x.col].n)
  }

  /** Every open neighbour of `x` has a distance of at most `bound + 1`. */
  ghost predicate RelaxedFrom(grid: seq<seq<Cell>>, dist: seq<seq<Dist>>, x: Cell, bound: nat) {
    forall w :: Open(grid, w) && Adjacent(x, w) ==>
      Has(dist, w) && dist[w.row][w.col].Fin? && dist[w.row][w.col].n <= bound + 1
  }

  /** The neighbours of the first `upto` visited cells have been relaxed. */
  ghost predicate Relaxed(grid: seq<seq<Cell>>, dist: seq<seq<Dist>>, visited: seq<Cell>, shortest: seq<nat>, upto: nat) {
    forall i :: 0 <= i < upto && i < |visited| && i < |shortest| ==>
      RelaxedFrom(grid, dist, visited[i], shortest[i])
  }

  /** Nothing is visited when the start is blocked, and otherwise the start
      is visited first. */
  ghost predicate StartFirst(grid: seq<seq<Cell>>, numRows: nat, numCols: nat, start: Coord, visited: seq<Cell>)
    requires WellFormed(grid, numRows, numCols) && InBounds(numRows, numCols, start)
  {
    && (!Open(grid, grid[start.row][start.col]) ==> visited == [])
    && (visited != [] ==> visited[0] == grid[start.row][start.col])
  }

  /** The goal has not been visited. */
  predicate GoalPending(end: Coord, visited: seq<Cell>) {
    forall i :: 0 <= i < |visited| ==> Pos(visited[i]) != end
  }

  /** What holds of the state between any two steps of the main loop: the
      tables, the split of the open cells, the `prev` links, the routes
      witnessing finite distances, and the settled distances of the visited
      cells. */
  ghost predicate Core(grid: seq<seq<Cell>>, numRows: nat, numCols: nat, start: Coord, end: Coord,
                       dist: seq<seq<Dist>>, prev: seq<seq<Option<Cell>>>,
                       unvisited: seq<Cell>, visited: seq<Cell>, shortest: seq<nat>, routes: map<Coord, seq<Cell>>)
  {
    && Shaped(grid, numRows, numCols, dist, prev)
    && InBounds(numRows, numCols, start) && InBounds(numRows, numCols, end)
    && Pool(grid, unvisited, visited)
    && Links(grid, numRows, numCols, start, dist, prev, visited)
    && Witnessed(grid, numRows, numCols, start, dist, routes)
    && Recorded(dist, visited, shortest)
    && Settled(grid, start, visited, shortest)
    && Frontier(dist, unvisited, LastPopped(shortest))
    && StartFirst(grid, numRows, numCols, start, visited)
  }

  /** The invariant of the main loop: every visited cell has had its
      neighbours relaxed, and the goal has not been visited. */
  ghost predicate Searching(grid: seq<seq<Cell>>, numRows: nat, numCols: nat, start: Coord, end: Coord,
                            dist: seq<seq<Dist>>, prev: seq<seq<Option<Cell>>>,
                            unvisited: seq<Cell>, visited: seq<Cell>, shortest: seq<nat>, routes: map<Coord, seq<Cell>>)
  {
    && Core(grid, numRows, numCols, start, end, dist, prev, unvisited, visited, shortest, routes)
    && Relaxed(grid, dist, visited, shortest, |visited|)
    && GoalPending(end, visited)
  }

  /** Every route from the start ends in a visited cell. */
  ghost predicate Exhausted(grid: seq<seq<Cell>>, start: Coord, visited: seq<Cell>) {
    forall p :: Route(grid, p) && Pos(p[0]) == start ==> p[|p| - 1] in visited
  }

  /** The state when the main loop has ended: the goal, if visited, was
      visited last; if it was not, the search has visited every cell
      reachable from the start, and the goal has a finite distance only if
      it is the start. */
  ghost predicate Concluded(grid: seq<seq<Cell>>, numRows: nat, numCols: nat, start: Coord, end: Coord,
                            dist: seq<seq<Dist>>, prev: seq<seq<Option<Cell>>>,
                            visited: seq<Cell>, shortest: seq<nat>)
  {
    && Shaped(grid, numRows, numCols, dist, prev)
    && InBounds(numRows, numCols, start) && InBounds(numRows, numCols, end)
    && (forall i :: 0 <= i < |visited| ==> Open(grid, visited[i]))
    && (forall i, j :: 0 <= i < j < |visited| ==> visited[i] != visited[j])
    && Links(grid, numRows, numCols, start, dist, prev, visited)
    && Recorded(dist, visited, shortest)
    && Settled(grid, start, visited, shortest)
    && StartFirst(grid, numRows, numCols, start, visited)
    && (forall i :: 0 <= i < |visited| - 1 ==> Pos(visited[i]) != end)
    && (GoalPending(end, visited) ==>
          && Exhausted(grid, start, visited)
          && (dist[end.row][end.col].Fin? ==> end == start))
  }

  /** No cell of `s` has a smaller distance than its first one: what the
      sort guarantees about the cell that `shift` removes. */
  ghost predicate FirstIsLeast(dist: seq<seq<Dist>>, s: seq<Cell>) {
    && |s| > 0 && Has(dist, s[0])
    && forall k :: 0 <= k < |s| ==>
         Has(dist, s[k]) && !Below(dist[s[k].row][s[k].col], dist[s[0].row][s[0].col])
  }

  /** The frontier argument of Dijkstra's algorithm: a route from the start
      that leaves the visited cells first does so into an unvisited cell whose
      recorded distance is no larger than the route's length in steps. */
  lemma ReachesUnvisited(grid: seq<seq<Cell>>, numRows: nat, numCols: nat, start: Coord,
                         dist: seq<seq<Dist>>, prev: seq<seq<Option<Cell>>>,
                         unvisited: seq<Cell>, visited: seq<Cell>, shortest: seq<nat>, p: seq<Cell>)
      returns (y: Cell)
    requires Shaped(grid, numRows, numCols, dist, prev) && InBounds(numRows, numCols, start)
    requires Covers(grid, unvisited, visited)
    requires dist[start.row][start.col] == Fin(0)
    requires |shortest| == |visited|
    requires forall i :: 0 <= i < |visited| ==> ShortestIs(grid, start, Pos(visited[i]), shortest[i])
    requires Relaxed(grid, dist, visited, shortest, |visited|)
    requires Route(grid, p) && Pos(p[0]) == start && p[|p| - 1] !in visited
    ensures y in unvisited && Has(dist, y)
    ensures dist[y.row][y.col].Fin? && dist[y.row][y.col].n + 1 <= |p|
  {
    var j := 0;
    while p[j] in visited
      invariant 0 <= j < |p|
      invariant j > 0 ==> p[j - 1] in visited
      decreases |p| - j
    {
      j := j + 1;
    }
    y := p[j];
    assert Open(grid, y);
    if j > 0 {
      var i :| 0 <= i < |visited| && visited[i] == p[j - 1];
      StepOut(grid, dist, start, p, j, visited[i], shortest[i]);
    } else {
      assert y.row == start.row && y.col == start.col;
    }
    assert y !in visited;
  }

  /** The step of a route from its (j-1)-th cell `x`, already settled at
      distance `d`, to its j-th cell: that cell's distance is at most j. */
  lemma StepOut(grid: seq<seq<Cell>>, dist: seq<seq<Dist>>, start: Coord, p: seq<Cell>, j: nat, x: Cell, d: nat)
    requires Route(grid, p) && Pos(p[0]) == start && 0 < j < |p| && p[j - 1] == x
    requires ShortestIs(grid, start, Pos(x), d)
    requires RelaxedFrom(grid, dist, x, d)
    ensures Has(dist, p[j]) && dist[p[j].row][p[j].col].Fin? && dist[p[j].row][p[j].col].n <= j
  {
    RoutePrefix(grid, p, start, j);
    assert d + 1 <= j;
    assert Open(grid, p[j]) && Adjacent(x, p[j]);
  }

  /** Popping the closest unvisited cell, when its distance `d` is finite,
      settles it: `d` is the length of a shortest route to it. */
  lemma PopIsShortest(grid: seq<seq<Cell>>, numRows: nat, numCols: nat, start: Coord,
                      dist: seq<seq<Dist>>, prev: seq<seq<Option<Cell>>>,
                      unvisited: seq<Cell>, visited: seq<Cell>, shortest: seq<nat>, routes: map<Coord, seq<Cell>>,
                      sorted: seq<Cell>)
    requires Shaped(grid, numRows, numCols, dist, prev) && InBounds(numRows, numCols, start)
    requires Covers(grid, unvisited, visited)
    requires forall x :: x in unvisited ==> Open(grid, x) && x !in visited
    requires dist[start.row][start.col] == Fin(0)
    requires |shortest| == |visited|
    requires forall i :: 0 <= i < |visited| ==> ShortestIs(grid, start, Pos(visited[i]), shortest[i])
    requires Relaxed(grid, dist, visited, shortest, |visited|)
    requires Witnessed(grid, numRows, numCols, start, dist, routes)
    requires multiset(sorted) == multiset(unvisited) && FirstIsLeast(dist, sorted)
    requires dist[sorted[0].row][sorted[0].col].Fin?
    ensures ShortestIs(grid, start, Pos(sorted[0]), dist[sorted[0].row][sorted[0].col].n)
  {
    var closest := sorted[0];
    var d := dist[closest.row][closest.col].n;
    assert closest in unvisited by {
      assert closest in multiset(sorted);
    }
    assert grid[closest.row][closest.col] == closest;
    assert RouteFromTo(grid, routes[Pos(closest)], start, Pos(closest));
    forall p | RouteFromTo(grid, p, start, Pos(closest))
      ensures d + 1 <= |p|
    {
      PopLowerBound(grid, numRows, numCols, start, dist, prev, unvisited, visited, shortest, sorted, p);
    }
  }

  /** No route from the start to the closest unvisited cell is shorter than
      its recorded distance. */
  lemma PopLowerBound(grid: seq<seq<Cell>>, numRows: nat, numCols: nat, start: Coord,
                      dist: seq<seq<Dist>>, prev: seq<seq<Option<Cell>>>,
                      unvisited: seq<Cell>, visited: seq<Cell>, shortest: seq<nat>,
                      sorted: seq<Cell>, p: seq<Cell>)
    requires Shaped(grid, numRows, numCols, dist, prev) && InBounds(numRows, numCols, start)
    requires Covers(grid, unvisited, visited)
    requires forall x :: x in unvisited ==> Open(grid, x) && x !in visited
    requires dist[start.row][start.col] == Fin(0)
    requires |shortest| == |visited|
    requires forall i :: 0 <= i < |visited| ==> ShortestIs(grid, start, Pos(visited[i]), shortest[i])
    requires Relaxed(grid, dist, visited, shortest, |visited|)
    requires multiset(sorted) == multiset(unvisited) && FirstIsLeast(dist, sorted)
    requires dist[sorted[0].row][sorted[0].col].Fin?
    requires RouteFromTo(grid, p, start, Pos(sorted[0]))
    ensures dist[sorted[0].row][sorted[0].col].n + 1 <= |p|
  {
    assert sorted[0] in multiset(unvisited);
    assert Open(grid, sorted[0]) && Open(grid, p[|p| - 1]);
    assert p[|p| - 1] == sorted[0];
    var y := ReachesUnvisited(grid, numRows, numCols, start, dist, prev, unvisited, visited, shortest, p);
    assert y in multiset(sorted);
    var k :| 0 <= k < |sorted| && sorted[k] == y;
  }

  /** After the pop, the remaining cells are no closer than the popped one,
      which is no closer than the one popped before it. */
  lemma PopFrontier(dist: seq<seq<Dist>>, unvisited: seq<Cell>, sorted: seq<Cell>, floor: nat)
    requires Frontier(dist, unvisited, floor)
    requires multiset(sorted) == multiset(unvisited) && FirstIsLeast(dist, sorted)
    requires dist[sorted[0].row][sorted[0].col].Fin?
    ensures floor <= dist[sorted[0].row][sorted[0].col].n
    ensures Frontier(dist, sorted[1..], dist[sorted[0].row][sorted[0].col].n)
  {
    assert sorted[0] in multiset(unvisited);
    forall x | x in sorted[1..]
      ensures Has(dist, x) && (dist[x.row][x.col].Fin? ==> dist[sorted[0].row][sorted[0].col].n <= dist[x.row][x.col].n)
    {
      var k :| 1 <= k < |sorted| && sorted[k] == x;
    }
  }

  /** Removing the first cell of a rearrangement of the unvisited list and
      appending it to the visited list keeps the split of the open cells. */
  lemma PopKeepsPool(grid: seq<seq<Cell>>, unvisited: seq<Cell>, visited: seq<Cell>, sorted: seq<Cell>)
    requires Pool(grid, unvisited, visited)
    requires multiset(sorted) == multiset(unvisited) && |sorted| > 0
    ensures Pool(grid, sorted[1..], visited + [sorted[0]])
  {
    assert sorted == [sorted[0]] + sorted[1..];
    var rest, visited' := sorted[1..], visited + [sorted[0]];
    assert multiset(sorted) == multiset{sorted[0]} + multiset(rest);
    assert sorted[0] in multiset(unvisited);
    forall x | x in rest
      ensures Open(grid, x) && multiset(rest)[x] == 1 && x !in visited'
    {
      assert x in multiset(unvisited);
    }
    forall x | Open(grid, x)
      ensures x in rest || x in visited'
    {
      if x in unvisited {
        assert x in multiset(sorted);
      }
    }
  }

  /** When no unvisited cell has a finite distance, the loop has concluded:
      every route from the start ends in a visited cell, and the goal, not
      visited, has a finite distance only if it is the start. */
  lemma Exhausts(grid: seq<seq<Cell>>, numRows: nat, numCols: nat, start: Coord, end: Coord,
                 dist: seq<seq<Dist>>, prev: seq<seq<Option<Cell>>>,
                 unvisited: seq<Cell>, visited: seq<Cell>, shortest: seq<nat>, routes: map<Coord, seq<Cell>>)
    requires Searching(grid, numRows, numCols, start, end, dist, prev, unvisited, visited, shortest, routes)
    requires forall x :: x in unvisited ==> Has(dist, x) && dist[x.row][x.col] == Inf
    ensures Concluded(grid, numRows, numCols, start, end, dist, prev, visited, shortest)
  {
    ExhaustsRoutes(grid, numRows, numCols, start, dist, prev, unvisited, visited, shortest);
    var goal := grid[end.row][end.col];
    assert forall u :: prev[end.row][end.col] == Some(u) ==> LinkedTo(grid, dist, visited, goal, u);
  }

  /** When no unvisited cell has a finite distance, every route from the
      start ends in a visited cell. */
  lemma ExhaustsRoutes(grid: seq<seq<Cell>>, numRows: nat, numCols: nat, start: Coord,
                       dist: seq<seq<Dist>>, prev: seq<seq<Option<Cell>>>,
                       unvisited: seq<Cell>, visited: seq<Cell>, shortest: seq<nat>)
    requires Shaped(grid, numRows, numCols, dist, prev) && InBounds(numRows, numCols, start)
    requires Covers(grid, unvisited, visited)
    requires dist[start.row][start.col] == Fin(0)
    requires |shortest| == |visited|
    requires forall i :: 0 <= i < |visited| ==> ShortestIs(grid, start, Pos(visited[i]), shortest[i])
    requires Relaxed(grid, dist, visited, shortest, |visited|)
    requires forall x :: x in unvisited ==> Has(dist, x) && dist[x.row][x.col] == Inf
    ensures Exhausted(grid, start, visited)
  {
    forall p | Route(grid, p) && Pos(p[0]) == start
      ensures p[|p| - 1] in visited
    {
      if p[|p| - 1] !in visited {
        var y := ReachesUnvisited(grid, numRows, numCols, start, dist, prev, unvisited, visited, shortest, p);
      }
    }
  }

  /** Lowering the distance of the unvisited open cell `neighbor` to `alt`,
      one more than that of the visited cell `closest`, with `prev` pointing
      at `closest`, keeps the `prev` table consistent. */
  lemma LinksAfterLowering(grid: seq<seq<Cell>>, numRows: nat, numCols: nat, start: Coord,
                           dist: seq<seq<Dist>>, prev: seq<seq<Option<Cell>>>, visited: seq<Cell>,
                           closest: Cell, neighbor: Cell, alt: nat)
    requires Shaped(grid, numRows, numCols, dist, prev) && InBounds(numRows, numCols, start)
    requires Links(grid, numRows, numCols, start, dist, prev, visited)
    requires forall i :: 0 <= i < |visited| ==> Open(grid, visited[i])
    requires closest in visited && Open(grid, closest) && Open(grid, neighbor) && Adjacent(closest, neighbor)
    requires neighbor !in visited
    requires 1 <= alt && dist[closest.row][closest.col] == Fin(alt - 1)
    requires Below(Fin(alt), dist[neighbor.row][neighbor.col])
    ensures Shaped(grid, numRows, numCols, Updated(dist, neighbor.row, neighbor.col, Fin(alt)),
                   Updated(prev, neighbor.row, neighbor.col, Some(closest)))
    ensures Links(grid, numRows, numCols, start, Updated(dist, neighbor.row, neighbor.col, Fin(alt)),
                  Updated(prev, neighbor.row, neighbor.col, Some(closest)), visited)
  {
    var dist': seq<seq<Dist>> := Updated(dist, neighbor.row, neighbor.col, Fin(alt));
    var prev': seq<seq<Option<Cell>>> := Updated(prev, neighbor.row, neighbor.col, Some(closest));
    assert grid[neighbor.row][neighbor.col] == neighbor;
    forall r, c | 0 <= r < numRows && 0 <= c < numCols && prev'[r][c].Some?
      ensures LinkedTo(grid, dist', visited, grid[r][c], prev'[r][c].value)
    {
      if Coord(r, c) != Pos(neighbor) {
        var u := prev[r][c].value;
        assert LinkedTo(grid, dist, visited, grid[r][c], u);
        assert Pos(u) != Pos(neighbor);
      }
    }
  }

  /** Lowering the distance of `neighbor` and recording a route to it of the
      new length keeps every finite distance witnessed by a route. */
  lemma WitnessedAfterLowering(grid: seq<seq<Cell>>, numRows: nat, numCols: nat, start: Coord,
                               dist: seq<seq<Dist>>, routes: map<Coord, seq<Cell>>,
                               neighbor: Cell, alt: nat, route: seq<Cell>)
    requires WellFormed(grid, numRows, numCols) && Table(dist, numRows, numCols)
    requires Witnessed(grid, numRows, numCols, start, dist, routes)
    requires Open(grid, neighbor)
    requires RouteFromTo(grid, route, start, Pos(neighbor)) && |route| == alt + 1
    ensures Table(Updated(dist, neighbor.row, neighbor.col, Fin(alt)), numRows, numCols)
    ensures Witnessed(grid, numRows, numCols, start, Updated(dist, neighbor.row, neighbor.col, Fin(alt)),
                      routes[Pos(neighbor) := route])
  {
  }

  /** Lowering the distance of a cell that is not visited, to a value that is
      not below the last pop, keeps the visited cells' distances, the
      frontier bound and the relaxation bounds. */
  lemma BoundsAfterLowering(grid: seq<seq<Cell>>, numRows: nat, numCols: nat, dist: seq<seq<Dist>>,
                            unvisited: seq<Cell>, visited: seq<Cell>, shortest: seq<nat>, upto: nat,
                            neighbor: Cell, alt: nat)
    requires WellFormed(grid, numRows, numCols) && Table(dist, numRows, numCols)
    requires forall i :: 0 <= i < |visited| ==> Open(grid, visited[i])
    requires Recorded(dist, visited, shortest)
    requires Frontier(dist, unvisited, LastPopped(shortest))
    requires Relaxed(grid, dist, visited, shortest, upto)
    requires Open(grid, neighbor) && LastPopped(shortest) <= alt
    requires Below(Fin(alt), dist[neighbor.row][neighbor.col])
    requires forall i :: 0 <= i < |shortest| ==> shortest[i] < alt
    ensures Recorded(Updated(dist, neighbor.row, neighbor.col, Fin(alt)), visited, shortest)
    ensures Frontier(Updated(dist, neighbor.row, neighbor.col, Fin(alt)), unvisited, LastPopped(shortest))
    ensures Relaxed(grid, Updated(dist, neighbor.row, neighbor.col, Fin(alt)), visited, shortest, upto)
  {
    var dist' := Updated(dist, neighbor.row, neighbor.col, Fin(alt));
    assert grid[neighbor.row][neighbor.col] == neighbor;
    forall i | 0 <= i < upto && i < |visited| && i < |shortest|
      ensures RelaxedFrom(grid, dist', visited[i], shortest[i])
    {
      assert RelaxedFrom(grid, dist, visited[i], shortest[i]);
    }
  }

  /** A table of `numRows` rows of `numCols` copies of `v`: `Array(numCols).fill(v)`
      for every row. */
  function Blank<T>(numRows: nat, numCols: nat, v: T): (t: seq<seq<T>>)
    ensures |t| == numRows && forall r :: 0 <= r < numRows ==> |t[r]| == numCols
    ensures forall r, c :: 0 <= r < numRows && 0 <= c < numCols ==> t[r][c] == v
  {
    seq(numRows, r => seq(numCols, c => v))
  }

  /** One step of the relaxation loop on the distance table: the neighbour
      `n` gets distance `alt` when `alt` is below its distance. */
  function Lower(dist: seq<seq<Dist>>, n: Cell, alt: nat): (d: seq<seq<Dist>>)
    requires Has(dist, n)
    ensures |d| == |dist| && forall r :: 0 <= r < |dist| ==> |d[r]| == |dist[r]|
    ensures forall r, c :: 0 <= r < |dist| && 0 <= c < |dist[r]| ==> !Below(dist[r][c], d[r][c])
    ensures forall r, c :: 0 <= r < |dist| && 0 <= c < |dist[r]| && (r != n.row || c != n.col) ==> d[r][c] == dist[r][c]
    ensures !Below(Fin(alt), d[n.row][n.col])
    ensures Below(Fin(alt), dist[n.row][n.col]) ==> d[n.row][n.col] == Fin(alt)
    ensures !Below(Fin(alt), dist[n.row][n.col]) ==> d == dist
  {
    if Below(Fin(alt), dist[n.row][n.col]) then Updated(dist, n.row, n.col, Fin(alt)) else dist
  }

  /** The same step on the `prev` table: `n` gets predecessor `u` exactly when
      its distance is lowered. */
  function Point(dist: seq<seq<Dist>>, prev: seq<seq<Option<Cell>>>, n: Cell, alt: nat, u: Cell): (q: seq<seq<Option<Cell>>>)
    requires Has(dist, n) && Has(prev, n)
    ensures |q| == |prev| && forall r :: 0 <= r < |prev| ==> |q[r]| == |prev[r]|
    ensures Below(Fin(alt), dist[n.row][n.col]) ==> q[n.row][n.col] == Some(u)
    ensures !Below(Fin(alt), dist[n.row][n.col]) ==> q == prev
    ensures forall r, c :: 0 <= r < |prev| && 0 <= c < |prev[r]| && (r != n.row || c != n.col) ==> q[r][c] == prev[r][c]
  {
    if Below(Fin(alt), dist[n.row][n.col]) then Updated(prev, n.row, n.col, Some(u)) else prev
  }

  ghost predicate HasAll<T>(t: seq<seq<T>>, ns: seq<Cell>) {
    forall i :: 0 <= i < |ns| ==> Has(t, ns[i])
  }

  /** Open cells are entries of any table shaped like the grid. */
  lemma OpenHas<T>(grid: seq<seq<Cell>>, numRows: nat, numCols: nat, t: seq<seq<T>>, ns: seq<Cell>)
    requires WellFormed(grid, numRows, numCols) && Table(t, numRows, numCols)
    requires forall i :: 0 <= i < |ns| ==> Open(grid, ns[i])
    ensures HasAll(t, ns)
  {
  }

  /** The distance table after relaxing the neighbours `ns` in order. */
  function LowerAll(dist: seq<seq<Dist>>, ns: seq<Cell>, alt: nat): (d: seq<seq<Dist>>)
    requires HasAll(dist, ns)
    ensures |d| == |dist| && forall r :: 0 <= r < |dist| ==> |d[r]| == |dist[r]|
    ensures forall r, c :: 0 <= r < |dist| && 0 <= c < |dist[r]| ==> !Below(dist[r][c], d[r][c])
    ensures forall r, c :: 0 <= r < |dist| && 0 <= c < |dist[r]| && (forall i :: 0 <= i < |ns| ==> ns[i].row != r || ns[i].col != c) ==>
              d[r][c] == dist[r][c]
  {
    if ns == [] then dist
    else
      var d := LowerAll(dist, ns[..|ns| - 1], alt);
      Lower(d, ns[|ns| - 1], alt)
  }

  /** The `prev` table after relaxing the neighbours `ns` in order from `u`. */
  function PointAll(dist: seq<seq<Dist>>, prev: seq<seq<Option<Cell>>>, ns: seq<Cell>, alt: nat, u: Cell): (q: seq<seq<Option<Cell>>>)
    requires HasAll(dist, ns) && HasAll(prev, ns)
    ensures |q| == |prev| && forall r :: 0 <= r < |prev| ==> |q[r]| == |prev[r]|
    ensures forall r, c :: 0 <= r < |prev| && 0 <= c < |prev[r]| && (forall i :: 0 <= i < |ns| ==> ns[i].row != r || ns[i].col != c) ==>
              q[r][c] == prev[r][c]
  {
    if ns == [] then prev
    else
      var init := ns[..|ns| - 1];
      Point(LowerAll(dist, init, alt), PointAll(dist, prev, init, alt, u), ns[|ns| - 1], alt, u)
  }

  /** Relaxing one more neighbour extends the fold by one step. */
  lemma RelaxStep(dist: seq<seq<Dist>>, prev: seq<seq<Option<Cell>>>, ns: seq<Cell>, k: nat, alt: nat, u: Cell)
    requires HasAll(dist, ns) && HasAll(prev, ns) && k < |ns|
    ensures HasAll(dist, ns[..k]) && HasAll(prev, ns[..k]) && HasAll(dist, ns[..k + 1]) && HasAll(prev, ns[..k + 1])
    ensures Has(LowerAll(dist, ns[..k], alt), ns[k]) && Has(PointAll(dist, prev, ns[..k], alt, u), ns[k])
    ensures LowerAll(dist, ns[..k + 1], alt) == Lower(LowerAll(dist, ns[..k], alt), ns[k], alt)
    ensures PointAll(dist, prev, ns[..k + 1], alt, u)
            == Point(LowerAll(dist, ns[..k], alt), PointAll(dist, prev, ns[..k], alt, u), ns[k], alt, u)
  {
    assert ns[..k + 1][..k] == ns[..k];
  }

  /** The state just after a pop with a finite distance: as `Searching`, but
      the cell popped last has not had its neighbours relaxed and may be the
      goal. */
  ghost predicate Popped(grid: seq<seq<Cell>>, numRows: nat, numCols: nat, start: Coord, end: Coord,
                         dist: seq<seq<Dist>>, prev: seq<seq<Option<Cell>>>,
                         unvisited: seq<Cell>, visited: seq<Cell>, shortest: seq<nat>, routes: map<Coord, seq<Cell>>)
  {
    && |visited| > 0
    && Core(grid, numRows, numCols, start, end, dist, prev, unvisited, visited, shortest, routes)
    && Relaxed(grid, dist, visited, shortest, |visited| - 1)
    && GoalPending(end, visited[..|visited| - 1])
  }

  /** The state the main loop starts in: only the start has a finite
      distance, nothing has a predecessor, nothing is visited, and every open
      cell is unvisited, once. */
  lemma Initially(grid: seq<seq<Cell>>, numRows: nat, numCols: nat, start: Coord, end: Coord, unvisited: seq<Cell>)
    requires WellFormed(grid, numRows, numCols)
    requires InBounds(numRows, numCols, start) && InBounds(numRows, numCols, end)
    requires forall x :: x in unvisited <==> Open(grid, x)
    requires forall x :: x in unvisited ==> multiset(unvisited)[x] == 1
    ensures Table(Blank(numRows, numCols, Inf), numRows, numCols)
    ensures Searching(grid, numRows, numCols, start, end,
                      Updated(Blank(numRows, numCols, Inf), start.row, start.col, Fin(0)),
                      Blank(numRows, numCols, None), unvisited, [], [],
                      map[start := [grid[start.row][start.col]]])
  {
    var dist: seq<seq<Dist>> := Updated(Blank(numRows, numCols, Inf), start.row, start.col, Fin(0));
    var prev: seq<seq<Option<Cell>>> := Blank(numRows, numCols, None);
    var routes := map[start := [grid[start.row][start.col]]];
    assert Witnessed(grid, numRows, numCols, start, dist, routes) by {
      forall r, c | 0 <= r < numRows && 0 <= c < numCols && dist[r][c].Fin? && Open(grid, grid[r][c])
        ensures Coord(r, c) in routes && RouteFromTo(grid, routes[Coord(r, c)], start, Coord(r, c))
        ensures |routes[Coord(r, c)]| == dist[r][c].n + 1
      {
        assert r == start.row && c == start.col;
      }
    }
  }

  /** With nothing visited, the `prev` table allows a finite distance only at
      the start. */
  lemma OnlyStartFinite(grid: seq<seq<Cell>>, numRows: nat, numCols: nat, start: Coord,
                        dist: seq<seq<Dist>>, prev: seq<seq<Option<Cell>>>, x: Cell)
    requires Shaped(grid, numRows, numCols, dist, prev) && InBounds(numRows, numCols, start)
    requires Links(grid, numRows, numCols, start, dist, prev, [])
    requires Open(grid, x) && dist[x.row][x.col].Fin?
    ensures Pos(x) == start
  {
  }

  /** Adding a cell to the visited list keeps every `prev` entry pointing at a
      visited cell. */
  lemma LinksGrow(grid: seq<seq<Cell>>, numRows: nat, numCols: nat, start: Coord,
                  dist: seq<seq<Dist>>, prev: seq<seq<Option<Cell>>>, visited: seq<Cell>, x: Cell)
    requires Shaped(grid, numRows, numCols, dist, prev) && InBounds(numRows, numCols, start)
    requires Links(grid, numRows, numCols, start, dist, prev, visited)
    ensures Links(grid, numRows, numCols, start, dist, prev, visited + [x])
  {
    forall r, c | 0 <= r < numRows && 0 <= c < numCols && prev[r][c].Some?
      ensures LinkedTo(grid, dist, visited + [x], grid[r][c], prev[r][c].value)
    {
      assert LinkedTo(grid, dist, visited, grid[r][c], prev[r][c].value);
    }
  }

  /** Popping the closest unvisited cell when its distance is finite: it is
      visited, with its distance settled as the shortest-route distance. */
  lemma Visit(grid: seq<seq<Cell>>, numRows: nat, numCols: nat, start: Coord, end: Coord,
              dist: seq<seq<Dist>>, prev: seq<seq<Option<Cell>>>,
              unvisited: seq<Cell>, visited: seq<Cell>, shortest: seq<nat>, routes: map<Coord, seq<Cell>>,
              sorted: seq<Cell>)
    requires Searching(grid, numRows, numCols, start, end, dist, prev, unvisited, visited, shortest, routes)
    requires multiset(sorted) == multiset(unvisited) && FirstIsLeast(dist, sorted)
    requires dist[sorted[0].row][sorted[0].col].Fin?
    ensures Popped(grid, numRows, numCols, start, end, dist, prev, sorted[1..], visited + [sorted[0]],
                   shortest + [dist[sorted[0].row][sorted[0].col].n], routes)
  {
    var x := sorted[0];
    var visited' := visited + [x];
    VisitSettles(grid, numRows, numCols, start, end, dist, prev, unvisited, visited, shortest, routes, sorted);
    PopKeepsPool(grid, unvisited, visited, sorted);
    LinksGrow(grid, numRows, numCols, start, dist, prev, visited, x);
    assert visited'[..|visited'| - 1] == visited;
    if visited == [] {
      assert x in multiset(unvisited);
      OnlyStartFinite(grid, numRows, numCols, start, dist, prev, x);
    }
  }

  /** The distance bookkeeping of `Visit`: the popped distance is recorded,
      settled and no smaller than any earlier one, and bounds the rest. */
  lemma VisitSettles(grid: seq<seq<Cell>>, numRows: nat, numCols: nat, start: Coord, end: Coord,
                     dist: seq<seq<Dist>>, prev: seq<seq<Option<Cell>>>,
                     unvisited: seq<Cell>, visited: seq<Cell>, shortest: seq<nat>, routes: map<Coord, seq<Cell>>,
                     sorted: seq<Cell>)
    requires Searching(grid, numRows, numCols, start, end, dist, prev, unvisited, visited, shortest, routes)
    requires multiset(sorted) == multiset(unvisited) && FirstIsLeast(dist, sorted)
    requires dist[sorted[0].row][sorted[0].col].Fin?
    ensures var visited', shortest' := visited + [sorted[0]], shortest + [dist[sorted[0].row][sorted[0].col].n];
      && Recorded(dist, visited', shortest')
      && Settled(grid, start, visited', shortest')
      && Frontier(dist, sorted[1..], LastPopped(shortest'))
      && Relaxed(grid, dist, visited', shortest', |visited'| - 1)
  {
    var x := sorted[0];
    var d := dist[x.row][x.col].n;
    PopIsShortest(grid, numRows, numCols, start, dist, prev, unvisited, visited, shortest, routes, sorted);
    PopFrontier(dist, unvisited, sorted, LastPopped(shortest));
    Grown(grid, start, dist, visited, shortest, x, d);
  }

  /** Appending a cell popped at distance `d`, no smaller than the last
      distance popped and shortest for it, to the visited list. */
  lemma Grown(grid: seq<seq<Cell>>, start: Coord, dist: seq<seq<Dist>>, visited: seq<Cell>, shortest: seq<nat>, x: Cell, d: nat)
    requires Recorded(dist, visited, shortest) && Settled(grid, start, visited, shortest)
    requires Relaxed(grid, dist, visited, shortest, |visited|)
    requires Has(dist, x) && dist[x.row][x.col] == Fin(d)
    requires LastPopped(shortest) <= d && ShortestIs(grid, start, Pos(x), d)
    ensures Recorded(dist, visited + [x], shortest + [d])
    ensures Settled(grid, start, visited + [x], shortest + [d])
    ensures Relaxed(grid, dist, visited + [x], shortest + [d], |visited|)
    ensures LastPopped(shortest + [d]) == d
  {
    var visited', shortest' := visited + [x], shortest + [d];
    assert forall i :: 0 <= i < |visited| ==> visited'[i] == visited[i] && shortest'[i] == shortest[i];
    SettledGrown(grid, start, visited, shortest, x, d);
  }

  /** The settled distances stay non-decreasing and shortest when one no
      smaller than the last is appended. */
  lemma SettledGrown(grid: seq<seq<Cell>>, start: Coord, visited: seq<Cell>, shortest: seq<nat>, x: Cell, d: nat)
    requires Settled(grid, start, visited, shortest)
    requires LastPopped(shortest) <= d && ShortestIs(grid, start, Pos(x), d)
    ensures Settled(grid, start, visited + [x], shortest + [d])
  {
    var visited', shortest' := visited + [x], shortest + [d];
    assert forall i :: 0 <= i < |shortest| ==> shortest[i] <= LastPopped(shortest);
    forall i | 0 <= i < |visited'|
      ensures ShortestIs(grid, start, Pos(visited'[i]), shortest'[i])
    {
      if i < |visited| {
        assert visited'[i] == visited[i] && shortest'[i] == shortest[i];
      }
    }
  }

  /** Popping the goal ends the search: the goal is the last cell visited. */
  lemma GoalReached(grid: seq<seq<Cell>>, numRows: nat, numCols: nat, start: Coord, end: Coord,
                    dist: seq<seq<Dist>>, prev: seq<seq<Option<Cell>>>,
                    unvisited: seq<Cell>, visited: seq<Cell>, shortest: seq<nat>, routes: map<Coord, seq<Cell>>)
    requires Popped(grid, numRows, numCols, start, end, dist, prev, unvisited, visited, shortest, routes)
    requires Pos(visited[|visited| - 1]) == end
    ensures Concluded(grid, numRows, numCols, start, end, dist, prev, visited, shortest)
  {
    assert forall i :: 0 <= i < |visited| - 1 ==> visited[..|visited| - 1][i] == visited[i];
    assert !GoalPending(end, visited);
  }

  /** A pop with an infinite distance ends the search: no unvisited cell has
      a finite distance. */
  lemma StopsAtInfinity(grid: seq<seq<Cell>>, numRows: nat, numCols: nat, start: Coord, end: Coord,
                        dist: seq<seq<Dist>>, prev: seq<seq<Option<Cell>>>,
                        unvisited: seq<Cell>, visited: seq<Cell>, shortest: seq<nat>, routes: map<Coord, seq<Cell>>,
                        sorted: seq<Cell>)
    requires Searching(grid, numRows, numCols, start, end, dist, prev, unvisited, visited, shortest, routes)
    requires multiset(sorted) == multiset(unvisited) && FirstIsLeast(dist, sorted)
    requires dist[sorted[0].row][sorted[0].col] == Inf
    ensures Concluded(grid, numRows, numCols, start, end, dist, prev, visited, shortest)
  {
    forall x | x in unvisited
      ensures Has(dist, x) && dist[x.row][x.col] == Inf
    {
      assert x in multiset(sorted);
      var k :| 0 <= k < |sorted| && sorted[k] == x;
    }
    Exhausts(grid, numRows, numCols, start, end, dist, prev, unvisited, visited, shortest, routes);
  }

  /** The cell popped last has the distance `LastPopped(shortest)`, and every
      shorter distance was popped earlier. */
  lemma PoppedLast(grid: seq<seq<Cell>>, numRows: nat, numCols: nat, start: Coord, end: Coord,
                   dist: seq<seq<Dist>>, prev: seq<seq<Option<Cell>>>,
                   unvisited: seq<Cell>, visited: seq<Cell>, shortest: seq<nat>, routes: map<Coord, seq<Cell>>)
    requires Popped(grid, numRows, numCols, start, end, dist, prev, unvisited, visited, shortest, routes)
    ensures Open(grid, visited[|visited| - 1]) && Has(dist, visited[|visited| - 1])
    ensures dist[visited[|visited| - 1].row][visited[|visited| - 1].col] == Fin(LastPopped(shortest))
    ensures forall i :: 0 <= i < |shortest| ==> shortest[i] <= LastPopped(shortest)
  {
  }

  /** Lowering the distance of an open neighbour `neighbor` of the cell popped
      last to one more than that cell's distance, when that is below its
      current distance, keeps the state of the search consistent. The route
      to the popped cell extended by `neighbor` witnesses the new distance. */
  lemma LowerStep(grid: seq<seq<Cell>>, numRows: nat, numCols: nat, start: Coord, end: Coord,
                  dist: seq<seq<Dist>>, prev: seq<seq<Option<Cell>>>,
                  unvisited: seq<Cell>, visited: seq<Cell>, shortest: seq<nat>, routes: map<Coord, seq<Cell>>,
                  neighbor: Cell)
      returns (routes': map<Coord, seq<Cell>>)
    requires Popped(grid, numRows, numCols, start, end, dist, prev, unvisited, visited, shortest, routes)
    requires Open(grid, neighbor) && Adjacent(visited[|visited| - 1], neighbor)
    requires Below(Fin(LastPopped(shortest) + 1), dist[neighbor.row][neighbor.col])
    ensures Popped(grid, numRows, numCols, start, end,
                   Updated(dist, neighbor.row, neighbor.col, Fin(LastPopped(shortest) + 1)),
                   Updated(prev, neighbor.row, neighbor.col, Some(visited[|visited| - 1])),
                   unvisited, visited, shortest, routes')
  {
    var closest := visited[|visited| - 1];
    var alt := LastPopped(shortest) + 1;
    PoppedLast(grid, numRows, numCols, start, end, dist, prev, unvisited, visited, shortest, routes);
    assert neighbor !in visited;
    assert grid[closest.row][closest.col] == closest;
    RouteExtend(grid, routes[Pos(closest)], start, neighbor);
    var route := routes[Pos(closest)] + [neighbor];
    routes' := routes[Pos(neighbor) := route];
    LinksAfterLowering(grid, numRows, numCols, start, dist, prev, visited, closest, neighbor, alt);
    WitnessedAfterLowering(grid, numRows, numCols, start, dist, routes, neighbor, alt, route);
    BoundsAfterLowering(grid, numRows, numCols, dist, unvisited, visited, shortest, |visited| - 1, neighbor, alt);
  }

  /** After the neighbours of the cell popped last are relaxed, the search
      continues unless that cell was the goal. */
  lemma Continue(grid: seq<seq<Cell>>, numRows: nat, numCols: nat, start: Coord, end: Coord,
                 dist: seq<seq<Dist>>, prev: seq<seq<Option<Cell>>>,
                 unvisited: seq<Cell>, visited: seq<Cell>, shortest: seq<nat>, routes: map<Coord, seq<Cell>>)
    requires Popped(grid, numRows, numCols, start, end, dist, prev, unvisited, visited, shortest, routes)
    requires Relaxed(grid, dist, visited, shortest, |visited|)
    requires Pos(visited[|visited| - 1]) != end
    ensures Searching(grid, numRows, numCols, start, end, dist, prev, unvisited, visited, shortest, routes)
  {
    StillPending(end, visited);
  }

  /** A goal not visited before the last pop, and not popped last, has not
      been visited at all. */
  lemma StillPending(end: Coord, visited: seq<Cell>)
    requires |visited| > 0 && GoalPending(end, visited[..|visited| - 1])
    requires Pos(visited[|visited| - 1]) != end
    ensures GoalPending(end, visited)
  {
    forall i | 0 <= i < |visited| - 1
      ensures Pos(visited[i]) != end
    {
      assert visited[i] == visited[..|visited| - 1][i];
    }
  }

  /** Relaxing the neighbours `ns` of the cell popped last one after the
      other keeps the state of the search consistent. */
  lemma RelaxPrefix(grid: seq<seq<Cell>>, numRows: nat, numCols: nat, start: Coord, end: Coord,
                    dist: seq<seq<Dist>>, prev: seq<seq<Option<Cell>>>,
                    unvisited: seq<Cell>, visited: seq<Cell>, shortest: seq<nat>, routes: map<Coord, seq<Cell>>,
                    ns: seq<Cell>)
      returns (routes': map<Coord, seq<Cell>>)
    requires Popped(grid, numRows, numCols, start, end, dist, prev, unvisited, visited, shortest, routes)
    requires forall i :: 0 <= i < |ns| ==> Open(grid, ns[i]) && Adjacent(visited[|visited| - 1], ns[i])
    requires HasAll(dist, ns) && HasAll(prev, ns)
    ensures HasAll(dist, ns[..|ns|]) && HasAll(prev, ns[..|ns|])
    ensures Popped(grid, numRows, numCols, start, end,
                   LowerAll(dist, ns[..|ns|], LastPopped(shortest) + 1),
                   PointAll(dist, prev, ns[..|ns|], LastPopped(shortest) + 1, visited[|visited| - 1]),
                   unvisited, visited, shortest, routes')
  {
    routes' := PrefixZero(grid, numRows, numCols, start, end, dist, prev, unvisited, visited, shortest, routes, ns);
    for k := 0 to |ns|
      invariant HasAll(dist, ns[..k]) && HasAll(prev, ns[..k])
      invariant Popped(grid, numRows, numCols, start, end,
                       LowerAll(dist, ns[..k], LastPopped(shortest) + 1),
                       PointAll(dist, prev, ns[..k], LastPopped(shortest) + 1, visited[|visited| - 1]),
                       unvisited, visited, shortest, routes')
    {
      routes' := PrefixStep(grid, numRows, numCols, start, end, dist, prev, unvisited, visited, shortest, routes', ns, k + 1);
    }
  }

  /** Relaxing none of the neighbours leaves the state as it was. */
  lemma PrefixZero(grid: seq<seq<Cell>>, numRows: nat, numCols: nat, start: Coord, end: Coord,
                   dist: seq<seq<Dist>>, prev: seq<seq<Option<Cell>>>,
                   unvisited: seq<Cell>, visited: seq<Cell>, shortest: seq<nat>, routes: map<Coord, seq<Cell>>,
                   ns: seq<Cell>)
      returns (routes': map<Coord, seq<Cell>>)
    requires Popped(grid, numRows, numCols, start, end, dist, prev, unvisited, visited, shortest, routes)
    ensures HasAll(dist, ns[..0]) && HasAll(prev, ns[..0])
    ensures Popped(grid, numRows, numCols, start, end,
                   LowerAll(dist, ns[..0], LastPopped(shortest) + 1),
                   PointAll(dist, prev, ns[..0], LastPopped(shortest) + 1, visited[|visited| - 1]),
                   unvisited, visited, shortest, routes')
  {
    assert ns[..0] == [];
    routes' := routes;
  }

  /** Relaxing the `k`-th neighbour after the first `k - 1` keeps the state of
      the search consistent. */
  lemma PrefixStep(grid: seq<seq<Cell>>, numRows: nat, numCols: nat, start: Coord, end: Coord,
                   dist: seq<seq<Dist>>, prev: seq<seq<Option<Cell>>>,
                   unvisited: seq<Cell>, visited: seq<Cell>, shortest: seq<nat>, routes: map<Coord, seq<Cell>>,
                   ns: seq<Cell>, k: nat)
      returns (routes': map<Coord, seq<Cell>>)
    requires |visited| > 0 && |shortest| == |visited|
    requires forall i :: 0 <= i < |ns| ==> Open(grid, ns[i]) && Adjacent(visited[|visited| - 1], ns[i])
    requires HasAll(dist, ns) && HasAll(prev, ns) && 0 < k <= |ns|
    requires HasAll(dist, ns[..k - 1]) && HasAll(prev, ns[..k - 1])
    requires Popped(grid, numRows, numCols, start, end,
                    LowerAll(dist, ns[..k - 1], LastPopped(shortest) + 1),
                    PointAll(dist, prev, ns[..k - 1], LastPopped(shortest) + 1, visited[|visited| - 1]),
                    unvisited, visited, shortest, routes)
    ensures HasAll(dist, ns[..k]) && HasAll(prev, ns[..k])
    ensures Popped(grid, numRows, numCols, start, end,
                   LowerAll(dist, ns[..k], LastPopped(shortest) + 1),
                   PointAll(dist, prev, ns[..k], LastPopped(shortest) + 1, visited[|visited| - 1]),
                   unvisited, visited, shortest, routes')
  {
    var alt, closest := LastPopped(shortest) + 1, visited[|visited| - 1];
    RelaxStep(dist, prev, ns, k - 1, alt, closest);
    var d0: seq<seq<Dist>>, p0: seq<seq<Option<Cell>>> := LowerAll(dist, ns[..k - 1], alt), PointAll(dist, prev, ns[..k - 1], alt, closest);
    routes' := RelaxOne(grid, numRows, numCols, start, end, d0, p0, unvisited, visited, shortest, routes, ns[k - 1]);
    assert LowerAll(dist, ns[..k], alt) == Lower(d0, ns[k - 1], alt);
    assert PointAll(dist, prev, ns[..k], alt, closest) == Point(d0, p0, ns[k - 1], alt, closest);
  }

  /** One step of the inner loop keeps the state of the search consistent,
      whether or not it lowers the neighbour's distance. */
  lemma RelaxOne(grid: seq<seq<Cell>>, numRows: nat, numCols: nat, start: Coord, end: Coord,
                 dist: seq<seq<Dist>>, prev: seq<seq<Option<Cell>>>,
                 unvisited: seq<Cell>, visited: seq<Cell>, shortest: seq<nat>, routes: map<Coord, seq<Cell>>,
                 n: Cell)
      returns (routes': map<Coord, seq<Cell>>)
    requires Popped(grid, numRows, numCols, start, end, dist, prev, unvisited, visited, shortest, routes)
    requires Open(grid, n) && Adjacent(visited[|visited| - 1], n)
    requires Has(dist, n) && Has(prev, n)
    ensures Popped(grid, numRows, numCols, start, end,
                   Lower(dist, n, LastPopped(shortest) + 1), Point(dist, prev, n, LastPopped(shortest) + 1, visited[|visited| - 1]),
                   unvisited, visited, shortest, routes')
  {
    var alt, closest := LastPopped(shortest) + 1, visited[|visited| - 1];
    var d1: seq<seq<Dist>>, p1: seq<seq<Option<Cell>>> := Lower(dist, n, alt), Point(dist, prev, n, alt, closest);
    if Below(Fin(alt), dist[n.row][n.col]) {
      routes' := LowerStep(grid, numRows, numCols, start, end, dist, prev, unvisited, visited, shortest, routes, n);
      assert d1 == Updated(dist, n.row, n.col, Fin(alt)) && p1 == Updated(prev, n.row, n.col, Some(closest));
    } else {
      routes' := routes;
      assert d1 == dist && p1 == prev;
    }
    assert Popped(grid, numRows, numCols, start, end, d1, p1, unvisited, visited, shortest, routes');
  }

  /** Relaxing the first `k` cells of `ns` with distance `alt` leaves each of
      them with a distance of at most `alt`. */
  lemma LowerAllBound(dist: seq<seq<Dist>>, ns: seq<Cell>, k: nat, alt: nat)
    requires HasAll(dist, ns) && k <= |ns|
    ensures HasAll(dist, ns[..k])
    ensures var d := LowerAll(dist, ns[..k], alt);
      forall m :: 0 <= m < k ==> Has(d, ns[m]) && d[ns[m].row][ns[m].col].Fin? && d[ns[m].row][ns[m].col].n <= alt
  {
    assert ns[..0] == [];
    for j := 0 to k
      invariant HasAll(dist, ns[..j])
      invariant var d := LowerAll(dist, ns[..j], alt);
        forall m :: 0 <= m < j ==> Has(d, ns[m]) && d[ns[m].row][ns[m].col].Fin? && d[ns[m].row][ns[m].col].n <= alt
    {
      LowerAllStep(dist, ns, j, alt);
      var d0 := LowerAll(dist, ns[..j], alt);
      var d1 := LowerAll(dist, ns[..j + 1], alt);
      assert d1 == Lower(d0, ns[j], alt);
      assert !Below(Fin(alt), d1[ns[j].row][ns[j].col]);
      BoundKept(d0, d1, ns, j, alt);
    }
  }

  /** Relaxing one more cell extends the distance fold by one step. */
  lemma LowerAllStep(dist: seq<seq<Dist>>, ns: seq<Cell>, k: nat, alt: nat)
    requires HasAll(dist, ns) && k < |ns|
    ensures HasAll(dist, ns[..k]) && HasAll(dist, ns[..k + 1])
    ensures Has(LowerAll(dist, ns[..k], alt), ns[k])
    ensures LowerAll(dist, ns[..k + 1], alt) == Lower(LowerAll(dist, ns[..k], alt), ns[k], alt)
  {
    assert ns[..k + 1][..k] == ns[..k];
  }

  /** Relaxing one more neighbour lowers no distance into a larger one, so
      the neighbours already relaxed keep their bound. */
  lemma BoundKept(before: seq<seq<Dist>>, after: seq<seq<Dist>>, ns: seq<Cell>, k: nat, bound: nat)
    requires k < |ns|
    requires |after| == |before| && forall r :: 0 <= r < |before| ==> |after[r]| == |before[r]|
    requires forall r, c :: 0 <= r < |before| && 0 <= c < |before[r]| ==> !Below(before[r][c], after[r][c])
    requires forall m :: 0 <= m < k ==>
               Has(before, ns[m]) && before[ns[m].row][ns[m].col].Fin? && before[ns[m].row][ns[m].col].n <= bound
    requires Has(after, ns[k]) && after[ns[k].row][ns[k].col].Fin? && after[ns[k].row][ns[k].col].n <= bound
    ensures forall m :: 0 <= m < k + 1 ==>
              Has(after, ns[m]) && after[ns[m].row][ns[m].col].Fin? && after[ns[m].row][ns[m].col].n <= bound
  {
  }

  /** Relaxing the neighbours of the last visited cell extends the relaxed
      prefix to the whole visited list. */
  lemma RelaxedExtend(grid: seq<seq<Cell>>, dist: seq<seq<Dist>>, visited: seq<Cell>, shortest: seq<nat>)
    requires 0 < |visited| == |shortest|
    requires Relaxed(grid, dist, visited, shortest, |visited| - 1)
    requires RelaxedFrom(grid, dist, visited[|visited| - 1], LastPopped(shortest))
    ensures Relaxed(grid, dist, visited, shortest, |visited|)
  {
  }
}
