/** `dijkstra(grid, startNode, endNode, numRows, numCols)`: the search, over
    the `distances` and `prev` arrays it updates in place, and the
    reconstruction of the path from `prev`. */
module ShortestPath {
  import opened Grid
  import opened Routes
  import opened Neighbors
  import opened Distances
  import opened Unvisited
  import opened SearchState
  import opened ObstacleFree

  /** The search. Every open cell starts unvisited; each round sorts the
      unvisited cells by distance, takes the first, stops if its distance is
      infinite, visits it, stops if it is the goal, and otherwise relaxes its
      neighbours. The path is then rebuilt from `prev`. `shortest` records
      the distance each cell was visited at. */
  method Dijkstra(grid: seq<seq<Cell>>, startNode: Coord, endNode: Coord, numRows: nat, numCols: nat)
      returns (visitedNodesInOrder: seq<Cell>, path: seq<Cell>, ghost shortest: seq<nat>)
    requires WellFormed(grid, numRows, numCols)
    requires InBounds(numRows, numCols, startNode) && InBounds(numRows, numCols, endNode)
    // The visited cells: open, each once, the start first, at non-decreasing
    // distances that are the shortest-route distances, the goal only last.
    ensures forall i :: 0 <= i < |visitedNodesInOrder| ==> Open(grid, visitedNodesInOrder[i])
    ensures forall i, j :: 0 <= i < j < |visitedNodesInOrder| ==> visitedNodesInOrder[i] != visitedNodesInOrder[j]
    ensures StartFirst(grid, numRows, numCols, startNode, visitedNodesInOrder)
    ensures Open(grid, grid[startNode.row][startNode.col]) ==>
              visitedNodesInOrder != [] && visitedNodesInOrder[0] == grid[startNode.row][startNode.col]
    ensures |shortest| == |visitedNodesInOrder|
    ensures forall i, j :: 0 <= i <= j < |shortest| ==> shortest[i] <= shortest[j]
    ensures forall i :: 0 <= i < |visitedNodesInOrder| ==>
              ShortestIs(grid, startNode, Pos(visitedNodesInOrder[i]), shortest[i])
    ensures forall i :: 0 <= i < |visitedNodesInOrder| - 1 ==> Pos(visitedNodesInOrder[i]) != endNode
    // Without the goal, the search visits exactly the cells reachable from the start.
    ensures forall x :: x in visitedNodesInOrder ==> Reachable(grid, startNode, Pos(x))
    ensures GoalPending(endNode, visitedNodesInOrder) ==>
              forall x :: Open(grid, x) ==> (x in visitedNodesInOrder <==> Reachable(grid, startNode, Pos(x)))
    ensures !Reachable(grid, startNode, endNode) ==> GoalPending(endNode, visitedNodesInOrder)
    // The path: a shortest route when the goal is reachable, empty otherwise.
    ensures Open(grid, grid[startNode.row][startNode.col]) ==>
              && (path != [] <==> Reachable(grid, startNode, endNode))
              && (path != [] ==> RouteFromTo(grid, path, startNode, endNode) && ShortestIs(grid, startNode, endNode, |path| - 1))
    ensures !Open(grid, grid[startNode.row][startNode.col]) ==>
              && visitedNodesInOrder == []
              && path == if startNode == endNode then [grid[startNode.row][startNode.col]] else []
    ensures Open(grid, grid[startNode.row][startNode.col]) && startNode == endNode ==>
              visitedNodesInOrder == [grid[startNode.row][startNode.col]] && path == [grid[startNode.row][startNode.col]]
    ensures Unblocked(grid, numRows, numCols) ==> |path| == Manhattan(startNode, endNode) + 1
  {
    var distances: array2<Dist>, prev: array2<Option<Cell>>;
    ghost var dist: seq<seq<Dist>>, links: seq<seq<Option<Cell>>>;
    visitedNodesInOrder, distances, prev, dist, links, shortest := Search(grid, startNode, endNode, numRows, numCols);
    path := BuildPath(grid, numRows, numCols, startNode, endNode, prev, dist, links, visitedNodesInOrder);
    Outcome(grid, numRows, numCols, startNode, endNode, dist, links, visitedNodesInOrder, shortest, path);
  }

  /** The main loop, `while (unvisited.length)`, over the `distances` and
      `prev` tables it fills in. It ends concluded: the goal, if visited, was
      visited last, and otherwise every cell reachable from the start was. */
  method Search(grid: seq<seq<Cell>>, startNode: Coord, endNode: Coord, numRows: nat, numCols: nat)
      returns (visitedNodesInOrder: seq<Cell>, distances: array2<Dist>, prev: array2<Option<Cell>>,
               ghost dist: seq<seq<Dist>>, ghost links: seq<seq<Option<Cell>>>, ghost shortest: seq<nat>)
    requires WellFormed(grid, numRows, numCols)
    requires InBounds(numRows, numCols, startNode) && InBounds(numRows, numCols, endNode)
    ensures Mirrors(distances, dist) && Mirrors(prev, links)
    ensures Concluded(grid, numRows, numCols, startNode, endNode, dist, links, visitedNodesInOrder, shortest)
  {
    distances, prev, dist, links := InitTables(numRows, numCols, startNode);
    var unvisited := CollectUnblocked(grid, numRows, numCols);
    ScanOrderedOnce(unvisited);
    Initially(grid, numRows, numCols, startNode, endNode, unvisited);
    ghost var routes := map[startNode := [grid[startNode.row][startNode.col]]];
    visitedNodesInOrder, shortest := [], [];
    ghost var concluded := false;
    while unvisited != []
      invariant Mirrors(distances, dist) && Mirrors(prev, links)
      invariant !concluded
      invariant Searching(grid, numRows, numCols, startNode, endNode, dist, links, unvisited, visitedNodesInOrder, shortest, routes)
      decreases |unvisited|
    {
      PoolInArray(grid, numRows, numCols, distances, dist, unvisited);
      var sorted, order := SortByDistance(unvisited, distances);
      SortedFirstIsLeast(distances, dist, sorted);
      var closest := sorted[0];
      if distances[closest.row, closest.col] == Inf {
        StopsAtInfinity(grid, numRows, numCols, startNode, endNode, dist, links, unvisited, visitedNodesInOrder, shortest, routes, sorted);
        concluded := true;
        break;
      }
      Visit(grid, numRows, numCols, startNode, endNode, dist, links, unvisited, visitedNodesInOrder, shortest, routes, sorted);
      unvisited := sorted[1..];
      visitedNodesInOrder := visitedNodesInOrder + [closest];
      shortest := shortest + [dist[closest.row][closest.col].n];
      if closest.row == endNode.row && closest.col == endNode.col {
        GoalReached(grid, numRows, numCols, startNode, endNode, dist, links, unvisited, visitedNodesInOrder, shortest, routes);
        concluded := true;
        break;
      }
      dist, links, routes := Expand(grid, numRows, numCols, startNode, endNode, distances, prev, closest,
                                    dist, links, unvisited, visitedNodesInOrder, shortest, routes);
    }
    if !concluded {
      Exhausts(grid, numRows, numCols, startNode, endNode, dist, links, unvisited, visitedNodesInOrder, shortest, routes);
    }
  }

  /** The inner `for` over the neighbours of the cell just visited, which
      was not the goal: the search goes on. */
  method Expand(grid: seq<seq<Cell>>, numRows: nat, numCols: nat, startNode: Coord, endNode: Coord,
                distances: array2<Dist>, prev: array2<Option<Cell>>, closest: Cell,
                ghost dist: seq<seq<Dist>>, ghost links: seq<seq<Option<Cell>>>, ghost unvisited: seq<Cell>,
                ghost visited: seq<Cell>, ghost shortest: seq<nat>, ghost routes: map<Coord, seq<Cell>>)
      returns (ghost dist': seq<seq<Dist>>, ghost links': seq<seq<Option<Cell>>>, ghost routes': map<Coord, seq<Cell>>)
    modifies distances, prev
    requires Mirrors(distances, dist) && Mirrors(prev, links)
    requires Popped(grid, numRows, numCols, startNode, endNode, dist, links, unvisited, visited, shortest, routes)
    requires closest == visited[|visited| - 1] && Pos(closest) != endNode
    ensures Mirrors(distances, dist') && Mirrors(prev, links')
    ensures var ns, alt := GetNeighbors(closest, grid, numRows, numCols), LastPopped(shortest) + 1;
      && HasAll(dist, ns) && HasAll(links, ns)
      && dist' == LowerAll(dist, ns, alt) && links' == PointAll(dist, links, ns, alt, closest)
    ensures Searching(grid, numRows, numCols, startNode, endNode, dist', links', unvisited, visited, shortest, routes')
  {
    routes' := RelaxedAll(grid, numRows, numCols, startNode, endNode, dist, links, unvisited, visited, shortest, routes);
    ghost var alt, ns := LastPopped(shortest) + 1, GetNeighbors(closest, grid, numRows, numCols);
    assert dist[closest.row][closest.col].n + 1 == alt;
    dist', links' := RelaxNeighbors(grid, numRows, numCols, distances, prev, closest, dist, links);
    assert dist' == LowerAll(dist, ns, alt) && links' == PointAll(dist, links, ns, alt, closest);
    Continue(grid, numRows, numCols, startNode, endNode, dist', links', unvisited, visited, shortest, routes');
  }

  /** The unvisited cells are open, so they index the distance array. */
  lemma PoolInArray(grid: seq<seq<Cell>>, numRows: nat, numCols: nat,
                    distances: array2<Dist>, dist: seq<seq<Dist>>, unvisited: seq<Cell>)
    requires WellFormed(grid, numRows, numCols) && Table(dist, numRows, numCols) && Mirrors(distances, dist)
    requires forall x :: x in unvisited ==> Open(grid, x)
    ensures InArray(distances, unvisited)
  {
    forall i | 0 <= i < |unvisited|
      ensures Fits(distances, unvisited[i])
    {
      var x := unvisited[i];
      assert x in unvisited;
      assert |grid[x.row]| == numCols == |dist[x.row]|;
    }
  }

  /** The promises of `Dijkstra`, from the concluded state and the rebuilt
      path. */
  lemma Outcome(grid: seq<seq<Cell>>, numRows: nat, numCols: nat, start: Coord, end: Coord,
                dist: seq<seq<Dist>>, links: seq<seq<Option<Cell>>>, visited: seq<Cell>, shortest: seq<nat>,
                path: seq<Cell>)
    requires Concluded(grid, numRows, numCols, start, end, dist, links, visited, shortest)
    requires Rebuilt(grid, numRows, numCols, start, end, dist, path)
    ensures forall i :: 0 <= i < |visited| ==> Open(grid, visited[i])
    ensures forall i, j :: 0 <= i < j < |visited| ==> visited[i] != visited[j]
    ensures StartFirst(grid, numRows, numCols, start, visited)
    ensures Open(grid, grid[start.row][start.col]) ==> visited != [] && visited[0] == grid[start.row][start.col]
    ensures |shortest| == |visited|
    ensures forall i, j :: 0 <= i <= j < |shortest| ==> shortest[i] <= shortest[j]
    ensures forall i :: 0 <= i < |visited| ==> ShortestIs(grid, start, Pos(visited[i]), shortest[i])
    ensures forall i :: 0 <= i < |visited| - 1 ==> Pos(visited[i]) != end
    ensures forall x :: x in visited ==> Reachable(grid, start, Pos(x))
    ensures GoalPending(end, visited) ==>
              forall x :: Open(grid, x) ==> (x in visited <==> Reachable(grid, start, Pos(x)))
    ensures !Reachable(grid, start, end) ==> GoalPending(end, visited)
    ensures Open(grid, grid[start.row][start.col]) ==>
              && (path != [] <==> Reachable(grid, start, end))
              && (path != [] ==> RouteFromTo(grid, path, start, end) && ShortestIs(grid, start, end, |path| - 1))
    ensures !Open(grid, grid[start.row][start.col]) ==>
              && visited == []
              && path == if start == end then [grid[start.row][start.col]] else []
    ensures Open(grid, grid[start.row][start.col]) && start == end ==>
              visited == [grid[start.row][start.col]] && path == [grid[start.row][start.col]]
    ensures Unblocked(grid, numRows, numCols) ==> |path| == Manhattan(start, end) + 1
  {
    VisitedReachable(grid, numRows, numCols, start, end, dist, links, visited, shortest);
    if Open(grid, grid[start.row][start.col]) {
      StartVisited(grid, numRows, numCols, start, end, dist, links, visited, shortest);
      PathFound(grid, numRows, numCols, start, end, dist, links, visited, shortest, path);
      if start == end {
        StartIsGoal(grid, numRows, numCols, start, end, dist, links, visited, shortest, path);
      }
    } else {
      BlockedStart(grid, numRows, numCols, start, end, dist, links, visited, shortest, path);
    }
    if Unblocked(grid, numRows, numCols) {
      ShortestIsManhattan(grid, numRows, numCols, start, end);
      var route := Staircase(grid, numRows, numCols, start, end);
      ShortestUnique(grid, start, end, |path| - 1, Manhattan(start, end));
    }
  }

  /** The array `a` holds the table `t`, entry for entry. */
  ghost predicate Mirrors<T>(a: array2<T>, t: seq<seq<T>>)
    reads a
  {
    && a.Length0 == |t|
    && (forall r :: 0 <= r < |t| ==> |t[r]| == a.Length1)
    && (forall r, c :: 0 <= r < a.Length0 && 0 <= c < a.Length1 ==> a[r, c] == t[r][c])
  }

  /** What the sort establishes, read off the table the array mirrors: no
      cell of the sorted list is closer than its first. */
  lemma SortedFirstIsLeast(distances: array2<Dist>, dist: seq<seq<Dist>>, sorted: seq<Cell>)
    requires Mirrors(distances, dist)
    requires InArray(distances, sorted) && NonDecreasing(Keys(distances, sorted)) && |sorted| > 0
    ensures FirstIsLeast(dist, sorted)
  {
    var ks := Keys(distances, sorted);
    forall k | 0 <= k < |sorted|
      ensures Has(dist, sorted[k]) && !Below(dist[sorted[k].row][sorted[k].col], dist[sorted[0].row][sorted[0].col])
    {
      if k > 0 {
        assert !Below(ks[k], ks[0]);
      }
    }
  }

  /** One pass of the inner loop: `alt` is one more than the popped cell's
      distance, and when it is below the neighbour's distance the neighbour
      gets distance `alt` and predecessor `closest`. */
  method RelaxEdge(distances: array2<Dist>, prev: array2<Option<Cell>>, closest: Cell, neighbor: Cell,
                   ghost dist: seq<seq<Dist>>, ghost links: seq<seq<Option<Cell>>>)
      returns (ghost dist': seq<seq<Dist>>, ghost links': seq<seq<Option<Cell>>>)
    modifies distances, prev
    requires Mirrors(distances, dist) && Mirrors(prev, links)
    requires Has(dist, closest) && dist[closest.row][closest.col].Fin?
    requires Has(dist, neighbor) && Has(links, neighbor)
    ensures Mirrors(distances, dist') && Mirrors(prev, links')
    ensures dist' == Lower(dist, neighbor, dist[closest.row][closest.col].n + 1)
    ensures links' == Point(dist, links, neighbor, dist[closest.row][closest.col].n + 1, closest)
  {
    var alt := distances[closest.row, closest.col].n + 1;
    if Below(Fin(alt), distances[neighbor.row, neighbor.col]) {
      distances[neighbor.row, neighbor.col] := Fin(alt);
      prev[neighbor.row, neighbor.col] := Some(closest);
      dist' := Updated(dist, neighbor.row, neighbor.col, Fin(alt));
      links' := Updated(links, neighbor.row, neighbor.col, Some(closest));
    } else {
      dist', links' := dist, links;
    }
  }

  /** The inner loop `for (const neighbor of getNeighbors(closest, ...))`:
      the tables end as those of relaxing the neighbours in order. */
  method RelaxNeighbors(grid: seq<seq<Cell>>, numRows: nat, numCols: nat,
                        distances: array2<Dist>, prev: array2<Option<Cell>>, closest: Cell,
                        ghost dist: seq<seq<Dist>>, ghost links: seq<seq<Option<Cell>>>)
      returns (ghost dist': seq<seq<Dist>>, ghost links': seq<seq<Option<Cell>>>)
    modifies distances, prev
    requires WellFormed(grid, numRows, numCols) && Table(dist, numRows, numCols) && Table(links, numRows, numCols)
    requires Mirrors(distances, dist) && Mirrors(prev, links)
    requires Open(grid, closest) && dist[closest.row][closest.col].Fin?
    ensures Mirrors(distances, dist') && Mirrors(prev, links')
    ensures var ns := GetNeighbors(closest, grid, numRows, numCols);
      && HasAll(dist, ns) && HasAll(links, ns)
      && dist' == LowerAll(dist, ns, dist[closest.row][closest.col].n + 1)
      && links' == PointAll(dist, links, ns, dist[closest.row][closest.col].n + 1, closest)
  {
    ghost var alt := dist[closest.row][closest.col].n + 1;
    var neighbors := GetNeighbors(closest, grid, numRows, numCols);
    OpenHas(grid, numRows, numCols, dist, neighbors);
    OpenHas(grid, numRows, numCols, links, neighbors);
    dist', links' := dist, links;
    for k := 0 to |neighbors|
      invariant Mirrors(distances, dist') && Mirrors(prev, links')
      invariant HasAll(dist, neighbors[..k]) && HasAll(links, neighbors[..k])
      invariant dist' == LowerAll(dist, neighbors[..k], alt)
      invariant links' == PointAll(dist, links, neighbors[..k], alt, closest)
    {
      RelaxStep(dist, links, neighbors, k, alt, closest);
      NotOwnNeighbor(dist, neighbors, k, alt, closest);
      assert dist'[closest.row][closest.col].n + 1 == alt;
      ghost var before, pointed := dist', links';
      dist', links' := RelaxEdge(distances, prev, closest, neighbors[k], dist', links');
      assert dist' == Lower(before, neighbors[k], alt) && links' == Point(before, pointed, neighbors[k], alt, closest);
    }
    Whole(neighbors);
  }

  /** The popped cell is not among its own neighbours, so relaxing them
      leaves its distance as it was. */
  lemma {:induction false} NotOwnNeighbor(dist: seq<seq<Dist>>, ns: seq<Cell>, k: nat, alt: nat, closest: Cell)
    requires HasAll(dist, ns) && k <= |ns| && Has(dist, closest)
    requires forall i :: 0 <= i < |ns| ==> Adjacent(closest, ns[i])
    ensures HasAll(dist, ns[..k])
    ensures LowerAll(dist, ns[..k], alt)[closest.row][closest.col] == dist[closest.row][closest.col]
  {
    if k > 0 {
      NotOwnNeighbor(dist, ns, k - 1, alt, closest);
      LowerAllStep(dist, ns, k - 1, alt);
      assert Pos(ns[k - 1]) != Pos(closest);
    } else {
      assert ns[..0] == [];
    }
  }

  /** After the inner loop, the search's invariants hold again with the
      popped cell's neighbours relaxed. */
  lemma RelaxedAll(grid: seq<seq<Cell>>, numRows: nat, numCols: nat, start: Coord, end: Coord,
                   dist: seq<seq<Dist>>, prev: seq<seq<Option<Cell>>>,
                   unvisited: seq<Cell>, visited: seq<Cell>, shortest: seq<nat>, routes: map<Coord, seq<Cell>>)
      returns (routes': map<Coord, seq<Cell>>)
    requires Popped(grid, numRows, numCols, start, end, dist, prev, unvisited, visited, shortest, routes)
    ensures var closest := visited[|visited| - 1];
      && InBounds(numRows, numCols, Pos(closest))
      && Has(dist, closest) && dist[closest.row][closest.col] == Fin(LastPopped(shortest))
    ensures var closest, alt := visited[|visited| - 1], LastPopped(shortest) + 1;
      var ns := GetNeighbors(closest, grid, numRows, numCols);
      && HasAll(dist, ns) && HasAll(prev, ns)
      && Popped(grid, numRows, numCols, start, end, LowerAll(dist, ns, alt), PointAll(dist, prev, ns, alt, closest),
                unvisited, visited, shortest, routes')
      && Relaxed(grid, LowerAll(dist, ns, alt), visited, shortest, |visited|)
  {
    PoppedLast(grid, numRows, numCols, start, end, dist, prev, unvisited, visited, shortest, routes);
    var closest, alt := visited[|visited| - 1], LastPopped(shortest) + 1;
    var ns := GetNeighbors(closest, grid, numRows, numCols);
    OpenHas(grid, numRows, numCols, dist, ns);
    OpenHas(grid, numRows, numCols, prev, ns);
    routes' := RelaxPrefix(grid, numRows, numCols, start, end, dist, prev, unvisited, visited, shortest, routes, ns);
    LowerAllBound(dist, ns, |ns|, alt);
    Whole(ns);
    var d := LowerAll(dist, ns, alt);
    assert d == LowerAll(dist, ns[..|ns|], alt);
    assert PointAll(dist, prev, ns, alt, closest) == PointAll(dist, prev, ns[..|ns|], alt, closest);
    assert Popped(grid, numRows, numCols, start, end, d, PointAll(dist, prev, ns, alt, closest),
                  unvisited, visited, shortest, routes');
    NeighborsRelaxed(grid, numRows, numCols, d, closest, alt);
    RelaxedExtend(grid, d, visited, shortest);
    assert Relaxed(grid, d, visited, shortest, |visited|);
    assert Relaxed(grid, LowerAll(dist, GetNeighbors(visited[|visited| - 1], grid, numRows, numCols), LastPopped(shortest) + 1), visited, shortest, |visited|);
  }

  /** When every cell `getNeighbors` returns has a distance of at most
      `bound`, so has every open orthogonal neighbour. */
  lemma NeighborsRelaxed(grid: seq<seq<Cell>>, numRows: nat, numCols: nat, dist: seq<seq<Dist>>, closest: Cell, bound: nat)
    requires WellFormed(grid, numRows, numCols) && InBounds(numRows, numCols, Pos(closest))
    requires 0 < bound
    requires var ns := GetNeighbors(closest, grid, numRows, numCols);
      forall m :: 0 <= m < |ns| ==> Has(dist, ns[m]) && dist[ns[m].row][ns[m].col].Fin? && dist[ns[m].row][ns[m].col].n <= bound
    ensures RelaxedFrom(grid, dist, closest, bound - 1)
  {
    var ns := GetNeighbors(closest, grid, numRows, numCols);
    forall w | Open(grid, w) && Adjacent(closest, w)
      ensures Has(dist, w) && dist[w.row][w.col].Fin? && dist[w.row][w.col].n <= bound
    {
      assert grid[w.row][w.col] == w;
      assert Manhattan(Coord(w.row, w.col), Pos(closest)) == 1;
      var m :| 0 <= m < |ns| && ns[m] == w;
    }
  }

  /** The tables the search starts from: every distance `Infinity` but the
      start's, which is 0, and every `prev` entry `null`. */
  method InitTables(numRows: nat, numCols: nat, start: Coord)
      returns (distances: array2<Dist>, prev: array2<Option<Cell>>,
               ghost dist: seq<seq<Dist>>, ghost links: seq<seq<Option<Cell>>>)
    requires InBounds(numRows, numCols, start)
    ensures fresh(distances) && fresh(prev)
    ensures Mirrors(distances, dist) && Mirrors(prev, links)
    ensures dist == Updated(Blank(numRows, numCols, Inf), start.row, start.col, Fin(0))
    ensures links == Blank(numRows, numCols, None)
  {
    distances := new Dist[numRows, numCols]((r, c) => Inf);
    prev := new Option<Cell>[numRows, numCols]((r, c) => None);
    distances[start.row, start.col] := Fin(0);
    dist := Updated(Blank(numRows, numCols, Inf), start.row, start.col, Fin(0));
    links := Blank(numRows, numCols, None);
  }

  /** The path reconstruction: from the goal, follow `prev` back, putting each
      cell in front of the path, until a cell without a predecessor. If that
      cell is not the start there is no path; otherwise the start goes in
      front. With the `prev` links of the search, there is a path exactly when
      the goal has a finite distance, and it is a route of that many steps
      from the start to the goal. */
  method BuildPath(grid: seq<seq<Cell>>, numRows: nat, numCols: nat, start: Coord, end: Coord,
                   prev: array2<Option<Cell>>, ghost dist: seq<seq<Dist>>, ghost links: seq<seq<Option<Cell>>>,
                   ghost visited: seq<Cell>)
      returns (path: seq<Cell>)
    requires Shaped(grid, numRows, numCols, dist, links)
    requires InBounds(numRows, numCols, start) && InBounds(numRows, numCols, end)
    requires Mirrors(prev, links)
    requires Links(grid, numRows, numCols, start, dist, links, visited)
    ensures Rebuilt(grid, numRows, numCols, start, end, dist, path)
  {
    path := [];
    var curr := grid[end.row][end.col];
    while prev[curr.row, curr.col].Some?
      invariant InBounds(numRows, numCols, Pos(curr)) && grid[curr.row][curr.col] == curr
      invariant path == [] ==> curr == grid[end.row][end.col]
      invariant path != [] ==> Trail(grid, dist, end, curr, path)
      decreases if dist[curr.row][curr.col].Fin? then dist[curr.row][curr.col].n else 0
    {
      var u := prev[curr.row, curr.col].value;
      assert LinkedTo(grid, dist, visited, grid[curr.row][curr.col], u);
      TrailGrows(grid, numRows, numCols, dist, visited, end, curr, u, path);
      path := [curr] + path;
      curr := u;
    }
    if path != [] {
      NoPredecessor(grid, numRows, numCols, start, dist, links, visited, curr);
      TrailHome(grid, numRows, numCols, start, end, dist, curr, path);
    }
    if curr.row != start.row || curr.col != start.col {
      // No path found.
      return [];
    }
    path := [grid[start.row][start.col]] + path;
  }

  /** The part of the path rebuilt so far: a route whose first cell follows
      `curr`, ending at the goal, as many steps longer than the distance of
      `curr` as it has cells. */
  ghost predicate Trail(grid: seq<seq<Cell>>, dist: seq<seq<Dist>>, end: Coord, curr: Cell, path: seq<Cell>) {
    && Open(grid, curr) && Has(dist, curr) && dist[curr.row][curr.col].Fin?
    && 0 <= end.row < |grid| && 0 <= end.col < |grid[end.row]|
    && 0 <= end.row < |dist| && 0 <= end.col < |dist[end.row]| && dist[end.row][end.col].Fin?
    && dist[end.row][end.col].n == dist[curr.row][curr.col].n + |path|
    && Route(grid, path) && Adjacent(curr, path[0]) && path[|path| - 1] == grid[end.row][end.col]
  }

  /** One step back along `prev` extends the trail by the cell stepped from. */
  lemma TrailGrows(grid: seq<seq<Cell>>, numRows: nat, numCols: nat, dist: seq<seq<Dist>>, visited: seq<Cell>,
                   end: Coord, curr: Cell, u: Cell, path: seq<Cell>)
    requires WellFormed(grid, numRows, numCols) && Table(dist, numRows, numCols) && InBounds(numRows, numCols, end)
    requires path == [] ==> curr == grid[end.row][end.col]
    requires path != [] ==> Trail(grid, dist, end, curr, path)
    requires LinkedTo(grid, dist, visited, curr, u)
    ensures Trail(grid, dist, end, u, [curr] + path)
  {
    var path' := [curr] + path;
    assert forall i :: 1 <= i < |path'| ==> path'[i] == path[i - 1];
  }

  /** A cell with a finite distance and no predecessor is the start, at
      distance 0. */
  lemma NoPredecessor(grid: seq<seq<Cell>>, numRows: nat, numCols: nat, start: Coord,
                      dist: seq<seq<Dist>>, links: seq<seq<Option<Cell>>>, visited: seq<Cell>, curr: Cell)
    requires Shaped(grid, numRows, numCols, dist, links) && InBounds(numRows, numCols, start)
    requires Links(grid, numRows, numCols, start, dist, links, visited)
    requires InBounds(numRows, numCols, Pos(curr))
    requires dist[curr.row][curr.col].Fin? && links[curr.row][curr.col] == None
    ensures Pos(curr) == start && dist[curr.row][curr.col] == Fin(0)
  {
  }

  /** A trail from the start, with the start in front, is a route from the
      start to the goal, one cell longer than the goal's distance. */
  lemma TrailHome(grid: seq<seq<Cell>>, numRows: nat, numCols: nat, start: Coord, end: Coord,
                  dist: seq<seq<Dist>>, curr: Cell, path: seq<Cell>)
    requires WellFormed(grid, numRows, numCols) && InBounds(numRows, numCols, end)
    requires path != [] && Trail(grid, dist, end, curr, path)
    requires Pos(curr) == start && dist[curr.row][curr.col] == Fin(0)
    ensures curr == grid[start.row][start.col]
    ensures |path| == dist[end.row][end.col].n
    ensures RouteFromTo(grid, [curr] + path, start, end)
  {
    var full := [curr] + path;
    assert forall i :: 1 <= i < |full| ==> full[i] == path[i - 1];
  }

  /** What `BuildPath` promises about the path it rebuilds from `dist`. */
  ghost predicate Rebuilt(grid: seq<seq<Cell>>, numRows: nat, numCols: nat, start: Coord, end: Coord,
                          dist: seq<seq<Dist>>, path: seq<Cell>)
    requires WellFormed(grid, numRows, numCols) && Table(dist, numRows, numCols)
    requires InBounds(numRows, numCols, start) && InBounds(numRows, numCols, end)
  {
    && (path != [] <==> dist[end.row][end.col].Fin?)
    && (path != [] ==>
          && |path| == dist[end.row][end.col].n + 1
          && path[0] == grid[start.row][start.col] && path[|path| - 1] == grid[end.row][end.col])
    && (|path| == 1 ==> start == end)
    && (|path| > 1 ==> RouteFromTo(grid, path, start, end))
  }

  /** Once the search has concluded, the visited cells reachable from the
      start are visited if the goal was not: the search has then run out of
      reachable cells. Every visited cell is reachable. */
  lemma VisitedReachable(grid: seq<seq<Cell>>, numRows: nat, numCols: nat, start: Coord, end: Coord,
                         dist: seq<seq<Dist>>, links: seq<seq<Option<Cell>>>, visited: seq<Cell>, shortest: seq<nat>)
    requires Concluded(grid, numRows, numCols, start, end, dist, links, visited, shortest)
    ensures forall x :: x in visited ==> Reachable(grid, start, Pos(x))
    ensures GoalPending(end, visited) ==>
              forall x :: Open(grid, x) ==> (x in visited <==> Reachable(grid, start, Pos(x)))
  {
    forall x | x in visited
      ensures Reachable(grid, start, Pos(x))
    {
      var i :| 0 <= i < |visited| && visited[i] == x;
      assert ShortestIs(grid, start, Pos(visited[i]), shortest[i]);
    }
    if GoalPending(end, visited) {
      forall x | Open(grid, x) && Reachable(grid, start, Pos(x))
        ensures x in visited
      {
        var p :| RouteFromTo(grid, p, start, Pos(x));
        assert p[|p| - 1] in visited;
        assert p[|p| - 1] == grid[x.row][x.col];
      }
    }
  }

  /** An open start reaches itself, so it is visited, and visited first,
      whether or not the goal is. */
  lemma StartVisited(grid: seq<seq<Cell>>, numRows: nat, numCols: nat, start: Coord, end: Coord,
                     dist: seq<seq<Dist>>, links: seq<seq<Option<Cell>>>, visited: seq<Cell>, shortest: seq<nat>)
    requires Concluded(grid, numRows, numCols, start, end, dist, links, visited, shortest)
    requires Open(grid, grid[start.row][start.col])
    ensures visited != [] && visited[0] == grid[start.row][start.col]
  {
    VisitedReachable(grid, numRows, numCols, start, end, dist, links, visited, shortest);
    assert RouteFromTo(grid, [grid[start.row][start.col]], start, start);
  }

  /** When the search concludes with the goal visited, the goal was visited
      last, at the length of a shortest route to it. */
  lemma GoalSettled(grid: seq<seq<Cell>>, numRows: nat, numCols: nat, start: Coord, end: Coord,
                    dist: seq<seq<Dist>>, links: seq<seq<Option<Cell>>>, visited: seq<Cell>, shortest: seq<nat>)
    requires Concluded(grid, numRows, numCols, start, end, dist, links, visited, shortest)
    requires !GoalPending(end, visited)
    ensures dist[end.row][end.col].Fin? && ShortestIs(grid, start, end, dist[end.row][end.col].n)
  {
    var last := |visited| - 1;
    var i :| 0 <= i < |visited| && Pos(visited[i]) == end;
    assert i == last;
    assert visited[last] == grid[end.row][end.col];
    assert dist[end.row][end.col] == Fin(shortest[last]);
  }

  /** With the start open, the rebuilt path is empty exactly when the goal
      is unreachable, and otherwise a shortest route from the start to the
      goal. */
  lemma PathFound(grid: seq<seq<Cell>>, numRows: nat, numCols: nat, start: Coord, end: Coord,
                  dist: seq<seq<Dist>>, links: seq<seq<Option<Cell>>>, visited: seq<Cell>, shortest: seq<nat>,
                  path: seq<Cell>)
    requires Concluded(grid, numRows, numCols, start, end, dist, links, visited, shortest)
    requires Rebuilt(grid, numRows, numCols, start, end, dist, path)
    requires Open(grid, grid[start.row][start.col])
    ensures path != [] <==> Reachable(grid, start, end)
    ensures path != [] ==> RouteFromTo(grid, path, start, end) && ShortestIs(grid, start, end, |path| - 1)
  {
    var home := [grid[start.row][start.col]];
    assert RouteFromTo(grid, home, start, start);
    if GoalPending(end, visited) {
      // The goal is not reachable, for then it would have been visited, and
      // it is not the start, which is visited.
      assert grid[start.row][start.col] in visited;
    } else {
      GoalSettled(grid, numRows, numCols, start, end, dist, links, visited, shortest);
      if |path| == 1 {
        assert path == home;
      }
    }
  }

  /** A blocked start is never visited, and the path is the start alone when
      the goal is the start, and empty otherwise. */
  lemma BlockedStart(grid: seq<seq<Cell>>, numRows: nat, numCols: nat, start: Coord, end: Coord,
                     dist: seq<seq<Dist>>, links: seq<seq<Option<Cell>>>, visited: seq<Cell>, shortest: seq<nat>,
                     path: seq<Cell>)
    requires Concluded(grid, numRows, numCols, start, end, dist, links, visited, shortest)
    requires Rebuilt(grid, numRows, numCols, start, end, dist, path)
    requires !Open(grid, grid[start.row][start.col])
    ensures visited == []
    ensures path == if start == end then [grid[start.row][start.col]] else []
  {
    if start == end {
      assert dist[start.row][start.col] == Fin(0);
    }
  }

  /** With the goal at the open start, the search visits the start alone and
      the path is the start alone. */
  lemma StartIsGoal(grid: seq<seq<Cell>>, numRows: nat, numCols: nat, start: Coord, end: Coord,
                    dist: seq<seq<Dist>>, links: seq<seq<Option<Cell>>>, visited: seq<Cell>, shortest: seq<nat>,
                    path: seq<Cell>)
    requires Concluded(grid, numRows, numCols, start, end, dist, links, visited, shortest)
    requires Rebuilt(grid, numRows, numCols, start, end, dist, path)
    requires Open(grid, grid[start.row][start.col]) && start == end
    ensures visited == [grid[start.row][start.col]]
    ensures path == [grid[start.row][start.col]]
  {
    assert Pos(visited[0]) == end;
    assert dist[start.row][start.col] == Fin(0);
  }

  lemma Whole<T>(s: seq<T>)
    ensures s[..|s|] == s
  {
  }
}
