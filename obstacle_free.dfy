/** Grids without blocked cells: there the shortest route between two cells
    is the Manhattan distance between them, walked as a staircase. */
module ObstacleFree {
  import opened Grid
  import opened Routes

  /** No cell of the grid is blocked. */
  ghost predicate Unblocked(grid: seq<seq<Cell>>, numRows: nat, numCols: nat)
    requires WellFormed(grid, numRows, numCols)
  {
    forall r, c :: 0 <= r < numRows && 0 <= c < numCols ==> !grid[r][c].isBlocked
  }

  /** One step from `s` towards `t`: along the rows first, then along the
      columns. */
  function Toward(s: Coord, t: Coord): (n: Coord)
    requires s != t
    ensures Manhattan(s, n) == 1 && Manhattan(n, t) + 1 == Manhattan(s, t)
  {
    if s.row < t.row then Coord(s.row + 1, s.col)
    else if s.row > t.row then Coord(s.row - 1, s.col)
    else if s.col < t.col then Coord(s.row, s.col + 1)
    else Coord(s.row, s.col - 1)
  }

  /** The route from `s` to `t` that steps towards `t` at every cell. On an
      unblocked grid it has Manhattan(s, t) + 1 cells. */
  ghost function Staircase(grid: seq<seq<Cell>>, numRows: nat, numCols: nat, s: Coord, t: Coord): (p: seq<Cell>)
    requires WellFormed(grid, numRows, numCols) && Unblocked(grid, numRows, numCols)
    requires InBounds(numRows, numCols, s) && InBounds(numRows, numCols, t)
    ensures RouteFromTo(grid, p, s, t)
    ensures |p| == Manhattan(s, t) + 1
    decreases Manhattan(s, t)
  {
    if s == t then [grid[s.row][s.col]]
    else
      var rest := Staircase(grid, numRows, numCols, Toward(s, t), t);
      var p := [grid[s.row][s.col]] + rest;
      assert forall i :: 1 <= i < |p| ==> p[i] == rest[i - 1];
      p
  }

  /** On an unblocked grid, the shortest route between two cells has
      Manhattan(s, t) steps. */
  lemma ShortestIsManhattan(grid: seq<seq<Cell>>, numRows: nat, numCols: nat, s: Coord, t: Coord)
    requires WellFormed(grid, numRows, numCols) && Unblocked(grid, numRows, numCols)
    requires InBounds(numRows, numCols, s) && InBounds(numRows, numCols, t)
    ensures ShortestIs(grid, s, t, Manhattan(s, t))
  {
    var p := Staircase(grid, numRows, numCols, s, t);
    forall q | RouteFromTo(grid, q, s, t)
      ensures Manhattan(s, t) + 1 <= |q|
    {
      RouteAtLeastManhattan(grid, q, s, t);
    }
  }

  /** A shortest-route length, when there is one, is unique. */
  lemma ShortestUnique(grid: seq<seq<Cell>>, s: Coord, t: Coord, d: nat, e: nat)
    requires ShortestIs(grid, s, t, d) && ShortestIs(grid, s, t, e)
    ensures d == e
  {
    var p :| RouteFromTo(grid, p, s, t) && |p| == d + 1;
    var q :| RouteFromTo(grid, q, s, t) && |q| == e + 1;
  }
}
