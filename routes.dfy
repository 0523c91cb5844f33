/** Routes through the grid: the reference notion of "shortest path" that the
    search is proved against. A route is a non-empty sequence of open cells in
    which each cell is an orthogonal neighbour of the one before it. */
module Routes {
  import opened Grid

  function Abs(x: int): nat {
    if x < 0 then -x else x
  }

  function Manhattan(a: Coord, b: Coord): nat {
    Abs(a.row - b.row) + Abs(a.col - b.col)
  }

  /** Orthogonal neighbours: one step up, down, left or right. */
  predicate Adjacent(a: Cell, b: Cell) {
    Manhattan(Pos(a), Pos(b)) == 1
  }

  ghost predicate Route(grid: seq<seq<Cell>>, p: seq<Cell>) {
    && |p| > 0
    && (forall i :: 0 <= i < |p| ==> Open(grid, p[i]))
    && (forall i :: 0 <= i < |p| - 1 ==> Adjacent(p[i], p[i + 1]))
  }

  ghost predicate RouteFromTo(grid: seq<seq<Cell>>, p: seq<Cell>, s: Coord, t: Coord) {
    Route(grid, p) && Pos(p[0]) == s && Pos(p[|p| - 1]) == t
  }

  /** `d` is the length in steps of a shortest route from `s` to `t`: some
      route has d + 1 cells, and none has fewer. */
  ghost predicate ShortestIs(grid: seq<seq<Cell>>, s: Coord, t: Coord, d: nat) {
    && (exists p :: RouteFromTo(grid, p, s, t) && |p| == d + 1)
    && (forall p :: RouteFromTo(grid, p, s, t) ==> d + 1 <= |p|)
  }

  /** Some route leads from `s` to `t`. */
  ghost predicate Reachable(grid: seq<seq<Cell>>, s: Coord, t: Coord) {
    exists p :: RouteFromTo(grid, p, s, t)
  }

  /** A route may be extended by an open neighbour of its last cell. */
  lemma RouteExtend(grid: seq<seq<Cell>>, p: seq<Cell>, s: Coord, w: Cell)
    requires Route(grid, p) && Pos(p[0]) == s
    requires Open(grid, w) && Adjacent(p[|p| - 1], w)
    ensures RouteFromTo(grid, p + [w], s, Pos(w))
  {
    var q := p + [w];
    assert forall i :: 0 <= i < |q| - 1 ==> q[i] == p[i];
  }

  /** Every non-empty prefix of a route is a route to its own last cell. */
  lemma RoutePrefix(grid: seq<seq<Cell>>, p: seq<Cell>, s: Coord, k: nat)
    requires Route(grid, p) && Pos(p[0]) == s
    requires 0 < k <= |p|
    ensures RouteFromTo(grid, p[..k], s, Pos(p[k - 1]))
  {
    var q := p[..k];
    assert forall i :: 0 <= i < |q| ==> q[i] == p[i];
  }

  /** Each step of a route changes the Manhattan distance to a fixed target by
      at most one, so a route from `s` to `t` has at least Manhattan(s, t) + 1 cells. */
  lemma {:induction false} RouteAtLeastManhattan(grid: seq<seq<Cell>>, p: seq<Cell>, s: Coord, t: Coord)
    requires RouteFromTo(grid, p, s, t)
    ensures Manhattan(s, t) + 1 <= |p|
  {
    if |p| > 1 {
      var rest := p[1..];
      assert forall i :: 0 <= i < |rest| ==> rest[i] == p[i + 1];
      assert RouteFromTo(grid, rest, Pos(p[1]), t);
      RouteAtLeastManhattan(grid, rest, Pos(p[1]), t);
      assert Adjacent(p[0], p[1]);
    }
  }
}
