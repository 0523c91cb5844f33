/** `getNeighbors`: the open orthogonal neighbours of a cell, in the order up,
    down, left, right. */
module Neighbors {
  import opened Grid
  import opened Routes

  /** Rank of the direction from `node` to an orthogonal neighbour `n`:
      0 up, 1 down, 2 left, 3 right. */
  function Heading(node: Cell, n: Cell): nat {
    if n.row < node.row then 0
    else if n.row > node.row then 1
    else if n.col < node.col then 2
    else 3
  }

  /** One of the four tests of `getNeighbors`: the cell at (r, c) when it lies
      inside the grid and is not blocked, and nothing otherwise. */
  function Probe(grid: seq<seq<Cell>>, numRows: int, numCols: int, r: int, c: int): (s: seq<Cell>)
    requires WellFormed(grid, numRows, numCols)
    ensures |s| <= 1
    ensures forall i :: 0 <= i < |s| ==> Open(grid, s[i]) && Pos(s[i]) == Coord(r, c)
    ensures InBounds(numRows, numCols, Coord(r, c)) && !grid[r][c].isBlocked ==> s == [grid[r][c]]
  {
    if 0 <= r < numRows && 0 <= c < numCols && !grid[r][c].isBlocked then [grid[r][c]] else []
  }

  function GetNeighbors(node: Cell, grid: seq<seq<Cell>>, numRows: int, numCols: int): (neighbors: seq<Cell>)
    requires WellFormed(grid, numRows, numCols)
    requires InBounds(numRows, numCols, Pos(node))
    ensures |neighbors| <= 4
    ensures forall i :: 0 <= i < |neighbors| ==> Open(grid, neighbors[i]) && Adjacent(node, neighbors[i])
    ensures forall i, j :: 0 <= i < j < |neighbors| ==> Heading(node, neighbors[i]) < Heading(node, neighbors[j])
    ensures forall r, c ::
              && 0 <= r < numRows && 0 <= c < numCols
              && Manhattan(Coord(r, c), Pos(node)) == 1
              && !grid[r][c].isBlocked
              ==> grid[r][c] in neighbors
  {
    var row, col := node.row, node.col;
    var up := Probe(grid, numRows, numCols, row - 1, col);
    var down := Probe(grid, numRows, numCols, row + 1, col);
    var left := Probe(grid, numRows, numCols, row, col - 1);
    var right := Probe(grid, numRows, numCols, row, col + 1);
    Ranked(node, up, down, left, right);
    up + down + left + right
  }

  /** Four lists of at most one cell each, the cells taking headings 0, 1, 2
      and 3, concatenate to a list ranked by heading. */
  lemma Ranked(node: Cell, up: seq<Cell>, down: seq<Cell>, left: seq<Cell>, right: seq<Cell>)
    requires |up| <= 1 && |down| <= 1 && |left| <= 1 && |right| <= 1
    requires forall i :: 0 <= i < |up| ==> Pos(up[i]) == Coord(node.row - 1, node.col)
    requires forall i :: 0 <= i < |down| ==> Pos(down[i]) == Coord(node.row + 1, node.col)
    requires forall i :: 0 <= i < |left| ==> Pos(left[i]) == Coord(node.row, node.col - 1)
    requires forall i :: 0 <= i < |right| ==> Pos(right[i]) == Coord(node.row, node.col + 1)
    ensures var s := up + down + left + right;
      forall i, j :: 0 <= i < j < |s| ==> Heading(node, s[i]) < Heading(node, s[j])
  {
    var s := up + down + left + right;
    forall i, j | 0 <= i < j < |s|
      ensures Heading(node, s[i]) < Heading(node, s[j])
    {
      assert forall k :: 0 <= k < |s| ==> Heading(node, s[k]) == Part(k, |up|, |down|, |left|);
    }
  }

  /** The heading of the k-th cell of the concatenation, given the parts' lengths. */
  function Part(k: nat, u: nat, d: nat, l: nat): nat {
    if k < u then 0 else if k < u + d then 1 else if k < u + d + l then 2 else 3
  }
}
