/** The initial unvisited list of `dijkstra`: every unblocked cell, in row-major
    scan order. */
module Unvisited {
  import opened Grid

  /** `a` comes before `b` in a row-by-row, left-to-right scan. */
  predicate ScanBefore(a: Cell, b: Cell) {
    a.row < b.row || (a.row == b.row && a.col < b.col)
  }

  method CollectUnblocked(grid: seq<seq<Cell>>, numRows: nat, numCols: nat) returns (unvisited: seq<Cell>)
    requires WellFormed(grid, numRows, numCols)
    ensures forall x :: x in unvisited <==> Open(grid, x)
    ensures forall i, j :: 0 <= i < j < |unvisited| ==> ScanBefore(unvisited[i], unvisited[j])
  {
    unvisited := [];
    var row := 0;
    while row < numRows
      invariant 0 <= row <= numRows
      invariant forall x :: x in unvisited <==> Open(grid, x) && x.row < row
      invariant forall i, j :: 0 <= i < j < |unvisited| ==> ScanBefore(unvisited[i], unvisited[j])
      invariant forall i :: 0 <= i < |unvisited| ==> unvisited[i].row < row
    {
      var col := 0;
      while col < numCols
        invariant 0 <= col <= numCols
        invariant forall x :: x in unvisited <==> Open(grid, x) && (x.row < row || (x.row == row && x.col < col))
        invariant forall i, j :: 0 <= i < j < |unvisited| ==> ScanBefore(unvisited[i], unvisited[j])
        invariant forall i :: 0 <= i < |unvisited| ==> ScanBefore(unvisited[i], Cell(row, col, false))
      {
        if !grid[row][col].isBlocked {
          unvisited := unvisited + [grid[row][col]];
        }
        col := col + 1;
      }
      row := row + 1;
    }
  }

  /** A list in strict scan order holds each cell once. */
  lemma {:induction false} ScanOrderedOnce(s: seq<Cell>)
    requires forall i, j :: 0 <= i < j < |s| ==> ScanBefore(s[i], s[j])
    ensures forall x :: x in s ==> multiset(s)[x] == 1
  {
    if s != [] {
      var init := s[..|s| - 1];
      assert s == init + [s[|s| - 1]];
      ScanOrderedOnce(init);
      assert s[|s| - 1] !in init by {
        forall i | 0 <= i < |init| ensures init[i] != s[|s| - 1] {
          assert ScanBefore(s[i], s[|s| - 1]);
        }
      }
    }
  }
}
