/** The grid the search runs on: cells identified by their (row, col)
    coordinate, and the construction of the grid from the set of blocked cells. */
module Grid {

  /** A position given as `{ row, col }`, such as the start and end nodes. */
  datatype Coord = Coord(row: int, col: int)

  /** One grid cell, `{ row, col, isBlocked }`. */
  datatype Cell = Cell(row: int, col: int, isBlocked: bool)

  function Pos(cell: Cell): Coord {
    Coord(cell.row, cell.col)
  }

  predicate InBounds(numRows: int, numCols: int, p: Coord) {
    0 <= p.row < numRows && 0 <= p.col < numCols
  }

  /** `grid` has `numRows` rows of `numCols` cells, and the cell stored at
      `grid[r][c]` carries the coordinate (r, c). */
  ghost predicate WellFormed(grid: seq<seq<Cell>>, numRows: int, numCols: int) {
    && |grid| == numRows
    && forall r :: 0 <= r < numRows ==>
         && |grid[r]| == numCols
         && forall c :: 0 <= c < numCols ==> grid[r][c].row == r && grid[r][c].col == c
  }

  /** A cell that the search may enter: a cell of the grid that is not blocked. */
  ghost predicate Open(grid: seq<seq<Cell>>, cell: Cell) {
    && 0 <= cell.row < |grid|
    && 0 <= cell.col < |grid[cell.row]|
    && grid[cell.row][cell.col] == cell
    && !cell.isBlocked
  }

  /** The grid built by `App` on every render: cell (r, c) is blocked exactly
      when its key is in the set of blockages. */
  method BuildGrid(numRows: nat, numCols: nat, blockages: set<Coord>) returns (gridData: seq<seq<Cell>>)
    ensures WellFormed(gridData, numRows, numCols)
    ensures forall r, c :: 0 <= r < numRows && 0 <= c < numCols ==>
              |gridData[r]| == numCols && gridData[r][c] == Cell(r, c, Coord(r, c) in blockages)
  {
    gridData := [];
    var row := 0;
    while row < numRows
      invariant 0 <= row <= numRows
      invariant |gridData| == row
      invariant forall r :: 0 <= r < row ==> |gridData[r]| == numCols
      invariant forall r, c :: 0 <= r < row && 0 <= c < numCols ==>
                  gridData[r][c] == Cell(r, c, Coord(r, c) in blockages)
    {
      var currentRow := [];
      var col := 0;
      while col < numCols
        invariant 0 <= col <= numCols
        invariant |currentRow| == col
        invariant forall c :: 0 <= c < col ==> currentRow[c] == Cell(row, c, Coord(row, c) in blockages)
      {
        var isBlocked := Coord(row, col) in blockages;
        currentRow := currentRow + [Cell(row, col, isBlocked)];
        col := col + 1;
      }
      gridData := gridData + [currentRow];
      row := row + 1;
    }
  }

  /** On a grid built from `blockages`, the cell at (r, c) is open exactly when
      (r, c) is not blocked. */
  lemma BuiltCellOpen(gridData: seq<seq<Cell>>, numRows: nat, numCols: nat, blockages: set<Coord>, r: int, c: int)
    requires WellFormed(gridData, numRows, numCols)
    requires forall r, c :: 0 <= r < numRows && 0 <= c < numCols ==>
               |gridData[r]| == numCols && gridData[r][c] == Cell(r, c, Coord(r, c) in blockages)
    requires InBounds(numRows, numCols, Coord(r, c))
    ensures Open(gridData, gridData[r][c]) <==> Coord(r, c) !in blockages
  {
  }
}
