/** Block mode: a click on a cell toggles whether that cell is blocked, except
    on the start and end cells, which can never be blocked this way. */
module Blockages {
  import opened Grid

  /** The set of blocked cells after a block-mode click on (row, col). */
  function Toggled(prev: set<Coord>, row: int, col: int, startNode: Coord, endNode: Coord): (next: set<Coord>)
    ensures Coord(row, col) == startNode || Coord(row, col) == endNode ==> next == prev
    ensures Coord(row, col) != startNode && Coord(row, col) != endNode ==>
              (Coord(row, col) in next <==> Coord(row, col) !in prev)
    ensures forall key :: key != Coord(row, col) ==> (key in next <==> key in prev)
  {
    var key := Coord(row, col);
    if key == startNode || key == endNode then prev
    else if key in prev then prev - {key}
    else prev + {key}
  }

  /** The updater handed to `setBlockages`: copy the set, then delete or add
      the clicked key unless it is the start or the end cell. */
  method ToggleBlockage(prev: set<Coord>, row: int, col: int, startNode: Coord, endNode: Coord)
    returns (newSet: set<Coord>)
    ensures newSet == Toggled(prev, row, col, startNode, endNode)
  {
    newSet := prev;
    var key := Coord(row, col);
    if (row == startNode.row && col == startNode.col) || (row == endNode.row && col == endNode.col) {
      return;
    }
    if key in newSet {
      newSet := newSet - {key};
    } else {
      newSet := newSet + {key};
    }
  }

  /** Clicking the same cell twice restores the original set. */
  lemma ToggledTwice(blocked: set<Coord>, row: int, col: int, startNode: Coord, endNode: Coord)
    ensures Toggled(Toggled(blocked, row, col, startNode, endNode), row, col, startNode, endNode) == blocked
  {
    var once := Toggled(blocked, row, col, startNode, endNode);
    var twice := Toggled(once, row, col, startNode, endNode);
    forall key | true
      ensures key in twice <==> key in blocked
    {
    }
  }

  /** Toggling never blocks the start or the end cell: if neither is blocked
      before the click, neither is blocked after it. */
  lemma ToggledKeepsEndpointsOpen(blocked: set<Coord>, row: int, col: int, startNode: Coord, endNode: Coord)
    requires startNode !in blocked && endNode !in blocked
    ensures startNode !in Toggled(blocked, row, col, startNode, endNode)
    ensures endNode !in Toggled(blocked, row, col, startNode, endNode)
  {
  }
}
