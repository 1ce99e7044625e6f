/**
 * The maze as the solver receives it: a square character grid, its side size,
 * and the start and end coordinates. A cell holding 'X' is a wall; every other
 * character is open. Coordinates are (col, row) pairs, the grid is indexed
 * grid[row][col].
 */
module MazeGrid {
  import opened Wrappers

  const WallChar: char := 'X'

  datatype Layout = Layout(grid: seq<seq<char>>, sideSize: nat, fromX: int, fromY: int, toX: int, toY: int)
  {
    /** A square grid, start and end inside it, and start distinct from end. */
    predicate Valid()
    {
      && |grid| == sideSize
      && (forall r :: 0 <= r < |grid| ==> |grid[r]| == sideSize)
      && InGrid(fromY, fromX)
      && InGrid(toY, toX)
      && (fromX != toX || fromY != toY)
    }

    predicate InGrid(row: int, col: int)
    {
      0 <= row < sideSize && 0 <= col < sideSize
    }

    /** Cells outside the grid count as walls. */
    predicate IsWall(row: int, col: int)
    {
      !(0 <= row < |grid| && 0 <= col < |grid[row]|) || grid[row][col] == WallChar
    }

    predicate IsStart(row: int, col: int)
    {
      col == fromX && row == fromY
    }

    predicate IsEnd(row: int, col: int)
    {
      col == toX && row == toY
    }

    /**
     * The node-creation rule of the grid-to-graph pass: the start and the end
     * always get a node (even on a wall); any other cell gets one when it is
     * open, at least one of its vertical neighbours is open and at least one
     * of its horizontal neighbours is open.
     */
    predicate HasNode(row: int, col: int)
    {
      || IsStart(row, col)
      || IsEnd(row, col)
      || (&& !IsWall(row, col)
          && !(IsWall(row - 1, col) && IsWall(row + 1, col))
          && !(IsWall(row, col - 1) && IsWall(row, col + 1)))
    }

    /**
     * The row of the first node cell met when scanning the column `col`
     * upwards from `row` (inclusive), or None when a wall or the top edge
     * comes first.
     */
    function ColumnPartner(row: int, col: int): Option<nat>
      decreases row + 1
    {
      if row < 0 then None
      else if IsWall(row, col) then None
      else if HasNode(row, col) then Some(row)
      else ColumnPartner(row - 1, col)
    }

    /** The same scan along the row `row`, leftwards from `col` (inclusive). */
    function RowPartner(row: int, col: int): Option<nat>
      decreases col + 1
    {
      if col < 0 then None
      else if IsWall(row, col) then None
      else if HasNode(row, col) then Some(col)
      else RowPartner(row, col - 1)
    }
  }

  /**
   * ColumnPartner finds exactly the nearest open node cell at or above `row`
   * with only open, node-less cells in between.
   */
  lemma {:induction false} ColumnPartnerIff(L: Layout, row: int, col: int, x: int)
    ensures L.ColumnPartner(row, col) == Some(x) <==>
      (&& 0 <= x <= row
       && !L.IsWall(x, col) && L.HasNode(x, col)
       && forall y :: x < y <= row ==> !L.IsWall(y, col) && !L.HasNode(y, col))
    decreases row + 1
  {
    if row >= 0 && !L.IsWall(row, col) && !L.HasNode(row, col) {
      ColumnPartnerIff(L, row - 1, col, x);
    }
  }

  /** The row-wise counterpart of ColumnPartnerIff. */
  lemma {:induction false} RowPartnerIff(L: Layout, row: int, col: int, x: int)
    ensures L.RowPartner(row, col) == Some(x) <==>
      (&& 0 <= x <= col
       && !L.IsWall(row, x) && L.HasNode(row, x)
       && forall y :: x < y <= col ==> !L.IsWall(row, y) && !L.HasNode(row, y))
    decreases col + 1
  {
    if col >= 0 && !L.IsWall(row, col) && !L.HasNode(row, col) {
      RowPartnerIff(L, row, col - 1, x);
    }
  }
}
