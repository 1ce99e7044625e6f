/**
 * The compacted graph: an arena of nodes addressed by index. A link is the
 * index of another node or None (a null pointer in main.cpp).
 *
 * The link names follow main.cpp, where they are swapped with
 * respect to geometry: `left`/`right` join nodes of the same COLUMN (left is
 * the node above), `up`/`down` join nodes of the same ROW (up is the node to
 * the left).
 */
module MazeGraph {
  import opened Wrappers
  import opened MazeGrid

  datatype MazeNode = MazeNode(
    col: nat,
    row: nat,
    distanceUsing: Option<nat>,
    left: Option<nat>,
    right: Option<nat>,
    up: Option<nat>,
    down: Option<nat>)

  /** Cell (r, c) comes before cell (row, col) in the row-major scan. */
  predicate Processed(r: int, c: int, row: int, col: int)
  {
    r < row || (r == row && c < col)
  }

  /**
   * `link` is what the upward scan from (row, col) must yield: no node when
   * ColumnPartner finds none, otherwise a node of the same column sitting at
   * the partner row.
   */
  ghost predicate TargetAbove(L: Layout, ns: seq<MazeNode>, row: int, col: int, link: Option<nat>)
  {
    match link
    case None => L.ColumnPartner(row, col).None?
    case Some(j) => j < |ns| && ns[j].col == col && L.ColumnPartner(row, col) == Some(ns[j].row)
  }

  /** The leftward counterpart of TargetAbove. */
  ghost predicate TargetBefore(L: Layout, ns: seq<MazeNode>, row: int, col: int, link: Option<nat>)
  {
    match link
    case None => L.RowPartner(row, col).None?
    case Some(j) => j < |ns| && ns[j].row == row && L.RowPartner(row, col) == Some(ns[j].col)
  }

  /** Every node sits on a node cell that was already scanned, with no predecessor yet. */
  ghost predicate NodesPlaced(L: Layout, ns: seq<MazeNode>, row: int, col: int)
  {
    forall k :: 0 <= k < |ns| ==>
      && L.InGrid(ns[k].row, ns[k].col)
      && L.HasNode(ns[k].row, ns[k].col)
      && Processed(ns[k].row, ns[k].col, row, col)
      && ns[k].distanceUsing == None
  }

  /** Every link names a node of the arena. */
  ghost predicate LinksInRange(ns: seq<MazeNode>)
  {
    forall k :: 0 <= k < |ns| ==>
      && (ns[k].left.Some? ==> ns[k].left.value < |ns|)
      && (ns[k].right.Some? ==> ns[k].right.value < |ns|)
      && (ns[k].up.Some? ==> ns[k].up.value < |ns|)
      && (ns[k].down.Some? ==> ns[k].down.value < |ns|)
  }

  /** Each node's left link is the nearest node up its column, or None when there is none. */
  ghost predicate ColumnBackLinks(L: Layout, ns: seq<MazeNode>)
  {
    && (forall k :: 0 <= k < |ns| && ns[k].left.None? ==> L.ColumnPartner(ns[k].row - 1, ns[k].col).None?)
    && (forall k, j {:trigger ns[k], ns[j]} :: 0 <= k < |ns| && 0 <= j < |ns| && ns[k].left == Some(j) ==>
          ns[j].col == ns[k].col && L.ColumnPartner(ns[k].row - 1, ns[k].col) == Some(ns[j].row))
  }

  /** Each node's up link is the nearest node leftwards along its row, or None when there is none. */
  ghost predicate RowBackLinks(L: Layout, ns: seq<MazeNode>)
  {
    && (forall k :: 0 <= k < |ns| && ns[k].up.None? ==> L.RowPartner(ns[k].row, ns[k].col - 1).None?)
    && (forall k, j {:trigger ns[k], ns[j]} :: 0 <= k < |ns| && 0 <= j < |ns| && ns[k].up == Some(j) ==>
          ns[j].row == ns[k].row && L.RowPartner(ns[k].row, ns[k].col - 1) == Some(ns[j].col))
  }

  ghost predicate BackLinks(L: Layout, ns: seq<MazeNode>)
  {
    ColumnBackLinks(L, ns) && RowBackLinks(L, ns)
  }

  /** left and right are mutually inverse. */
  ghost predicate ColumnSymmetric(ns: seq<MazeNode>)
  {
    forall k, j {:trigger ns[k], ns[j]} :: 0 <= k < |ns| && 0 <= j < |ns| ==> (ns[k].left == Some(j) <==> ns[j].right == Some(k))
  }

  /** up and down are mutually inverse. */
  ghost predicate RowSymmetric(ns: seq<MazeNode>)
  {
    forall k, j {:trigger ns[k], ns[j]} :: 0 <= k < |ns| && 0 <= j < |ns| ==> (ns[k].up == Some(j) <==> ns[j].down == Some(k))
  }

  ghost predicate Symmetric(ns: seq<MazeNode>)
  {
    LinksInRange(ns) && ColumnSymmetric(ns) && RowSymmetric(ns)
  }

  /** The graph built so far, after scanning every cell before (row, col). */
  ghost predicate GraphOk(L: Layout, ns: seq<MazeNode>, row: int, col: int)
  {
    NodesPlaced(L, ns, row, col) && BackLinks(L, ns) && Symmetric(ns)
  }

  /**
   * The arena after adding a node at (row, col) whose upward scan found
   * `above` and whose leftward scan found `before`: the new node is appended
   * with left := above and up := before, and the found nodes get right and
   * down pointing back at it. Nothing else changes.
   */
  function Linked(ns: seq<MazeNode>, row: nat, col: nat, above: Option<nat>, before: Option<nat>): (r: seq<MazeNode>)
    ensures |r| == |ns| + 1
    ensures r[|ns|] == MazeNode(col, row, None, above, None, before, None)
    ensures forall k {:trigger r[k]} :: 0 <= k < |ns| ==>
      r[k] == ns[k].(right := if above == Some(k) then Some(|ns|) else ns[k].right,
                     down := if before == Some(k) then Some(|ns|) else ns[k].down)
    ensures forall k {:trigger r[k]} :: 0 <= k < |ns| ==>
      && r[k].row == ns[k].row && r[k].col == ns[k].col && r[k].distanceUsing == ns[k].distanceUsing
      && r[k].left == ns[k].left && r[k].up == ns[k].up
  {
    var m := |ns|;
    var ns1 := ns + [MazeNode(col, row, None, above, None, before, None)];
    var ns2 := if above.Some? && above.value < m then ns1[above.value := ns1[above.value].(right := Some(m))] else ns1;
    if before.Some? && before.value < m then ns2[before.value := ns2[before.value].(down := Some(m))] else ns2
  }

  /** Scanning further never invalidates the graph built so far. */
  lemma GraphOkLater(L: Layout, ns: seq<MazeNode>, row: int, col: int, row': int, col': int)
    requires GraphOk(L, ns, row, col)
    requires row < row' || (row == row' && col <= col')
    ensures GraphOk(L, ns, row', col')
  {
  }

  /** The end of one row is the start of the next. */
  lemma GraphOkNextRow(L: Layout, ns: seq<MazeNode>, row: int)
    requires L.Valid() && GraphOk(L, ns, row, L.sideSize)
    ensures GraphOk(L, ns, row + 1, 0)
  {
  }

  /**
   * No earlier node's upward scan stops at the node found above a new cell
   * (row, col): such a node would lie strictly between them in the column,
   * where the scan from (row, col) saw no node cell.
   */
  lemma NoOtherBelow(L: Layout, ns: seq<MazeNode>, row: nat, col: nat, i: nat)
    requires GraphOk(L, ns, row, col)
    requires TargetAbove(L, ns, row - 1, col, Some(i))
    ensures forall j :: 0 <= j < |ns| ==> ns[j].left != Some(i)
  {
    var x := ns[i].row;
    ColumnPartnerIff(L, row - 1, col, x);
    forall j | 0 <= j < |ns|
      ensures ns[j].left != Some(i)
    {
      if ns[j].left == Some(i) {
        ColumnPartnerIff(L, ns[j].row - 1, col, x);
      }
    }
  }

  /** The row-wise counterpart of NoOtherBelow. */
  lemma NoOtherAfter(L: Layout, ns: seq<MazeNode>, row: nat, col: nat, i: nat)
    requires GraphOk(L, ns, row, col)
    requires TargetBefore(L, ns, row, col - 1, Some(i))
    ensures forall j :: 0 <= j < |ns| ==> ns[j].up != Some(i)
  {
    var x := ns[i].col;
    RowPartnerIff(L, row, col - 1, x);
    forall j | 0 <= j < |ns|
      ensures ns[j].up != Some(i)
    {
      if ns[j].up == Some(i) {
        RowPartnerIff(L, row, ns[j].col - 1, x);
      }
    }
  }

  /**
   * Adding the node of a node cell, linked to what the two backward scans
   * found, extends a valid graph to one covering that cell as well.
   */
  lemma AddStep(L: Layout, ns: seq<MazeNode>, row: nat, col: nat, above: Option<nat>, before: Option<nat>)
    requires GraphOk(L, ns, row, col)
    requires L.InGrid(row, col) && L.HasNode(row, col)
    requires TargetAbove(L, ns, row - 1, col, above)
    requires TargetBefore(L, ns, row, col - 1, before)
    ensures GraphOk(L, Linked(ns, row, col, above, before), row, col + 1)
  {
    AddStepPlaced(L, ns, row, col, above, before);
    AddStepColumnBackLinks(L, ns, row, col, above, before);
    AddStepRowBackLinks(L, ns, row, col, above, before);
    if above.Some? {
      NoOtherBelow(L, ns, row, col, above.value);
    }
    if before.Some? {
      NoOtherAfter(L, ns, row, col, before.value);
    }
    AddStepInRange(ns, row, col, above, before);
    AddStepColumnSymmetric(ns, row, col, above, before);
    AddStepRowSymmetric(ns, row, col, above, before);
  }

  lemma AddStepPlaced(L: Layout, ns: seq<MazeNode>, row: nat, col: nat, above: Option<nat>, before: Option<nat>)
    requires NodesPlaced(L, ns, row, col)
    requires L.InGrid(row, col) && L.HasNode(row, col)
    ensures NodesPlaced(L, Linked(ns, row, col, above, before), row, col + 1)
  {
    var r := Linked(ns, row, col, above, before);
    forall k | 0 <= k < |r|
      ensures L.InGrid(r[k].row, r[k].col) && L.HasNode(r[k].row, r[k].col)
      ensures Processed(r[k].row, r[k].col, row, col + 1) && r[k].distanceUsing == None
    {
      if k < |ns| {
        assert r[k].row == ns[k].row && r[k].col == ns[k].col && r[k].distanceUsing == ns[k].distanceUsing;
      }
    }
  }

  lemma AddStepColumnBackLinks(L: Layout, ns: seq<MazeNode>, row: nat, col: nat, above: Option<nat>, before: Option<nat>)
    requires ColumnBackLinks(L, ns) && LinksInRange(ns)
    requires TargetAbove(L, ns, row - 1, col, above)
    ensures ColumnBackLinks(L, Linked(ns, row, col, above, before))
  {
    var r := Linked(ns, row, col, above, before);
    var m := |ns|;
    forall k | 0 <= k < |r| && r[k].left.None?
      ensures L.ColumnPartner(r[k].row - 1, r[k].col).None?
    {
    }
    forall k, j {:trigger r[k], r[j]} | 0 <= k < |r| && 0 <= j < |r| && r[k].left == Some(j)
      ensures r[j].col == r[k].col && L.ColumnPartner(r[k].row - 1, r[k].col) == Some(r[j].row)
    {
      if k < m {
        assert ns[k].left == Some(j);
      } else {
        assert above == Some(j);
      }
    }
  }


  lemma AddStepRowBackLinks(L: Layout, ns: seq<MazeNode>, row: nat, col: nat, above: Option<nat>, before: Option<nat>)
    requires RowBackLinks(L, ns) && LinksInRange(ns)
    requires TargetBefore(L, ns, row, col - 1, before)
    ensures RowBackLinks(L, Linked(ns, row, col, above, before))
  {
    var r := Linked(ns, row, col, above, before);
    var m := |ns|;
    forall k | 0 <= k < |r| && r[k].up.None?
      ensures L.RowPartner(r[k].row, r[k].col - 1).None?
    {
    }
    forall k, j {:trigger r[k], r[j]} | 0 <= k < |r| && 0 <= j < |r| && r[k].up == Some(j)
      ensures r[j].row == r[k].row && L.RowPartner(r[k].row, r[k].col - 1) == Some(r[j].col)
    {
      if k < m {
        assert ns[k].up == Some(j);
      } else {
        assert before == Some(j);
      }
    }
  }


  lemma AddStepInRange(ns: seq<MazeNode>, row: nat, col: nat, above: Option<nat>, before: Option<nat>)
    requires LinksInRange(ns)
    requires above.Some? ==> above.value < |ns|
    requires before.Some? ==> before.value < |ns|
    ensures LinksInRange(Linked(ns, row, col, above, before))
  {
  }

  lemma AddStepColumnSymmetric(ns: seq<MazeNode>, row: nat, col: nat, above: Option<nat>, before: Option<nat>)
    requires ColumnSymmetric(ns) && LinksInRange(ns)
    requires above.Some? ==> above.value < |ns| && forall j :: 0 <= j < |ns| ==> ns[j].left != above
    ensures ColumnSymmetric(Linked(ns, row, col, above, before))
  {
    var m := |ns|;
    var r := Linked(ns, row, col, above, before);
    forall k, j {:trigger r[k], r[j]} | 0 <= k < |r| && 0 <= j < |r|
      ensures r[k].left == Some(j) <==> r[j].right == Some(k)
    {
      if k < m && j < m {
        assert r[k].left == ns[k].left;
        if above == Some(j) {
          assert ns[k].left != Some(j);
        }
      }
    }
  }

  lemma AddStepRowSymmetric(ns: seq<MazeNode>, row: nat, col: nat, above: Option<nat>, before: Option<nat>)
    requires RowSymmetric(ns) && LinksInRange(ns)
    requires before.Some? ==> before.value < |ns| && forall j :: 0 <= j < |ns| ==> ns[j].up != before
    ensures RowSymmetric(Linked(ns, row, col, above, before))
  {
    var m := |ns|;
    var r := Linked(ns, row, col, above, before);
    forall k, j {:trigger r[k], r[j]} | 0 <= k < |r| && 0 <= j < |r|
      ensures r[k].up == Some(j) <==> r[j].down == Some(k)
    {
      if k < m && j < m {
        assert r[k].up == ns[k].up;
        if before == Some(j) {
          assert ns[k].up != Some(j);
        }
      }
    }
  }
  /**
   * `t` is a snapshot of the node table: a side x side matrix of -1 (no
   * node) or arena indices. It marks exactly the node cells scanned before
   * (row, col), and table and arena are inverse to each other.
   */
  ghost predicate TableMatches(L: Layout, t: seq<seq<int>>, ns: seq<MazeNode>, row: int, col: int)
  {
    && |t| == L.sideSize
    && (forall r :: 0 <= r < |t| ==> |t[r]| == L.sideSize)
    && (forall r, c {:trigger t[r][c]} :: 0 <= r < L.sideSize && 0 <= c < L.sideSize ==>
          && (t[r][c] >= 0 <==> Processed(r, c, row, col) && L.HasNode(r, c))
          && (t[r][c] >= 0 ==> t[r][c] < |ns| && ns[t[r][c]].row == r && ns[t[r][c]].col == c))
    && (forall k :: 0 <= k < |ns| ==>
          L.InGrid(ns[k].row, ns[k].col) && t[ns[k].row][ns[k].col] == k)
  }

  /** Recording a new node of cell (row, col) in the table keeps table and arena inverse. */
  lemma AddKeepsTable(L: Layout, t: seq<seq<int>>, ns: seq<MazeNode>, row: nat, col: nat, ns': seq<MazeNode>)
    requires TableMatches(L, t, ns, row, col)
    requires L.InGrid(row, col) && L.HasNode(row, col)
    requires |ns'| == |ns| + 1 && ns'[|ns|].row == row && ns'[|ns|].col == col
    requires forall k :: 0 <= k < |ns| ==> ns'[k].row == ns[k].row && ns'[k].col == ns[k].col
    ensures TableMatches(L, t[row := t[row][col := |ns|]], ns', row, col + 1)
  {
    var t' := t[row := t[row][col := |ns|]];
    forall k | 0 <= k < |ns'|
      ensures L.InGrid(ns'[k].row, ns'[k].col) && t'[ns'[k].row][ns'[k].col] == k
    {
      if k < |ns| {
        assert t[ns[k].row][ns[k].col] == k;
      }
    }
    forall r, c {:trigger t'[r][c]} | 0 <= r < L.sideSize && 0 <= c < L.sideSize
      ensures t'[r][c] >= 0 <==> Processed(r, c, row, col + 1) && L.HasNode(r, c)
      ensures t'[r][c] >= 0 ==> t'[r][c] < |ns'| && ns'[t'[r][c]].row == r && ns'[t'[r][c]].col == c
    {
      if r != row || c != col {
        assert t'[r][c] == t[r][c];
      }
    }
  }

  /**
   * Link geometry, in the program's naming: `left` is a node higher up the
   * same column and `right` one lower down; `up` is a node further left on
   * the same row and `down` one further right.
   */
  ghost predicate WellLinked(ns: seq<MazeNode>)
  {
    && LinksInRange(ns)
    && forall k, j {:trigger ns[k], ns[j]} :: 0 <= k < |ns| && 0 <= j < |ns| ==>
         && (ns[k].left == Some(j) ==> ns[j].col == ns[k].col && ns[j].row < ns[k].row)
         && (ns[k].right == Some(j) ==> ns[j].col == ns[k].col && ns[j].row > ns[k].row)
         && (ns[k].up == Some(j) ==> ns[j].row == ns[k].row && ns[j].col < ns[k].col)
         && (ns[k].down == Some(j) ==> ns[j].row == ns[k].row && ns[j].col > ns[k].col)
  }

  /**
   * A left/right pair shares a column, the left node is above, and every
   * cell strictly between them is open and has no node.
   */
  lemma ColumnLinkSpan(L: Layout, ns: seq<MazeNode>, row: int, col: int, k: nat, j: nat)
    requires GraphOk(L, ns, row, col) && k < |ns| && ns[k].left == Some(j)
    ensures j < |ns| && ns[j].right == Some(k)
    ensures ns[j].col == ns[k].col && ns[j].row < ns[k].row
    ensures forall y :: ns[j].row < y < ns[k].row ==> !L.IsWall(y, ns[k].col) && !L.HasNode(y, ns[k].col)
  {
    ColumnPartnerIff(L, ns[k].row - 1, ns[k].col, ns[j].row);
  }

  /**
   * An up/down pair shares a row, the up node is to the left, and every cell
   * strictly between them is open and has no node.
   */
  lemma RowLinkSpan(L: Layout, ns: seq<MazeNode>, row: int, col: int, k: nat, j: nat)
    requires GraphOk(L, ns, row, col) && k < |ns| && ns[k].up == Some(j)
    ensures j < |ns| && ns[j].down == Some(k)
    ensures ns[j].row == ns[k].row && ns[j].col < ns[k].col
    ensures forall y :: ns[j].col < y < ns[k].col ==> !L.IsWall(ns[k].row, y) && !L.HasNode(ns[k].row, y)
  {
    RowPartnerIff(L, ns[k].row, ns[k].col - 1, ns[j].col);
  }

  /** The graph built by the scan is well linked. */
  lemma GraphWellLinked(L: Layout, ns: seq<MazeNode>, row: int, col: int)
    requires GraphOk(L, ns, row, col)
    ensures WellLinked(ns)
  {
    forall k, j | 0 <= k < |ns| && 0 <= j < |ns|
      ensures ns[k].left == Some(j) ==> ns[j].col == ns[k].col && ns[j].row < ns[k].row
      ensures ns[k].right == Some(j) ==> ns[j].col == ns[k].col && ns[j].row > ns[k].row
      ensures ns[k].up == Some(j) ==> ns[j].row == ns[k].row && ns[j].col < ns[k].col
      ensures ns[k].down == Some(j) ==> ns[j].row == ns[k].row && ns[j].col > ns[k].col
    {
      if ns[k].left == Some(j) {
        ColumnLinkSpan(L, ns, row, col, k, j);
      }
      if ns[k].right == Some(j) {
        ColumnLinkSpan(L, ns, row, col, j, k);
      }
      if ns[k].up == Some(j) {
        RowLinkSpan(L, ns, row, col, k, j);
      }
      if ns[k].down == Some(j) {
        RowLinkSpan(L, ns, row, col, j, k);
      }
    }
  }

  /** Every cell of column `col` strictly between rows `lo` and `hi` is open. */
  ghost predicate OpenInColumn(L: Layout, col: int, lo: int, hi: int)
  {
    forall y :: lo < y < hi ==> !L.IsWall(y, col)
  }

  /** Every cell of row `row` strictly between columns `lo` and `hi` is open. */
  ghost predicate OpenInRow(L: Layout, row: int, lo: int, hi: int)
  {
    forall x :: lo < x < hi ==> !L.IsWall(row, x)
  }

  /** Every cell strictly between two nodes of one column, or of one row, is open. */
  ghost predicate OpenBetween(L: Layout, a: MazeNode, b: MazeNode)
  {
    && (a.col == b.col ==> OpenInColumn(L, a.col, a.row, b.row) && OpenInColumn(L, a.col, b.row, a.row))
    && (a.row == b.row ==> OpenInRow(L, a.row, a.col, b.col) && OpenInRow(L, a.row, b.col, a.col))
  }

  /** No link crosses a wall. */
  ghost predicate OpenLinks(L: Layout, ns: seq<MazeNode>)
  {
    forall k, j {:trigger ns[k], ns[j]} :: 0 <= k < |ns| && 0 <= j < |ns| ==>
      (ns[k].left == Some(j) || ns[k].right == Some(j) || ns[k].up == Some(j) || ns[k].down == Some(j)) ==>
      OpenBetween(L, ns[k], ns[j])
  }

  /** Every node other than the start and end nodes sits on an open cell. */
  ghost predicate NodesOpen(L: Layout, ns: seq<MazeNode>, start: int, end: int)
  {
    forall k :: 0 <= k < |ns| && k != start && k != end ==> !L.IsWall(ns[k].row, ns[k].col)
  }

  /** Every node cell of the grid has a node in the arena. */
  ghost predicate Covers(L: Layout, ns: seq<MazeNode>)
  {
    forall r, c :: L.InGrid(r, c) && L.HasNode(r, c) ==>
      exists k :: 0 <= k < |ns| && ns[k].row == r && ns[k].col == c
  }

  /** No two nodes of the arena sit on the same cell. */
  ghost predicate OneNodePerCell(ns: seq<MazeNode>)
  {
    forall k, j :: 0 <= k < |ns| && 0 <= j < |ns| && ns[k].row == ns[j].row && ns[k].col == ns[j].col ==> k == j
  }

  /** A table inverse to the arena holds one entry per cell, so no two nodes share a cell. */
  lemma TableOneNodePerCell(L: Layout, t: seq<seq<int>>, ns: seq<MazeNode>, row: int, col: int)
    requires TableMatches(L, t, ns, row, col)
    ensures OneNodePerCell(ns)
  {
    forall k, j | 0 <= k < |ns| && 0 <= j < |ns| && ns[k].row == ns[j].row && ns[k].col == ns[j].col
      ensures k == j
    {
      assert t[ns[k].row][ns[k].col] == k && t[ns[j].row][ns[j].col] == j;
    }
  }

  /** In the graph built by the scan, no link crosses a wall. */
  lemma GraphOpenLinks(L: Layout, ns: seq<MazeNode>, row: int, col: int)
    requires GraphOk(L, ns, row, col)
    ensures OpenLinks(L, ns)
  {
    forall k, j | 0 <= k < |ns| && 0 <= j < |ns| &&
      (ns[k].left == Some(j) || ns[k].right == Some(j) || ns[k].up == Some(j) || ns[k].down == Some(j))
      ensures OpenBetween(L, ns[k], ns[j])
    {
      if ns[k].left == Some(j) {
        ColumnLinkSpan(L, ns, row, col, k, j);
      } else if ns[k].right == Some(j) {
        ColumnLinkSpan(L, ns, row, col, j, k);
      } else if ns[k].up == Some(j) {
        RowLinkSpan(L, ns, row, col, k, j);
      } else {
        RowLinkSpan(L, ns, row, col, j, k);
      }
    }
  }
}
