/**
 * The solver object: the maze layout, the table `nodeGrid` mapping each cell
 * to the index of its node (-1 for none), the node arena, and the start and
 * end node indices.
 */
module MazeSolver {
  import opened Wrappers
  import opened MazeGrid
  import opened MazeGraph
  import opened PathEncoding
  import opened MazeSearch
  import opened MazeRoute

  class Maze {
    const layout: Layout
    const nodeGrid: array2<int>
    var nodes: seq<MazeNode>
    var startNode: int
    var endNode: int

    /** The table has the grid's shape and holds -1 or an arena index. */
    ghost predicate Valid()
      reads this`nodes, nodeGrid
    {
      && layout.Valid()
      && nodeGrid.Length0 == layout.sideSize
      && nodeGrid.Length1 == layout.sideSize
      && forall r, c :: 0 <= r < layout.sideSize && 0 <= c < layout.sideSize ==>
           -1 <= nodeGrid[r, c] < |nodes|
    }

    /** The contents of the node table, row by row. */
    ghost function Table(): (t: seq<seq<int>>)
      reads this`nodes, nodeGrid
      requires Valid()
      ensures |t| == layout.sideSize
      ensures forall r :: 0 <= r < |t| ==> |t[r]| == layout.sideSize
      ensures forall r, c :: 0 <= r < layout.sideSize && 0 <= c < layout.sideSize ==> t[r][c] == nodeGrid[r, c]
    {
      seq(layout.sideSize, r requires 0 <= r < layout.sideSize reads nodeGrid =>
        seq(layout.sideSize, c requires 0 <= c < layout.sideSize reads nodeGrid => nodeGrid[r, c]))
    }

    /** The node table and the arena agree: table entries and node cells are inverse. */
    ghost predicate TableOk(row: int, col: int)
      reads this`nodes, nodeGrid
      requires Valid()
    {
      TableMatches(layout, Table(), nodes, row, col)
    }

    /** Once the start (end) cell is scanned, startNode (endNode) is its node. */
    ghost predicate EndsOk(row: int, col: int)
      reads this, nodeGrid
      requires Valid()
    {
      && (Processed(layout.fromY, layout.fromX, row, col) ==> startNode == nodeGrid[layout.fromY, layout.fromX])
      && (Processed(layout.toY, layout.toX, row, col) ==> endNode == nodeGrid[layout.toY, layout.toX])
    }

    /** The graph and the table after every cell before (row, col) was scanned. */
    ghost predicate Scanned(row: int, col: int)
      reads this`nodes, nodeGrid
    {
      Valid() && GraphOk(layout, nodes, row, col) && TableOk(row, col)
    }

    /** The state of the grid-to-graph pass after every cell before (row, col). */
    ghost predicate Built(row: int, col: int)
      reads this, nodeGrid
    {
      Scanned(row, col) && EndsOk(row, col)
    }

    /** The upward scan of addNode over the current table, from rowA in column col. */
    ghost function ColumnScan(rowA: int, col: nat): Option<nat>
      reads this`nodes, nodeGrid
      requires Valid() && col < layout.sideSize && rowA < layout.sideSize
      decreases rowA + 1
    {
      if rowA < 0 then None
      else if layout.IsWall(rowA, col) then None
      else if nodeGrid[rowA, col] < 0 then ColumnScan(rowA - 1, col)
      else Some(nodeGrid[rowA, col] as nat)
    }

    /** The leftward scan of addNode over the current table, from colA in row row. */
    ghost function RowScan(row: nat, colA: int): Option<nat>
      reads this`nodes, nodeGrid
      requires Valid() && row < layout.sideSize && colA < layout.sideSize
      decreases colA + 1
    {
      if colA < 0 then None
      else if layout.IsWall(row, colA) then None
      else if nodeGrid[row, colA] < 0 then RowScan(row, colA - 1)
      else Some(nodeGrid[row, colA] as nat)
    }

    /** Allocates the empty node table for a valid layout. */
    constructor (maze: Layout)
      requires maze.Valid()
      ensures layout == maze && Valid() && fresh(nodeGrid)
      ensures nodes == [] && startNode == -1 && endNode == -1
      ensures Built(0, 0)
    {
      layout := maze;
      nodeGrid := new int[maze.sideSize, maze.sideSize]((r, c) => -1);
      nodes := [];
      startNode, endNode := -1, -1;
    }

    /**
     * Over the cells already scanned the table marks exactly the node cells,
     * so the upward scan finds the node of ColumnPartner.
     */
    lemma {:induction false} ColumnScanFindsPartner(row: nat, col: nat, rowA: int)
      requires Valid() && TableOk(row, col) && layout.InGrid(row, col)
      requires rowA < row
      ensures TargetAbove(layout, nodes, rowA, col, ColumnScan(rowA, col))
      decreases rowA + 1
    {
      if rowA >= 0 && !layout.IsWall(rowA, col) {
        assert Processed(rowA, col, row, col);
        if nodeGrid[rowA, col] < 0 {
          ColumnScanFindsPartner(row, col, rowA - 1);
        }
      }
    }

    /** The leftward counterpart of ColumnScanFindsPartner. */
    lemma {:induction false} RowScanFindsPartner(row: nat, col: nat, colA: int)
      requires Valid() && TableOk(row, col) && layout.InGrid(row, col)
      requires colA < col
      ensures TargetBefore(layout, nodes, row, colA, RowScan(row, colA))
      decreases colA + 1
    {
      if colA >= 0 && !layout.IsWall(row, colA) {
        assert Processed(row, colA, row, col);
        if nodeGrid[row, colA] < 0 {
          RowScanFindsPartner(row, col, colA - 1);
        }
      }
    }

    /**
     * addNode: creates the node of cell (row, col), records it in the table,
     * and links it to the nearest node up its column (left/right) and along
     * its row (up/down), unless a wall or the edge is met first.
     */
    method AddNode(row: nat, col: nat) returns (added: nat)
      requires Valid() && layout.InGrid(row, col)
      modifies this, nodeGrid
      ensures Valid()
      ensures added == old(|nodes|) && nodeGrid[row, col] == added
      ensures nodes == Linked(old(nodes), row, col, old(ColumnScan(row - 1, col)), old(RowScan(row, col - 1)))
      ensures forall r, c :: 0 <= r < layout.sideSize && 0 <= c < layout.sideSize && (r != row || c != col) ==>
        nodeGrid[r, c] == old(nodeGrid[r, c])
      ensures Table() == old(Table())[row := old(Table())[row][col := added]]
      ensures startNode == old(startNode) && endNode == old(endNode)
    {
      ghost var t0 := Table();
      // Both scans only read cells before (row, col), so they are run before
      // the new node is stored.
      var above: Option<nat> := None;
      var rowA := row - 1;
      while rowA >= 0
        invariant -1 <= rowA < row
        invariant above == None
        invariant ColumnScan(row - 1, col) == ColumnScan(rowA, col)
        decreases rowA + 1
      {
        if layout.grid[rowA][col] == WallChar {
          break;
        }
        if nodeGrid[rowA, col] < 0 {
          rowA := rowA - 1;
          continue;
        }
        above := Some(nodeGrid[rowA, col] as nat);
        break;
      }
      assert above == ColumnScan(row - 1, col);

      var before: Option<nat> := None;
      var colA := col - 1;
      while colA >= 0
        invariant -1 <= colA < col
        invariant before == None
        invariant RowScan(row, col - 1) == RowScan(row, colA)
        decreases colA + 1
      {
        if layout.grid[row][colA] == WallChar {
          break;
        }
        if nodeGrid[row, colA] < 0 {
          colA := colA - 1;
          continue;
        }
        before := Some(nodeGrid[row, colA] as nat);
        break;
      }
      assert before == RowScan(row, col - 1);

      added := |nodes|;
      nodes := nodes + [MazeNode(col, row, None, above, None, before, None)];
      if above.Some? {
        nodes := nodes[above.value := nodes[above.value].(right := Some(added))];
      }
      if before.Some? {
        nodes := nodes[before.value := nodes[before.value].(down := Some(added))];
      }
      nodeGrid[row, col] := added;
      TableAfterStore(t0, row, col);
    }

    /** The snapshot of a table that differs from `t0` only at (row, col). */
    lemma TableAfterStore(t0: seq<seq<int>>, row: nat, col: nat)
      requires Valid() && layout.InGrid(row, col)
      requires |t0| == layout.sideSize && forall r :: 0 <= r < |t0| ==> |t0[r]| == layout.sideSize
      requires forall r, c :: 0 <= r < layout.sideSize && 0 <= c < layout.sideSize && (r != row || c != col) ==>
        nodeGrid[r, c] == t0[r][c]
      ensures Table() == t0[row := t0[row][col := nodeGrid[row, col]]]
    {
      var t := Table();
      var t' := t0[row := t0[row][col := nodeGrid[row, col]]];
      forall r | 0 <= r < layout.sideSize
        ensures t[r] == t'[r]
      {
        assert forall c :: 0 <= c < layout.sideSize ==> t[r][c] == t'[r][c];
      }
    }

    /**
     * One step of makeNodes that adds a node at (row, col): from the graph
     * and table before the cell (captured as ns0, t0) to those after it.
     */
    lemma FinishAdded(row: nat, col: nat, ns0: seq<MazeNode>, t0: seq<seq<int>>,
                      cs: Option<nat>, rs: Option<nat>)
      requires Valid() && layout.InGrid(row, col)
      requires GraphOk(layout, ns0, row, col) && TableMatches(layout, t0, ns0, row, col)
      requires TargetAbove(layout, ns0, row - 1, col, cs) && TargetBefore(layout, ns0, row, col - 1, rs)
      requires layout.HasNode(row, col)
      requires nodes == Linked(ns0, row, col, cs, rs)
      requires Table() == t0[row := t0[row][col := |ns0|]]
      ensures Scanned(row, col + 1)
    {
      AddStep(layout, ns0, row, col, cs, rs);
      AddKeepsTable(layout, t0, ns0, row, col, nodes);
    }

    /**
     * addNode as makeNodes calls it, on a cell that is to become a node:
     * the graph and table invariants move past the cell, and the cell holds
     * the new node.
     */
    method AddCell(row: nat, col: nat) returns (added: nat)
      requires Built(row, col) && layout.InGrid(row, col) && layout.HasNode(row, col)
      modifies this, nodeGrid
      ensures Scanned(row, col + 1) && EndsOk(row, col)
      ensures nodeGrid[row, col] == added
      ensures startNode == old(startNode) && endNode == old(endNode)
    {
      ghost var ns0, t0 := nodes, Table();
      ghost var cs, rs := ColumnScan(row - 1, col), RowScan(row, col - 1);
      ColumnScanFindsPartner(row, col, row - 1);
      RowScanFindsPartner(row, col, col - 1);
      added := AddNode(row, col);
      FinishAdded(row, col, ns0, t0, cs, rs);
    }

    /**
     * One step of makeNodes that adds no node at (row, col): nothing changes
     * and the invariant moves past the cell.
     */
    lemma FinishSkipped(row: nat, col: nat)
      requires Built(row, col) && layout.InGrid(row, col) && !layout.HasNode(row, col)
      ensures Built(row, col + 1)
    {
      GraphOkLater(layout, nodes, row, col, row, col + 1);
      assert TableOk(row, col + 1) by {
        forall r, c | 0 <= r < layout.sideSize && 0 <= c < layout.sideSize
          ensures Processed(r, c, row, col + 1) && layout.HasNode(r, c) <==> Processed(r, c, row, col) && layout.HasNode(r, c)
        {
        }
      }
    }

    /**
     * The body of makeNodes' double loop for one cell: the start and the end
     * always get a node, even on a wall, and become startNode and endNode.
     */
    method ScanCell(row: nat, col: nat)
      requires Built(row, col) && layout.InGrid(row, col)
      modifies this, nodeGrid
      ensures Built(row, col + 1)
    {
      if layout.IsStart(row, col) || layout.IsEnd(row, col) {
        var added := AddCell(row, col);
        RecordEnd(row, col, added);
      } else {
        ScanInnerCell(row, col);
      }
    }

    /**
     * The assignment of addNode's result in makeNodes: the node just added on
     * the start cell becomes startNode, else the one on the end cell becomes
     * endNode.
     */
    method RecordEnd(row: nat, col: nat, added: nat)
      requires Scanned(row, col + 1) && EndsOk(row, col) && layout.InGrid(row, col)
      requires layout.IsStart(row, col) || layout.IsEnd(row, col)
      requires nodeGrid[row, col] == added
      modifies this`startNode, this`endNode
      ensures Built(row, col + 1)
      ensures layout.IsStart(row, col) ==> startNode == added && endNode == old(endNode)
      ensures !layout.IsStart(row, col) ==> endNode == added && startNode == old(startNode)
    {
      if col == layout.fromX && row == layout.fromY {
        startNode := added;
      } else {
        endNode := added;
      }
    }

    /**
     * The part of ScanCell for a cell that is neither the start nor the end:
     * a wall never gets a node; an open cell gets one unless its vertical
     * neighbours are both walls or its horizontal neighbours are.
     */
    method ScanInnerCell(row: nat, col: nat)
      requires Built(row, col) && layout.InGrid(row, col)
      requires !layout.IsStart(row, col) && !layout.IsEnd(row, col)
      modifies this, nodeGrid
      ensures Built(row, col + 1)
    {
      var n := layout.sideSize;
      // a cell holding the wall character gets no node
      if layout.grid[row][col] == WallChar {
        assert !layout.HasNode(row, col);
        FinishSkipped(row, col);
        return;
      }
      // corridors and dead ends are not nodes
      var wallToLeft := if row > 0 then layout.grid[row - 1][col] == WallChar else true;
      var wallToRight := if row < n - 1 then layout.grid[row + 1][col] == WallChar else true;
      assert wallToLeft == layout.IsWall(row - 1, col) && wallToRight == layout.IsWall(row + 1, col);
      if wallToLeft && wallToRight {
        assert !layout.HasNode(row, col);
        FinishSkipped(row, col);
        return;
      }
      var wallToTop := if col > 0 then layout.grid[row][col - 1] == WallChar else true;
      var wallToBottom := if col < n - 1 then layout.grid[row][col + 1] == WallChar else true;
      assert wallToTop == layout.IsWall(row, col - 1) && wallToBottom == layout.IsWall(row, col + 1);
      if wallToTop && wallToBottom {
        assert !layout.HasNode(row, col);
        FinishSkipped(row, col);
        return;
      }
      assert layout.HasNode(row, col);
      var _ := AddCell(row, col);
    }

    /**
     * makeNodes: scans the grid in row-major order, adding the nodes
     * ScanCell decides on.
     */
    method MakeNodes()
      requires Built(0, 0)
      modifies this, nodeGrid
      ensures Built(layout.sideSize, 0)
      ensures forall r, c :: 0 <= r < layout.sideSize && 0 <= c < layout.sideSize ==>
        (nodeGrid[r, c] >= 0 <==> layout.HasNode(r, c))
      ensures 0 <= startNode < |nodes| && CellOf(nodes[startNode]) == (layout.fromY, layout.fromX)
      ensures 0 <= endNode < |nodes| && CellOf(nodes[endNode]) == (layout.toY, layout.toX)
      ensures Symmetric(nodes) && WellLinked(nodes) && OpenLinks(layout, nodes)
      ensures NodesOpen(layout, nodes, startNode, endNode) && Covers(layout, nodes)
      ensures OneNodePerCell(nodes)
    {
      var n := layout.sideSize;
      var row: nat := 0;
      while row < n
        invariant 0 <= row <= n
        invariant Built(row, 0)
      {
        ScanRow(row);
        row := row + 1;
      }
      BuiltComplete();
    }

    /** The inner loop of makeNodes: scan the cells of `row` from left to right. */
    method ScanRow(row: nat)
      requires Built(row, 0) && row < layout.sideSize
      modifies this, nodeGrid
      ensures Built(row + 1, 0)
    {
      var n := layout.sideSize;
      var col: nat := 0;
      while col < n
        invariant 0 <= col <= n
        invariant Built(row, col)
      {
        ScanCell(row, col);
        col := col + 1;
      }
      BuiltNextRow(row);
    }

    /** Having scanned a whole row is having scanned up to the start of the next. */
    lemma BuiltNextRow(row: nat)
      requires Built(row, layout.sideSize)
      ensures Built(row + 1, 0)
    {
      GraphOkNextRow(layout, nodes, row);
    }

    /** What the finished scan guarantees about the table, the ends and the links. */
    lemma BuiltComplete()
      requires Built(layout.sideSize, 0)
      ensures forall r, c :: 0 <= r < layout.sideSize && 0 <= c < layout.sideSize ==>
        (nodeGrid[r, c] >= 0 <==> layout.HasNode(r, c))
      ensures 0 <= startNode < |nodes| && CellOf(nodes[startNode]) == (layout.fromY, layout.fromX)
      ensures 0 <= endNode < |nodes| && CellOf(nodes[endNode]) == (layout.toY, layout.toX)
      ensures Symmetric(nodes) && WellLinked(nodes) && OpenLinks(layout, nodes)
      ensures NodesOpen(layout, nodes, startNode, endNode) && Covers(layout, nodes)
      ensures OneNodePerCell(nodes)
    {
      var t := Table();
      assert t[layout.fromY][layout.fromX] == nodeGrid[layout.fromY, layout.fromX];
      assert t[layout.toY][layout.toX] == nodeGrid[layout.toY, layout.toX];
      forall r, c | 0 <= r < layout.sideSize && 0 <= c < layout.sideSize
        ensures nodeGrid[r, c] >= 0 <==> layout.HasNode(r, c)
      {
        assert t[r][c] == nodeGrid[r, c];
      }
      GraphWellLinked(layout, nodes, layout.sideSize, 0);
      GraphOpenLinks(layout, nodes, layout.sideSize, 0);
      forall k | 0 <= k < |nodes| && k != startNode && k != endNode
        ensures !layout.IsWall(nodes[k].row, nodes[k].col)
      {
        // the table maps the start and end cells to startNode and endNode
        assert t[nodes[k].row][nodes[k].col] == k;
      }
      forall r, c | layout.InGrid(r, c) && layout.HasNode(r, c)
        ensures exists k :: 0 <= k < |nodes| && nodes[k].row == r && nodes[k].col == c
      {
        assert t[r][c] == nodeGrid[r, c];
      }
      TableOneNodePerCell(layout, t, nodes, layout.sideSize, 0);
    }

    /** vectHolds: whether `mightContain` is a node (not null) that occurs in `v`, by linear scan. */
    method VectHolds(v: seq<nat>, mightContain: Option<nat>) returns (holds: bool)
      ensures holds <==> mightContain.Some? && mightContain.value in v
    {
      if mightContain.None? {
        return false;
      }
      var i := 0;
      while i < |v|
        invariant 0 <= i <= |v|
        invariant mightContain.value !in v[..i]
      {
        if v[i] == mightContain.value {
          return true;
        }
        i := i + 1;
      }
      assert v[..i] == v;
      return false;
    }

    /**
     * scanNode: a link of `nodeFrom` that leads to a node not yet visited is
     * pushed on the stack and gets `nodeFrom` as its predecessor; otherwise
     * neither the stack nor any predecessor changes.
     */
    method ScanNode(visitedStack: seq<nat>, breadthStack: seq<nat>, nodeFrom: nat, toVisit: Option<nat>)
      returns (stack: seq<nat>)
      requires toVisit.Some? ==> toVisit.value < |nodes|
      modifies this`nodes
      ensures toVisit.Some? && toVisit.value !in visitedStack ==>
        && stack == breadthStack + [toVisit.value]
        && nodes == old(nodes)[toVisit.value := old(nodes)[toVisit.value].(distanceUsing := Some(nodeFrom))]
      ensures toVisit.None? || toVisit.value in visitedStack ==>
        stack == breadthStack && nodes == old(nodes)
    {
      stack := breadthStack;
      // a missing link pushes nothing
      if toVisit.None? {
        return;
      }
      // a link to a visited node pushes nothing
      var seen := VectHolds(visitedStack, toVisit);
      if seen {
        return;
      }
      var v := toVisit.value;
      nodes := nodes[v := nodes[v].(distanceUsing := Some(nodeFrom))];
      stack := stack + [v];
    }

    /**
     * One call of scanNode inside solveBreadth's expansion of `nodeFrom`:
     * with `pushed` the nodes pushed so far, the arena and the stack after
     * the call are those of pushing `pushed` and then what this link adds.
     */
    lemma ScanNodeStep(ns0: seq<MazeNode>, s0: seq<nat>, visited: seq<nat>, nodeFrom: nat,
                       pushed: seq<nat>, link: Option<nat>, ns: seq<MazeNode>, stack: seq<nat>)
      requires nodeFrom < |ns0| && (link.Some? ==> link.value < |ns0|)
      requires link.Some? && link.value !in visited ==>
        stack == s0 + pushed + [link.value] &&
        ns == SetPreds(ns0, pushed, nodeFrom)[link.value := SetPreds(ns0, pushed, nodeFrom)[link.value].(distanceUsing := Some(nodeFrom))]
      requires link.None? || link.value in visited ==>
        stack == s0 + pushed && ns == SetPreds(ns0, pushed, nodeFrom)
      ensures stack == s0 + (pushed + Pushed(visited, link))
      ensures ns == SetPreds(ns0, pushed + Pushed(visited, link), nodeFrom)
      ensures ns[nodeFrom].left == ns0[nodeFrom].left && ns[nodeFrom].right == ns0[nodeFrom].right
      ensures ns[nodeFrom].up == ns0[nodeFrom].up && ns[nodeFrom].down == ns0[nodeFrom].down
    {
      if link.Some? && link.value !in visited {
        SetPredsPush(ns0, pushed, nodeFrom, link.value);
      } else {
        assert pushed + [] == pushed;
      }
    }

    /**
     * solveBreadth: a last-in-first-out search from startNode. The top of
     * the stack is compared with endNode before it is popped; a popped node
     * has its links scanned in the order left, right, up, down and is then
     * appended to the visited list. Reaching endNode hands over to the
     * encoder; an empty stack is a failure.
     *
     * The search fails exactly when no walk along links joins startNode to
     * endNode: every popped node has its links visited or pushed, so when
     * the stack runs empty the visited nodes, the start among them and the
     * end not, are closed under links. On success the answer is the
     * encoding of a predecessor chain from endNode to startNode along links,
     * and following it from the start node's cell lands on the end node's
     * cell. Only predecessors change.
     */
    method SolveBreadth() returns (r: Result<string, string>, ghost chain: seq<nat>)
      requires WellLinked(nodes) && 0 <= startNode < |nodes| && 0 <= endNode < |nodes|
      modifies this`nodes
      ensures SameLinks(old(nodes), nodes)
      ensures r.Failure? <==> !Reachable(old(nodes), startNode, endNode)
      ensures r.Failure? ==> r.error == NotReachedError
      ensures r.Success? ==>
        && IsChain(nodes, chain, startNode, endNode) && FollowsLinks(nodes, chain)
        && (forall i :: 0 < i < |chain| ==> chain[i] != endNode)
        && r == EncodeChain(nodes, chain)
        && Replay(r.value, CellOf(nodes[startNode])) == CellOf(nodes[endNode])
    {
      chain := [];
      var visitedStack: seq<nat> := [];
      var breadthStack: seq<nat> := [startNode];
      SearchInit(nodes, startNode);
      assert SameLinks(nodes, nodes);
      while breadthStack != []
        invariant WellLinked(nodes) && SameLinks(old(nodes), nodes)
        invariant SearchInv(nodes, startNode, breadthStack, visitedStack)
        invariant Closed(nodes, breadthStack, visitedStack)
        invariant endNode !in visitedStack
        decreases Unvisited(|nodes|, visitedStack), |breadthStack|
      {
        var nodeFrom := breadthStack[|breadthStack| - 1];
        if nodeFrom == endNode {
          chain := ChainFromTop(nodes, startNode, breadthStack, visitedStack);
          LinkedChainAligned(nodes, chain);
          EncodeChainReplays(nodes, chain);
          r := GenerateDistanceUsingResult(chain);
          assert LinkWalk(nodes, chain, startNode, endNode);
          ReachableSameLinks(old(nodes), nodes, startNode, endNode);
          return;
        }
        ghost var ns0, stack0, visited0 := nodes, breadthStack, visitedStack;
        breadthStack, visitedStack := PopAndExpand(visitedStack, breadthStack);
        ExpandStep(ns0, startNode, stack0, visited0);
        ExpandClosed(ns0, stack0, visited0);
        ExpandMeasure(ns0, startNode, stack0, visited0);
        SetPredsKeepsLinks(ns0, Expansion(visited0, ns0[nodeFrom]), nodeFrom);
        SameLinksTrans(old(nodes), ns0, nodes);
      }
      // the stack is empty: the visited list holds the start node and is closed under links
      assert visitedStack[0] == startNode;
      ClosedBlocks(nodes, visitedStack, startNode, endNode);
      ReachableSameLinks(old(nodes), nodes, startNode, endNode);
      r := Failure(NotReachedError);
    }

    /**
     * The part of solveBreadth's loop after the end test: pop the top node,
     * scan its links in the order left, right, up, down, then append it to
     * the visited list.
     */
    method PopAndExpand(visitedStack: seq<nat>, breadthStack: seq<nat>) returns (stack: seq<nat>, visited: seq<nat>)
      requires |breadthStack| > 0 && breadthStack[|breadthStack| - 1] < |nodes| && LinksInRange(nodes)
      modifies this`nodes
      ensures var nodeFrom := breadthStack[|breadthStack| - 1];
        var pushed := Expansion(visitedStack, old(nodes)[nodeFrom]);
        && nodes == SetPreds(old(nodes), pushed, nodeFrom)
        && stack == breadthStack[..|breadthStack| - 1] + pushed
        && visited == visitedStack + [nodeFrom]
    {
      ghost var ns0 := nodes;
      var nodeFrom := breadthStack[|breadthStack| - 1];
      stack := breadthStack[..|breadthStack| - 1];
      ghost var s0 := stack;
      ghost var pushed: seq<nat> := [];
      assert nodes == SetPreds(ns0, pushed, nodeFrom);

      var link := nodes[nodeFrom].left;
      stack := ScanNode(visitedStack, stack, nodeFrom, link);
      ScanNodeStep(ns0, s0, visitedStack, nodeFrom, pushed, link, nodes, stack);
      pushed := pushed + Pushed(visitedStack, link);
      assert pushed == Pushed(visitedStack, ns0[nodeFrom].left);

      link := nodes[nodeFrom].right;
      assert link == ns0[nodeFrom].right;
      stack := ScanNode(visitedStack, stack, nodeFrom, link);
      ScanNodeStep(ns0, s0, visitedStack, nodeFrom, pushed, link, nodes, stack);
      pushed := pushed + Pushed(visitedStack, link);

      link := nodes[nodeFrom].up;
      assert link == ns0[nodeFrom].up;
      stack := ScanNode(visitedStack, stack, nodeFrom, link);
      ScanNodeStep(ns0, s0, visitedStack, nodeFrom, pushed, link, nodes, stack);
      pushed := pushed + Pushed(visitedStack, link);

      link := nodes[nodeFrom].down;
      assert link == ns0[nodeFrom].down;
      stack := ScanNode(visitedStack, stack, nodeFrom, link);
      ScanNodeStep(ns0, s0, visitedStack, nodeFrom, pushed, link, nodes, stack);
      pushed := pushed + Pushed(visitedStack, link);

      assert pushed == Expansion(visitedStack, ns0[nodeFrom]);
      visited := visitedStack + [nodeFrom];
    }

    /**
     * generateDistanceUsingResult: walks distanceUsing from endNode back to
     * startNode and puts each step's run in front of the answer so far, so
     * that the answer reads from start to end. `chain` is that walk.
     */
    method GenerateDistanceUsingResult(ghost chain: seq<nat>) returns (r: Result<string, string>)
      requires IsChain(nodes, chain, startNode, endNode)
      ensures r == EncodeChain(nodes, chain)
    {
      var res: string := "";
      var curNode: nat := endNode;
      ghost var k := 0;
      ThenFacts(EncodeChain(nodes, chain), "", "");
      assert chain[k..] == chain;
      while curNode != startNode
        invariant 0 <= k < |chain| && curNode == chain[k]
        invariant EncodeChain(nodes, chain) == Then(EncodeChain(nodes, chain[k..]), res)
        decreases |chain| - k
      {
        var previousNode := nodes[curNode].distanceUsing.value;
        var prev, cur := nodes[previousNode], nodes[curNode];
        var letter: char;
        var dist: int;
        if prev.row < cur.row {
          letter, dist := 'S', cur.row - prev.row;
        } else if prev.row > cur.row {
          letter, dist := 'N', prev.row - cur.row;
        } else if prev.col < cur.col {
          letter, dist := 'E', cur.col - prev.col;
        } else if prev.col > cur.col {
          letter, dist := 'W', prev.col - cur.col;
        } else {
          return Failure(SameCellError);
        }
        // the run already holds one letter; add one per remaining cell
        var distanceVector := [letter];
        ghost var magnitude := dist;
        dist := dist - 1;
        while dist > 0
          invariant 0 <= dist < magnitude
          invariant distanceVector == Repeat(letter, magnitude - dist)
        {
          distanceVector := distanceVector + [distanceVector[0]];
          dist := dist - 1;
        }
        assert StepRun(prev, cur) == Some(distanceVector);
        assert chain[k..][1..] == chain[k + 1..];
        assert EncodeChain(nodes, chain[k..]) == Then(EncodeChain(nodes, chain[k + 1..]), distanceVector);
        ThenFacts(EncodeChain(nodes, chain[k + 1..]), distanceVector, res);
        res := distanceVector + res;
        curNode := previousNode;
        k := k + 1;
      }
      assert chain[k..] == [startNode];
      assert res == "" + res;
      return Success(res);
    }
  }

  /**
   * The solving steps of raceThisURL, without fetching and posting: build
   * the maze object, compact the grid into nodes, search. `graph`,
   * `startNode` and `endNode` are the arena and end points the grid-to-graph
   * pass built. The search fails exactly when no walk along the links of
   * that graph joins the start node to the end node; otherwise the answer
   * leads from the start cell to the end cell through open cells only.
   */
  method SolveMaze(maze: Layout) returns (r: Result<string, string>,
                                          ghost graph: seq<MazeNode>, ghost startNode: nat, ghost endNode: nat)
    requires maze.Valid()
    ensures GraphOk(maze, graph, maze.sideSize, 0) && Covers(maze, graph) && OneNodePerCell(graph)
    ensures startNode < |graph| && CellOf(graph[startNode]) == (maze.fromY, maze.fromX)
    ensures endNode < |graph| && CellOf(graph[endNode]) == (maze.toY, maze.toX)
    ensures r.Failure? <==> !Reachable(graph, startNode, endNode)
    ensures r.Failure? ==> r.error == NotReachedError
    ensures r.Success? ==> Replay(r.value, (maze.fromY, maze.fromX)) == (maze.toY, maze.toX)
    ensures r.Success? ==> AvoidsWalls(maze, r.value, (maze.fromY, maze.fromX))
  {
    var m := new Maze(maze);
    m.MakeNodes();
    graph, startNode, endNode := m.nodes, m.startNode, m.endNode;
    ghost var chain;
    r, chain := m.SolveBreadth();
    SameLinksGeometry(maze, graph, m.nodes, startNode, endNode);
    if r.Success? {
      AnswerAvoidsWalls(maze, m.nodes, chain, startNode, endNode);
    }
  }
}
