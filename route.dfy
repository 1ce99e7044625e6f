/**
 * The answer never leads through a wall. Following it from the start cell,
 * every cell met strictly between the start cell and the end cell is open;
 * the two end cells themselves may hold 'X', since the grid-to-graph pass
 * gives the start and end cells nodes whatever they hold.
 *
 * The argument composes two facts about the built graph along the
 * predecessor chain: no link crosses a wall (OpenLinks), and every node
 * other than the start and end nodes sits on an open cell (NodesOpen).
 */
module MazeRoute {
  import opened Wrappers
  import opened MazeGrid
  import opened MazeGraph
  import opened PathEncoding
  import opened MazeSearch

  /** Following `s` from `at`, every cell after the first and before the last is open. */
  ghost predicate AvoidsWalls(L: Layout, s: string, at: Cell)
  {
    forall i :: 0 < i < |s| ==> !L.IsWall(Trace(s, at)[i].0, Trace(s, at)[i].1)
  }

  /** The run of an aligned step over open cells meets only open cells before its last. */
  lemma StepRunOpen(L: Layout, prev: MazeNode, cur: MazeNode)
    requires Aligned(prev, cur) && OpenBetween(L, prev, cur)
    ensures StepRun(prev, cur).Some?
    ensures AvoidsWalls(L, StepRun(prev, cur).value, CellOf(prev))
  {
    StepRunReplays(prev, cur);
    var at := CellOf(prev);
    if prev.row < cur.row {
      TraceRepeat('S', cur.row - prev.row, at);
    } else if prev.row > cur.row {
      TraceRepeat('N', prev.row - cur.row, at);
    } else if prev.col < cur.col {
      TraceRepeat('E', cur.col - prev.col, at);
    } else {
      TraceRepeat('W', prev.col - cur.col, at);
    }
  }

  /**
   * The encoding of a chain whose steps are aligned and cross no wall, and
   * whose inner nodes sit on open cells, meets only open cells between the
   * start cell and the end cell.
   */
  lemma {:induction false} EncodeChainAvoidsWalls(L: Layout, ns: seq<MazeNode>, chain: seq<nat>)
    requires InArena(ns, chain) && |chain| > 0 && ChainAligned(ns, chain)
    requires forall i :: 0 <= i < |chain| - 1 ==> OpenBetween(L, ns[chain[i + 1]], ns[chain[i]])
    requires forall i :: 0 < i < |chain| - 1 ==> !L.IsWall(ns[chain[i]].row, ns[chain[i]].col)
    ensures EncodeChain(ns, chain).Success?
    ensures AvoidsWalls(L, EncodeChain(ns, chain).value, CellOf(ns[chain[|chain| - 1]]))
    decreases |chain|
  {
    EncodeChainReplays(ns, chain);
    if |chain| > 1 {
      var prev, cur := ns[chain[1]], ns[chain[0]];
      var tail := chain[1..];
      assert ChainAligned(ns, tail) by {
        forall i | 0 <= i < |tail| - 1
          ensures Aligned(ns[tail[i + 1]], ns[tail[i]])
        {
          assert tail[i] == chain[i + 1] && tail[i + 1] == chain[i + 2];
        }
      }
      forall i | 0 <= i < |tail| - 1
        ensures OpenBetween(L, ns[tail[i + 1]], ns[tail[i]])
      {
        assert tail[i] == chain[i + 1] && tail[i + 1] == chain[i + 2];
      }
      forall i | 0 < i < |tail| - 1
        ensures !L.IsWall(ns[tail[i]].row, ns[tail[i]].col)
      {
        assert tail[i] == chain[i + 1];
      }
      EncodeChainAvoidsWalls(L, ns, tail);
      EncodeChainReplays(ns, tail);
      assert Aligned(prev, cur) && OpenBetween(L, prev, cur);
      StepRunOpen(L, prev, cur);
      var run := StepRun(prev, cur).value;
      var rest := EncodeChain(ns, tail).value;
      var at := CellOf(ns[chain[|chain| - 1]]);
      assert tail[|tail| - 1] == chain[|chain| - 1];
      assert EncodeChain(ns, chain).value == rest + run;
      assert Replay(rest, at) == CellOf(prev);
      // the node between the two parts is an inner node unless the tail is just the start
      if |tail| > 1 {
        assert !L.IsWall(prev.row, prev.col);
      } else {
        assert rest == [];
      }
      TraceAppend(rest, run, at);
      var t := Trace(rest + run, at);
      forall i | 0 < i < |rest + run|
        ensures !L.IsWall(t[i].0, t[i].1)
      {
        if i < |rest| {
          assert t[i] == Trace(rest, at)[i];
        } else if i == |rest| {
          assert t[i] == CellOf(prev);
        } else {
          assert t[i] == Trace(run, CellOf(prev))[i - |rest|];
        }
      }
    }
  }

  /** Link geometry, open links and open nodes depend on the links only, not on the predecessors. */
  lemma SameLinksGeometry(L: Layout, a: seq<MazeNode>, b: seq<MazeNode>, start: int, end: int)
    requires SameLinks(a, b)
    requires WellLinked(a) && OpenLinks(L, a) && NodesOpen(L, a, start, end)
    ensures WellLinked(b) && OpenLinks(L, b) && NodesOpen(L, b, start, end)
    ensures forall k :: 0 <= k < |a| ==> CellOf(b[k]) == CellOf(a[k])
  {
    forall k | 0 <= k < |a|
      ensures b[k].left == a[k].left && b[k].right == a[k].right
      ensures b[k].up == a[k].up && b[k].down == a[k].down
      ensures b[k].row == a[k].row && b[k].col == a[k].col
    {
      assert a[k].(distanceUsing := None) == b[k].(distanceUsing := None);
    }
  }

  /**
   * The answer to a predecessor chain along the links of the built graph
   * meets only open cells between the start cell and the end cell.
   */
  lemma AnswerAvoidsWalls(L: Layout, ns: seq<MazeNode>, chain: seq<nat>, start: nat, end: nat)
    requires WellLinked(ns) && OpenLinks(L, ns) && NodesOpen(L, ns, start, end)
    requires IsChain(ns, chain, start, end) && FollowsLinks(ns, chain)
    requires forall i :: 0 < i < |chain| ==> chain[i] != end
    ensures EncodeChain(ns, chain).Success?
    ensures AvoidsWalls(L, EncodeChain(ns, chain).value, CellOf(ns[start]))
  {
    LinkedChainAligned(ns, chain);
    forall i | 0 <= i < |chain| - 1
      ensures OpenBetween(L, ns[chain[i + 1]], ns[chain[i]])
    {
      assert IsNeighbour(ns[chain[i + 1]], chain[i]);
    }
    EncodeChainAvoidsWalls(L, ns, chain);
  }
}
