/**
 * The answer format: a string over N, S, E, W where each letter is one cell
 * of movement (N: row - 1, S: row + 1, E: col + 1, W: col - 1), built from
 * the predecessor chain that the search leaves behind.
 *
 * A chain is written end first: chain[0] is the end node, each next entry is
 * the predecessor (distanceUsing) of the one before, and the last entry is
 * the start node.
 */
module PathEncoding {
  import opened Wrappers
  import opened MazeGraph

  /** The encoder's answer when a node and its predecessor share a cell. */
  const SameCellError: string := "ERR - nodes appear to be in same place?"

  /** `n` copies of `letter`. */
  function Repeat(letter: char, n: nat): (s: string)
    ensures |s| == n
    ensures forall i :: 0 <= i < n ==> s[i] == letter
  {
    if n == 0 then "" else Repeat(letter, n - 1) + [letter]
  }

  /**
   * The run emitted for the step from `prev` (the predecessor) to `cur`:
   * a row difference wins over a column difference, and the letter is
   * repeated as many times as the coordinates differ. None when the two
   * nodes share a cell.
   */
  function StepRun(prev: MazeNode, cur: MazeNode): Option<string>
  {
    if prev.row < cur.row then Some(Repeat('S', cur.row - prev.row))
    else if prev.row > cur.row then Some(Repeat('N', prev.row - cur.row))
    else if prev.col < cur.col then Some(Repeat('E', cur.col - prev.col))
    else if prev.col > cur.col then Some(Repeat('W', prev.col - cur.col))
    else None
  }

  /** Appends `suffix` to a successful answer; a failure stays as it is. */
  function Then(r: Result<string, string>, suffix: string): Result<string, string>
  {
    match r
    case Success(s) => Success(s + suffix)
    case Failure(e) => Failure(e)
  }

  /** Appending nothing, or appending twice, to an answer. */
  lemma ThenFacts(r: Result<string, string>, a: string, b: string)
    ensures Then(r, "") == r
    ensures Then(Then(r, a), b) == Then(r, a + b)
  {
    if r.Success? {
      assert r.value + "" == r.value;
      assert r.value + a + b == r.value + (a + b);
    }
  }

  /** Every entry of the chain names a node of the arena. */
  predicate InArena(ns: seq<MazeNode>, chain: seq<nat>)
  {
    forall i :: 0 <= i < |chain| ==> chain[i] < |ns|
  }

  /**
   * `chain` is the predecessor walk from `end` back to `start`: it follows
   * distanceUsing and stops at the first occurrence of `start`.
   */
  ghost predicate IsChain(ns: seq<MazeNode>, chain: seq<nat>, start: int, end: int)
  {
    && InArena(ns, chain)
    && |chain| > 0 && chain[0] == end && chain[|chain| - 1] == start
    && (forall i :: 0 <= i < |chain| - 1 ==>
          chain[i] != start && ns[chain[i]].distanceUsing == Some(chain[i + 1]))
  }

  /**
   * The answer generateDistanceUsingResult produces for a chain: the runs of
   * its steps, the step nearest the start first, or SameCellError when some
   * step joins two nodes on the same cell.
   */
  function EncodeChain(ns: seq<MazeNode>, chain: seq<nat>): (r: Result<string, string>)
    requires InArena(ns, chain)
    ensures r.Success? ==> forall i :: 0 <= i < |r.value| ==> r.value[i] in "NSEW"
    ensures r.Failure? ==> r.error == SameCellError
    decreases |chain|
  {
    if |chain| <= 1 then Success("")
    else
      match StepRun(ns[chain[1]], ns[chain[0]])
      case None => Failure(SameCellError)
      case Some(run) => Then(EncodeChain(ns, chain[1..]), run)
  }

  /** A (row, col) cell. */
  type Cell = (int, int)

  function CellOf(n: MazeNode): Cell
  {
    (n.row, n.col)
  }

  /** One letter of the answer applied to a cell. */
  function Move(letter: char, at: Cell): Cell
  {
    match letter
    case 'N' => (at.0 - 1, at.1)
    case 'S' => (at.0 + 1, at.1)
    case 'E' => (at.0, at.1 + 1)
    case 'W' => (at.0, at.1 - 1)
    case _ => at
  }

  /** The cell reached by following the answer `s` from `at`. */
  function Replay(s: string, at: Cell): Cell
    decreases |s|
  {
    if s == [] then at else Replay(s[1..], Move(s[0], at))
  }

  /** The cells met when following `s` from `at`: `at` first, then one cell per letter. */
  function Trace(s: string, at: Cell): (t: seq<Cell>)
    ensures |t| == |s| + 1 && t[0] == at && t[|s|] == Replay(s, at)
    decreases |s|
  {
    if s == [] then [at] else [at] + Trace(s[1..], Move(s[0], at))
  }

  /** The cell `n` moves away from `at` in the direction of `letter`. */
  function Shift(letter: char, n: int, at: Cell): Cell
  {
    match letter
    case 'N' => (at.0 - n, at.1)
    case 'S' => (at.0 + n, at.1)
    case 'E' => (at.0, at.1 + n)
    case _ => (at.0, at.1 - n)
  }

  /** `prev` and `cur` lie on one row or one column, on different cells. */
  predicate Aligned(prev: MazeNode, cur: MazeNode)
  {
    (prev.row == cur.row && prev.col != cur.col) || (prev.col == cur.col && prev.row != cur.row)
  }

  /** Every step of the chain is axis-aligned. */
  ghost predicate ChainAligned(ns: seq<MazeNode>, chain: seq<nat>)
    requires InArena(ns, chain)
  {
    forall i :: 0 <= i < |chain| - 1 ==> Aligned(ns[chain[i + 1]], ns[chain[i]])
  }

  /** The number of cells the chain covers: the sum of its steps' Manhattan lengths. */
  function ChainLength(ns: seq<MazeNode>, chain: seq<nat>): nat
    requires InArena(ns, chain)
    decreases |chain|
  {
    if |chain| <= 1 then 0
    else Distance(ns[chain[1]], ns[chain[0]]) + ChainLength(ns, chain[1..])
  }

  function Distance(a: MazeNode, b: MazeNode): nat
  {
    (if a.row < b.row then b.row - a.row else a.row - b.row)
    + (if a.col < b.col then b.col - a.col else a.col - b.col)
  }

  /** Following a concatenation is following its parts in turn. */
  lemma {:induction false} ReplayAppend(a: string, b: string, at: Cell)
    ensures Replay(a + b, at) == Replay(b, Replay(a, at))
    decreases |a|
  {
    if a != [] {
      assert (a + b)[1..] == a[1..] + b;
      ReplayAppend(a[1..], b, Move(a[0], at));
    } else {
      assert a + b == b;
    }
  }

  /** The cells met along a concatenation are those met along its parts in turn. */
  lemma {:induction false} TraceAppend(a: string, b: string, at: Cell)
    ensures Trace(a + b, at) == Trace(a, at) + Trace(b, Replay(a, at))[1..]
    decreases |a|
  {
    if a != [] {
      assert (a + b)[1..] == a[1..] + b;
      TraceAppend(a[1..], b, Move(a[0], at));
    } else {
      assert a + b == b;
    }
  }

  /** Along a run of one letter, the i-th cell is i cells away in that letter's direction. */
  lemma {:induction false} TraceRepeat(letter: char, n: nat, at: Cell)
    requires letter in "NSEW"
    ensures forall i :: 0 <= i <= n ==> Trace(Repeat(letter, n), at)[i] == Shift(letter, i, at)
  {
    if n > 0 {
      var s := Repeat(letter, n - 1);
      TraceRepeat(letter, n - 1, at);
      TraceAppend(s, [letter], at);
      assert Trace(s, at)[n - 1] == Replay(s, at);
      assert Trace([letter], Replay(s, at)) == [Replay(s, at), Move(letter, Replay(s, at))];
    }
  }

  /** A run of one letter moves `n` cells in that letter's direction. */
  lemma {:induction false} ReplayRepeat(letter: char, n: nat, at: Cell)
    requires letter in "NSEW"
    ensures Replay(Repeat(letter, n), at) == Shift(letter, n, at)
  {
    if n > 0 {
      ReplayRepeat(letter, n - 1, at);
      ReplayAppend(Repeat(letter, n - 1), [letter], at);
    }
  }

  /** An aligned step's run leads from the predecessor's cell to the node's cell. */
  lemma StepRunReplays(prev: MazeNode, cur: MazeNode)
    requires Aligned(prev, cur)
    ensures StepRun(prev, cur).Some?
    ensures |StepRun(prev, cur).value| == Distance(prev, cur)
    ensures Replay(StepRun(prev, cur).value, CellOf(prev)) == CellOf(cur)
  {
    if prev.row < cur.row {
      ReplayRepeat('S', cur.row - prev.row, CellOf(prev));
    } else if prev.row > cur.row {
      ReplayRepeat('N', prev.row - cur.row, CellOf(prev));
    } else if prev.col < cur.col {
      ReplayRepeat('E', cur.col - prev.col, CellOf(prev));
    } else {
      ReplayRepeat('W', prev.col - cur.col, CellOf(prev));
    }
  }

  /**
   * Round trip: when every step is axis-aligned, the encoder succeeds, its
   * answer has one letter per cell travelled, and following it from the
   * start node's cell lands on the end node's cell.
   */
  lemma {:induction false} EncodeChainReplays(ns: seq<MazeNode>, chain: seq<nat>)
    requires InArena(ns, chain) && |chain| > 0 && ChainAligned(ns, chain)
    ensures EncodeChain(ns, chain).Success?
    ensures |EncodeChain(ns, chain).value| == ChainLength(ns, chain)
    ensures Replay(EncodeChain(ns, chain).value, CellOf(ns[chain[|chain| - 1]])) == CellOf(ns[chain[0]])
    decreases |chain|
  {
    if |chain| > 1 {
      var prev, cur := ns[chain[1]], ns[chain[0]];
      assert Aligned(prev, cur);
      StepRunReplays(prev, cur);
      var run := StepRun(prev, cur).value;
      var tail := chain[1..];
      assert ChainAligned(ns, tail) by {
        forall i | 0 <= i < |tail| - 1
          ensures Aligned(ns[tail[i + 1]], ns[tail[i]])
        {
          assert tail[i] == chain[i + 1] && tail[i + 1] == chain[i + 2];
        }
      }
      EncodeChainReplays(ns, tail);
      var rest := EncodeChain(ns, tail).value;
      assert tail[|tail| - 1] == chain[|chain| - 1];
      ReplayAppend(rest, run, CellOf(ns[chain[|chain| - 1]]));
    }
  }

  /**
   * The encoder fails exactly when some node of the chain shares its cell
   * with its predecessor.
   */
  lemma {:induction false} EncodeChainFails(ns: seq<MazeNode>, chain: seq<nat>)
    requires InArena(ns, chain)
    ensures EncodeChain(ns, chain).Failure? <==>
      exists i :: 0 <= i < |chain| - 1 && CellOf(ns[chain[i]]) == CellOf(ns[chain[i + 1]])
    decreases |chain|
  {
    if |chain| > 1 {
      var tail := chain[1..];
      EncodeChainFails(ns, tail);
      var prev, cur := ns[chain[1]], ns[chain[0]];
      assert StepRun(prev, cur).None? <==> CellOf(cur) == CellOf(prev);
      assert EncodeChain(ns, chain).Failure? <==>
        StepRun(prev, cur).None? || EncodeChain(ns, tail).Failure?;
      if exists i :: 0 <= i < |tail| - 1 && CellOf(ns[tail[i]]) == CellOf(ns[tail[i + 1]]) {
        var i :| 0 <= i < |tail| - 1 && CellOf(ns[tail[i]]) == CellOf(ns[tail[i + 1]]);
        assert CellOf(ns[chain[i + 1]]) == CellOf(ns[chain[i + 2]]);
      }
      if exists i :: 0 <= i < |chain| - 1 && CellOf(ns[chain[i]]) == CellOf(ns[chain[i + 1]]) {
        var i :| 0 <= i < |chain| - 1 && CellOf(ns[chain[i]]) == CellOf(ns[chain[i + 1]]);
        if i > 0 {
          assert CellOf(ns[tail[i - 1]]) == CellOf(ns[tail[i]]);
        }
      }
    }
  }

}
