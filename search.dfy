/**
 * The state of solveBreadth and what it guarantees. The frontier
 * `breadthStack` is last-in-first-out (so the traversal is depth-first),
 * `visitedStack` is a list that may hold a node more than once, and a node
 * is tested against it only when it is about to be pushed.
 *
 * Stacks are sequences whose last element is the top.
 */
module MazeSearch {
  import opened Wrappers
  import opened MazeGraph
  import opened PathEncoding

  /** solveBreadth's answer when the frontier empties before the end node is reached. */
  const NotReachedError: string := "ERR Didn't make it."

  /** `x` is one of the four links of `n`. */
  predicate IsNeighbour(n: MazeNode, x: nat)
  {
    n.left == Some(x) || n.right == Some(x) || n.up == Some(x) || n.down == Some(x)
  }

  /** What scanNode pushes for one link: the linked node, unless there is none or it was visited. */
  function Pushed(visited: seq<nat>, toVisit: Option<nat>): seq<nat>
  {
    if toVisit.Some? && toVisit.value !in visited then [toVisit.value] else []
  }

  /** What expanding node `n` pushes, in the order left, right, up, down. */
  function Expansion(visited: seq<nat>, n: MazeNode): seq<nat>
  {
    Pushed(visited, n.left) + Pushed(visited, n.right) + Pushed(visited, n.up) + Pushed(visited, n.down)
  }

  /** The arena after every node of `xs` got `from` as its predecessor. */
  function SetPreds(ns: seq<MazeNode>, xs: seq<nat>, from: nat): seq<MazeNode>
  {
    seq(|ns|, k requires 0 <= k < |ns| => if k in xs then ns[k].(distanceUsing := Some(from)) else ns[k])
  }

  /** The two arenas differ at most in their predecessors. */
  ghost predicate SameLinks(a: seq<MazeNode>, b: seq<MazeNode>)
  {
    && |a| == |b|
    && forall k :: 0 <= k < |a| ==> a[k].(distanceUsing := None) == b[k].(distanceUsing := None)
  }

  /** `x`'s predecessor is one of `earlier`, and `x` is one of that node's links. */
  ghost predicate ReachedFrom(ns: seq<MazeNode>, x: nat, earlier: seq<nat>)
  {
    && x < |ns|
    && ns[x].distanceUsing.Some?
    && ns[x].distanceUsing.value < |ns|
    && ns[x].distanceUsing.value in earlier
    && IsNeighbour(ns[ns[x].distanceUsing.value], x)
  }

  /** A link that leads nowhere, to a visited node, or to a node in `above`. */
  predicate Covered(link: Option<nat>, visited: seq<nat>, above: seq<nat>)
  {
    link.None? || link.value in visited || link.value in above
  }

  predicate AllCovered(n: MazeNode, visited: seq<nat>, above: seq<nat>)
  {
    Covered(n.left, visited, above) && Covered(n.right, visited, above)
    && Covered(n.up, visited, above) && Covered(n.down, visited, above)
  }

  /**
   * The invariant of solveBreadth's loop:
   *  - before the first expansion the stack holds just the start node, and
   *    afterwards the start node is the first visited node;
   *  - every visited node other than the start was reached from a node
   *    visited before it, and every stacked node other than the start from
   *    a visited node: following predecessors from them ends at the start;
   *  - a visited node on the stack has each of its links visited or above
   *    it on the stack, so expanding it again pushes nothing.
   */
  ghost predicate SearchInv(ns: seq<MazeNode>, start: nat, stack: seq<nat>, visited: seq<nat>)
  {
    && start < |ns|
    && (forall i :: 0 <= i < |stack| ==> stack[i] < |ns|)
    && (visited == [] ==> stack == [start])
    && (visited != [] ==> visited[0] == start)
    && VisitedReached(ns, start, visited)
    && (forall i :: 0 <= i < |stack| && stack[i] != start ==> ReachedFrom(ns, stack[i], visited))
    && (forall i :: 0 <= i < |stack| && stack[i] in visited ==> AllCovered(ns[stack[i]], visited, stack[i + 1..]))
  }

  /** Every visited node other than the start was reached from a node visited before it. */
  ghost predicate VisitedReached(ns: seq<MazeNode>, start: nat, visited: seq<nat>)
  {
    && (forall i :: 0 <= i < |visited| ==> visited[i] < |ns|)
    && (forall i :: 0 <= i < |visited| && visited[i] != start ==> ReachedFrom(ns, visited[i], visited[..i]))
  }

  /** The nodes not visited yet; the first component of the loop's termination measure. */
  function Unvisited(n: nat, visited: seq<nat>): set<nat>
  {
    set k | 0 <= k < n && k !in visited
  }

  /** Each step of the chain goes along a link, from the predecessor to the node. */
  ghost predicate FollowsLinks(ns: seq<MazeNode>, chain: seq<nat>)
    requires InArena(ns, chain)
  {
    forall i :: 0 <= i < |chain| - 1 ==> IsNeighbour(ns[chain[i + 1]], chain[i])
  }

  /**
   * `chain` is a walk along links from `from` to `to`, written end first as
   * predecessor chains are: each entry is a link of the entry after it.
   */
  ghost predicate LinkWalk(ns: seq<MazeNode>, chain: seq<nat>, from: nat, to: nat)
  {
    && InArena(ns, chain) && |chain| > 0
    && chain[0] == to && chain[|chain| - 1] == from
    && FollowsLinks(ns, chain)
  }

  /** Some walk along links leads from `from` to `to`. */
  ghost predicate Reachable(ns: seq<MazeNode>, from: nat, to: nat)
  {
    exists chain :: LinkWalk(ns, chain, from, to)
  }

  /** Every link of a visited node leads to a visited node or to a node on the stack. */
  ghost predicate Closed(ns: seq<MazeNode>, stack: seq<nat>, visited: seq<nat>)
  {
    forall i :: 0 <= i < |visited| ==> visited[i] < |ns| && AllCovered(ns[visited[i]], visited, stack)
  }

  /** The search starts from a valid state. */
  lemma SearchInit(ns: seq<MazeNode>, start: nat)
    requires start < |ns|
    ensures SearchInv(ns, start, [start], [])
  {
  }

  /** Setting predecessors changes no link and keeps link geometry. */
  lemma SetPredsKeepsLinks(ns: seq<MazeNode>, xs: seq<nat>, from: nat)
    requires WellLinked(ns)
    ensures SameLinks(ns, SetPreds(ns, xs, from))
    ensures WellLinked(SetPreds(ns, xs, from))
  {
    var r := SetPreds(ns, xs, from);
    forall k | 0 <= k < |ns|
      ensures r[k].left == ns[k].left && r[k].right == ns[k].right
      ensures r[k].up == ns[k].up && r[k].down == ns[k].down
      ensures r[k].row == ns[k].row && r[k].col == ns[k].col
    {
    }
  }

  /** Links-only equality is an equivalence: it composes. */
  lemma SameLinksTrans(a: seq<MazeNode>, b: seq<MazeNode>, c: seq<MazeNode>)
    requires SameLinks(a, b) && SameLinks(b, c)
    ensures SameLinks(a, c)
  {
    forall k | 0 <= k < |a|
      ensures a[k].(distanceUsing := None) == c[k].(distanceUsing := None)
    {
      assert a[k].(distanceUsing := None) == b[k].(distanceUsing := None);
    }
  }

  /** Setting one more predecessor to the same node extends the set of updated nodes. */
  lemma SetPredsPush(ns: seq<MazeNode>, xs: seq<nat>, from: nat, x: nat)
    requires x < |ns|
    ensures var r := SetPreds(ns, xs, from);
      r[x := r[x].(distanceUsing := Some(from))] == SetPreds(ns, xs + [x], from)
  {
  }

  /** A node re-expanded after it was visited pushes nothing. */
  lemma RevisitPushesNothing(ns: seq<MazeNode>, start: nat, stack: seq<nat>, visited: seq<nat>)
    requires SearchInv(ns, start, stack, visited) && |stack| > 0
    requires stack[|stack| - 1] in visited
    ensures Expansion(visited, ns[stack[|stack| - 1]]) == []
  {
    var i := |stack| - 1;
    assert stack[i + 1..] == [];
    assert AllCovered(ns[stack[i]], visited, stack[i + 1..]);
  }

  /**
   * One expansion keeps the invariant: pop the top node t, push what
   * Expansion yields with t as their predecessor, and append t to the
   * visited list.
   */
  lemma ExpandStep(ns: seq<MazeNode>, start: nat, stack: seq<nat>, visited: seq<nat>)
    requires WellLinked(ns) && SearchInv(ns, start, stack, visited) && |stack| > 0
    ensures var t := stack[|stack| - 1];
      var pushed := Expansion(visited, ns[t]);
      SearchInv(SetPreds(ns, pushed, t), start, stack[..|stack| - 1] + pushed, visited + [t])
  {
    var t := stack[|stack| - 1];
    var P := Expansion(visited, ns[t]);
    var ns' := SetPreds(ns, P, t);
    var s0 := stack[..|stack| - 1];
    var st' := s0 + P;
    var V' := visited + [t];
    ExpansionFacts(ns, visited, t);
    ExpandVisited(ns, start, stack, visited, P);
    ExpandStacked(ns, start, stack, visited, P);
    ExpandCovered(ns, start, stack, visited, P);
    if visited == [] {
      assert t == start;
    }
  }

  /**
   * One expansion makes progress: either a node gets visited for the first
   * time, or nothing is pushed and the stack shrinks.
   */
  lemma ExpandMeasure(ns: seq<MazeNode>, start: nat, stack: seq<nat>, visited: seq<nat>)
    requires SearchInv(ns, start, stack, visited) && |stack| > 0
    ensures var t := stack[|stack| - 1];
      var pushed := Expansion(visited, ns[t]);
      || Unvisited(|ns|, visited + [t]) < Unvisited(|ns|, visited)
      || (Unvisited(|ns|, visited + [t]) == Unvisited(|ns|, visited) && |stack[..|stack| - 1] + pushed| < |stack|)
  {
    var t := stack[|stack| - 1];
    if t in visited {
      RevisitPushesNothing(ns, start, stack, visited);
      assert Unvisited(|ns|, visited + [t]) == Unvisited(|ns|, visited);
    } else {
      assert t in Unvisited(|ns|, visited) && t !in Unvisited(|ns|, visited + [t]);
    }
  }

  /**
   * Expanding a node never changes the predecessor of a visited node, and
   * gives every pushed node the expanded node as predecessor.
   */
  lemma ExpansionKeepsVisited(ns: seq<MazeNode>, visited: seq<nat>, t: nat)
    requires WellLinked(ns) && t < |ns|
    ensures var ns' := SetPreds(ns, Expansion(visited, ns[t]), t);
      && |ns'| == |ns|
      && (forall v :: v in visited && v < |ns| ==> ns'[v] == ns[v])
      && (forall p :: p in Expansion(visited, ns[t]) ==> p < |ns| && ns'[p].distanceUsing == Some(t))
  {
    ExpansionFacts(ns, visited, t);
  }

  /**
   * One expansion keeps the visited nodes closed: the popped node's links
   * are visited or pushed, and a link that pointed at the popped node now
   * points at a visited node.
   */
  lemma ExpandClosed(ns: seq<MazeNode>, stack: seq<nat>, visited: seq<nat>)
    requires WellLinked(ns) && |stack| > 0 && stack[|stack| - 1] < |ns|
    requires Closed(ns, stack, visited)
    ensures var t := stack[|stack| - 1];
      var pushed := Expansion(visited, ns[t]);
      Closed(SetPreds(ns, pushed, t), stack[..|stack| - 1] + pushed, visited + [t])
  {
    var t := stack[|stack| - 1];
    var P := Expansion(visited, ns[t]);
    var st', V' := stack[..|stack| - 1] + P, visited + [t];
    ExpansionFacts(ns, visited, t);
    assert stack == stack[..|stack| - 1] + [t];
    forall i | 0 <= i < |V'|
      ensures V'[i] < |ns| && AllCovered(ns[V'[i]], V', st')
    {
      if i < |visited| {
        CoveredWiden(ns[V'[i]], visited, stack, V', st');
      } else {
        CoveredWiden(ns[t], visited, P, V', st');
      }
    }
    SetPredsKeepsLinks(ns, P, t);
    ClosedSameLinks(ns, SetPreds(ns, P, t), st', V');
  }

  /** Closure depends on the links only, not on the predecessors. */
  lemma ClosedSameLinks(ns: seq<MazeNode>, ns': seq<MazeNode>, stack: seq<nat>, visited: seq<nat>)
    requires SameLinks(ns, ns') && Closed(ns, stack, visited)
    ensures Closed(ns', stack, visited)
  {
    forall i | 0 <= i < |visited|
      ensures visited[i] < |ns'| && AllCovered(ns'[visited[i]], visited, stack)
    {
      assert ns[visited[i]].(distanceUsing := None) == ns'[visited[i]].(distanceUsing := None);
    }
  }

  /** A walk that starts inside a closed visited list never leaves it. */
  lemma {:induction false} WalkStaysIn(ns: seq<MazeNode>, visited: seq<nat>, chain: seq<nat>, i: nat)
    requires Closed(ns, [], visited)
    requires InArena(ns, chain) && FollowsLinks(ns, chain)
    requires i < |chain| && chain[|chain| - 1] in visited
    ensures chain[i] in visited
    decreases |chain| - i
  {
    if i < |chain| - 1 {
      WalkStaysIn(ns, visited, chain, i + 1);
      var j :| 0 <= j < |visited| && visited[j] == chain[i + 1];
      assert AllCovered(ns[visited[j]], visited, []);
      assert IsNeighbour(ns[chain[i + 1]], chain[i]);
    }
  }

  /**
   * When the stack is empty, the visited list is closed under links, so no
   * walk leads from a visited node to an unvisited one.
   */
  lemma ClosedBlocks(ns: seq<MazeNode>, visited: seq<nat>, from: nat, to: nat)
    requires Closed(ns, [], visited) && from in visited && to !in visited
    ensures !Reachable(ns, from, to)
  {
    if Reachable(ns, from, to) {
      var chain :| LinkWalk(ns, chain, from, to);
      WalkStaysIn(ns, visited, chain, 0);
      assert false;
    }
  }

  /** Reachability depends on the links only, not on the predecessors. */
  lemma ReachableSameLinks(a: seq<MazeNode>, b: seq<MazeNode>, from: nat, to: nat)
    requires SameLinks(a, b)
    ensures Reachable(a, from, to) <==> Reachable(b, from, to)
  {
    forall chain | InArena(a, chain)
      ensures FollowsLinks(a, chain) <==> FollowsLinks(b, chain)
    {
      forall i | 0 <= i < |chain| - 1
        ensures IsNeighbour(a[chain[i + 1]], chain[i]) <==> IsNeighbour(b[chain[i + 1]], chain[i])
      {
        assert a[chain[i + 1]].(distanceUsing := None) == b[chain[i + 1]].(distanceUsing := None);
      }
    }
    if Reachable(a, from, to) {
      var chain :| LinkWalk(a, chain, from, to);
      assert LinkWalk(b, chain, from, to);
    }
    if Reachable(b, from, to) {
      var chain :| LinkWalk(b, chain, from, to);
      assert LinkWalk(a, chain, from, to);
    }
  }

  /** What the pushes of one expansion of `t` are. */
  lemma ExpansionFacts(ns: seq<MazeNode>, visited: seq<nat>, t: nat)
    requires WellLinked(ns) && t < |ns|
    ensures var P := Expansion(visited, ns[t]);
      && (forall p :: p in P ==> p < |ns| && p !in visited && p != t && IsNeighbour(ns[t], p))
      && AllCovered(ns[t], visited, P)
  {
  }

  lemma ExpandVisited(ns: seq<MazeNode>, start: nat, stack: seq<nat>, visited: seq<nat>, P: seq<nat>)
    requires WellLinked(ns) && SearchInv(ns, start, stack, visited) && |stack| > 0
    requires var t := stack[|stack| - 1]; forall p :: p in P ==> p < |ns| && p !in visited && p != t
    ensures var t := stack[|stack| - 1];
      VisitedReached(SetPreds(ns, P, t), start, visited + [t])
  {
    var t := stack[|stack| - 1];
    var ns', V' := SetPreds(ns, P, t), visited + [t];
    SetPredsKeepsLinks(ns, P, t);
    forall i | 0 <= i < |V'| && V'[i] != start
      ensures ReachedFrom(ns', V'[i], V'[..i])
    {
      var x := V'[i];
      if i < |visited| {
        assert x == visited[i] && V'[..i] == visited[..i];
        assert ReachedFrom(ns, x, visited[..i]);
      } else {
        assert x == t && V'[..i] == visited;
        assert ReachedFrom(ns, t, visited);
      }
      assert x !in P;
      assert ns'[x] == ns[x];
      var u := ns[x].distanceUsing.value;
      assert ns'[u].(distanceUsing := None) == ns[u].(distanceUsing := None);
    }
  }

  lemma ExpandStacked(ns: seq<MazeNode>, start: nat, stack: seq<nat>, visited: seq<nat>, P: seq<nat>)
    requires WellLinked(ns) && SearchInv(ns, start, stack, visited) && |stack| > 0
    requires var t := stack[|stack| - 1]; forall p :: p in P ==> p < |ns| && IsNeighbour(ns[t], p)
    ensures var t := stack[|stack| - 1];
      var ns', st', V' := SetPreds(ns, P, t), stack[..|stack| - 1] + P, visited + [t];
      forall i :: 0 <= i < |st'| && st'[i] != start ==> ReachedFrom(ns', st'[i], V')
  {
    var t := stack[|stack| - 1];
    var ns', st', V' := SetPreds(ns, P, t), stack[..|stack| - 1] + P, visited + [t];
    SetPredsKeepsLinks(ns, P, t);
    forall i | 0 <= i < |st'| && st'[i] != start
      ensures ReachedFrom(ns', st'[i], V')
    {
      var x := st'[i];
      if x in P {
        assert ns'[t].(distanceUsing := None) == ns[t].(distanceUsing := None);
      } else {
        assert i < |stack| - 1 && x == stack[i];
        assert ReachedFrom(ns, x, visited);
        var u := ns[x].distanceUsing.value;
        assert ns'[u].(distanceUsing := None) == ns[u].(distanceUsing := None);
      }
    }
  }

  lemma ExpandCovered(ns: seq<MazeNode>, start: nat, stack: seq<nat>, visited: seq<nat>, P: seq<nat>)
    requires WellLinked(ns) && SearchInv(ns, start, stack, visited) && |stack| > 0
    requires var t := stack[|stack| - 1];
      && (forall p :: p in P ==> p < |ns| && p !in visited && p != t)
      && AllCovered(ns[t], visited, P)
    ensures var t := stack[|stack| - 1];
      var ns', st', V' := SetPreds(ns, P, t), stack[..|stack| - 1] + P, visited + [t];
      forall i :: 0 <= i < |st'| && st'[i] in V' ==> AllCovered(ns'[st'[i]], V', st'[i + 1..])
  {
    var t := stack[|stack| - 1];
    var s0 := stack[..|stack| - 1];
    var ns', st', V' := SetPreds(ns, P, t), s0 + P, visited + [t];
    forall i | 0 <= i < |st'| && st'[i] in V'
      ensures AllCovered(ns'[st'[i]], V', st'[i + 1..])
    {
      var x := st'[i];
      if i >= |s0| {
        // pushed nodes are neither visited nor t
        assert false;
      } else {
        assert x == stack[i];
        assert st'[i + 1..] == s0[i + 1..] + P;
        if x in visited {
          SuffixOfPopped(stack, i);
          assert AllCovered(ns[x], visited, stack[i + 1..]);
          CoveredWiden(ns[x], visited, stack[i + 1..], V', st'[i + 1..]);
        } else {
          assert x == t;
          CoveredWiden(ns[x], visited, P, V', st'[i + 1..]);
        }
      }
    }
  }

  /** Above position i, a stack is what lies above i below the top, then the top. */
  lemma SuffixOfPopped(stack: seq<nat>, i: nat)
    requires i < |stack| - 1
    ensures stack[i + 1..] == stack[..|stack| - 1][i + 1..] + [stack[|stack| - 1]]
  {
  }

  /** Coverage survives growing the visited list and the part of the stack above. */
  lemma CoveredWiden(n: MazeNode, visited: seq<nat>, above: seq<nat>, visited': seq<nat>, above': seq<nat>)
    requires AllCovered(n, visited, above)
    requires forall w :: w in visited ==> w in visited'
    requires forall w :: w in above ==> w in visited' || w in above'
    ensures AllCovered(n, visited', above')
  {
  }

  /**
   * Following predecessors from a visited node reaches the start node:
   * the chain exists and goes along links.
   */
  lemma {:induction false} ChainFromVisited(ns: seq<MazeNode>, start: nat, visited: seq<nat>, j: nat)
    returns (chain: seq<nat>)
    requires start < |ns| && VisitedReached(ns, start, visited) && j < |visited|
    ensures IsChain(ns, chain, start, visited[j]) && FollowsLinks(ns, chain)
    ensures forall i :: 0 <= i < |chain| ==> chain[i] in visited
    decreases j
  {
    var x := visited[j];
    if x == start {
      chain := [start];
    } else {
      assert ReachedFrom(ns, x, visited[..j]);
      var u := ns[x].distanceUsing.value;
      assert u in visited[..j] && IsNeighbour(ns[u], x);
      var j' :| 0 <= j' < j && visited[j'] == u;
      var rest := ChainFromVisited(ns, start, visited, j');
      chain := [x] + rest;
      assert chain[1..] == rest;
      assert forall i :: 0 < i < |chain| ==> chain[i] == rest[i - 1];
    }
  }

  /**
   * When the end node is on top of the stack, following predecessors from
   * it reaches the start node.
   */
  lemma ChainFromTop(ns: seq<MazeNode>, start: nat, stack: seq<nat>, visited: seq<nat>)
    returns (chain: seq<nat>)
    requires SearchInv(ns, start, stack, visited) && |stack| > 0
    ensures IsChain(ns, chain, start, stack[|stack| - 1]) && FollowsLinks(ns, chain)
    ensures forall i :: 0 < i < |chain| ==> chain[i] in visited
  {
    var x := stack[|stack| - 1];
    if x == start {
      chain := [start];
    } else {
      assert ReachedFrom(ns, x, visited);
      var u := ns[x].distanceUsing.value;
      assert u in visited && IsNeighbour(ns[u], x);
      var j :| 0 <= j < |visited| && visited[j] == u;
      var rest := ChainFromVisited(ns, start, visited, j);
      chain := [x] + rest;
      assert chain[1..] == rest;
      assert forall i :: 0 < i < |chain| ==> chain[i] == rest[i - 1];
    }
  }

  /** A chain along the links of a well-linked arena has only axis-aligned steps. */
  lemma LinkedChainAligned(ns: seq<MazeNode>, chain: seq<nat>)
    requires WellLinked(ns) && InArena(ns, chain) && FollowsLinks(ns, chain)
    ensures ChainAligned(ns, chain)
  {
    forall i | 0 <= i < |chain| - 1
      ensures Aligned(ns[chain[i + 1]], ns[chain[i]])
    {
      assert IsNeighbour(ns[chain[i + 1]], chain[i]);
    }
  }
}
