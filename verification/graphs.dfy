/**
 * Directed graphs given as adjacency lists, as the test class passes them around
 * (`int[][]`: row `u` lists the targets of the edges leaving node `u`), and the
 * graph-theoretic notions the enumerator and the sorter are judged against:
 * cycles, schedules (predecessor-closed partial orders) and topological orders.
 */
module Graphs {
  import opened Wrappers
  import opened Seqs

  /** Row `u` holds the targets of the edges leaving node `u`; duplicates are allowed. */
  type Graph = seq<seq<int>>

  predicate IsNode(g: Graph, t: int) {
    0 <= t < |g|
  }

  /** There is an edge u -> v (once or more). */
  predicate Edge(g: Graph, u: int, v: int) {
    0 <= u < |g| && v in g[u]
  }

  /** Every edge target is a node identifier of the graph. */
  predicate TargetsInRange(g: Graph) {
    forall u, k :: 0 <= u < |g| && 0 <= k < |g[u]| ==> IsNode(g, g[u][k])
  }

  /**
   * Position `k` of row `u` is the first out-of-range target met by a scan that
   * goes row by row and, within a row, position by position.
   */
  predicate FirstInvalid(g: Graph, u: int, k: int) {
    && 0 <= u < |g| && 0 <= k < |g[u]|
    && !IsNode(g, g[u][k])
    && (forall k' :: 0 <= k' < k ==> IsNode(g, g[u][k']))
    && (forall u', k' :: 0 <= u' < u && 0 <= k' < |g[u']| ==> IsNode(g, g[u'][k']))
  }

  lemma FirstInvalidUnique(g: Graph, u: int, k: int, u': int, k': int)
    requires FirstInvalid(g, u, k) && FirstInvalid(g, u', k')
    ensures u == u' && k == k'
  {
  }

  /** Scans row `u` from position `k` for a target outside the graph. */
  function InvalidInRow(g: Graph, u: int, k: int): (r: Option<nat>)
    requires 0 <= u < |g| && 0 <= k <= |g[u]|
    ensures r.None? ==> forall k' :: k <= k' < |g[u]| ==> IsNode(g, g[u][k'])
    ensures r.Some? ==> k <= r.value < |g[u]| && !IsNode(g, g[u][r.value])
    ensures r.Some? ==> forall k' :: k <= k' < r.value ==> IsNode(g, g[u][k'])
    decreases |g[u]| - k
  {
    if k == |g[u]| then None
    else if !IsNode(g, g[u][k]) then Some(k)
    else InvalidInRow(g, u, k + 1)
  }

  /** Scans rows `u`, `u + 1`, ... for a target outside the graph. */
  function InvalidFrom(g: Graph, u: int): (r: Option<(nat, nat)>)
    requires 0 <= u <= |g|
    ensures r.None? ==>
      forall u', k' :: u <= u' < |g| && 0 <= k' < |g[u']| ==> IsNode(g, g[u'][k'])
    ensures r.Some? ==> u <= r.value.0 < |g| && r.value.1 < |g[r.value.0]|
    ensures r.Some? ==> !IsNode(g, g[r.value.0][r.value.1])
    ensures r.Some? ==> forall k' :: 0 <= k' < r.value.1 ==> IsNode(g, g[r.value.0][k'])
    ensures r.Some? ==>
      forall u', k' :: u <= u' < r.value.0 && 0 <= k' < |g[u']| ==> IsNode(g, g[u'][k'])
    decreases |g| - u
  {
    if u == |g| then None
    else
      match InvalidInRow(g, u, 0)
      case Some(k) => Some((u, k))
      case None => InvalidFrom(g, u + 1)
  }

  /** The first out-of-range edge target in scan order, if there is one. */
  function FindInvalidEdge(g: Graph): (r: Option<(nat, nat)>)
    ensures r.None? <==> TargetsInRange(g)
    ensures r.Some? ==> FirstInvalid(g, r.value.0, r.value.1)
  {
    InvalidFrom(g, 0)
  }

  /** Number of edges into `v` whose source is one of the nodes 0, ..., n-1. */
  function EdgesInto(g: Graph, v: int, n: int): (c: nat)
    requires 0 <= n <= |g|
  {
    if n == 0 then 0 else EdgesInto(g, v, n - 1) + Count(g[n - 1], v)
  }

  /** Number of edges into `v` whose source is one of the unvisited nodes among 0, ..., n-1. */
  function LiveEdgesInto(g: Graph, visited: seq<bool>, v: int, n: int): (c: nat)
    requires |visited| == |g| && 0 <= n <= |g|
  {
    if n == 0 then 0
    else LiveEdgesInto(g, visited, v, n - 1) + (if visited[n - 1] then 0 else Count(g[n - 1], v))
  }

  /** Before anything is visited, every edge is live. */
  lemma {:induction false} LiveEdgesIntoUnvisited(g: Graph, visited: seq<bool>, v: int, n: int)
    requires |visited| == |g| && 0 <= n <= |g|
    requires forall u :: 0 <= u < |g| ==> !visited[u]
    ensures LiveEdgesInto(g, visited, v, n) == EdgesInto(g, v, n)
  {
    if n > 0 {
      LiveEdgesIntoUnvisited(g, visited, v, n - 1);
    }
  }

  /** Visiting node `i` takes exactly the edges leaving `i` out of the live count. */
  lemma {:induction false} LiveEdgesIntoVisit(g: Graph, visited: seq<bool>, v: int, i: int, n: int)
    requires |visited| == |g| && 0 <= n <= |g|
    requires 0 <= i < |g| && !visited[i]
    ensures LiveEdgesInto(g, visited[i := true], v, n)
         == LiveEdgesInto(g, visited, v, n) - (if i < n then Count(g[i], v) else 0)
  {
    if n > 0 {
      LiveEdgesIntoVisit(g, visited, v, i, n - 1);
    }
  }

  /** The live count of `v` is zero exactly when no unvisited node has an edge to `v`. */
  lemma {:induction false} LiveEdgesIntoZero(g: Graph, visited: seq<bool>, v: int, n: int)
    requires |visited| == |g| && 0 <= n <= |g|
    ensures LiveEdgesInto(g, visited, v, n) == 0
        <==> forall u :: 0 <= u < n && !visited[u] ==> v !in g[u]
  {
    if n > 0 {
      LiveEdgesIntoZero(g, visited, v, n - 1);
    }
  }

  /** Consecutive elements of `p` are joined by edges. */
  predicate IsWalk(g: Graph, p: seq<int>) {
    forall k :: 0 <= k < |p| - 1 ==> Edge(g, p[k], p[k + 1])
  }

  /** A closed walk with at least one edge. */
  predicate IsCycle(g: Graph, p: seq<int>) {
    |p| >= 2 && p[0] == p[|p| - 1] && IsWalk(g, p)
  }

  ghost predicate HasCycle(g: Graph) {
    exists p :: IsCycle(g, p)
  }

  ghost predicate Acyclic(g: Graph) {
    !HasCycle(g)
  }

  /** Every node placed in `p` has all its predecessors placed before it. */
  ghost predicate PredClosed(g: Graph, p: seq<int>) {
    forall k, u :: 0 <= k < |p| && Edge(g, u, p[k]) ==> u in p[..k]
  }

  /** A partial topological order: distinct nodes, each after all its predecessors. */
  ghost predicate IsSchedule(g: Graph, p: seq<int>) {
    Distinct(p) && AllIn(p, |g|) && PredClosed(g, p)
  }

  /** Node `v` is not yet placed and all of its predecessors are. */
  ghost predicate Ready(g: Graph, p: seq<int>, v: int) {
    IsNode(g, v) && v !in p && forall u :: Edge(g, u, v) ==> u in p
  }

  /** A schedule that cannot be extended: no node is ready. */
  ghost predicate IsMaximalSchedule(g: Graph, p: seq<int>) {
    IsSchedule(g, p) && forall v :: IsNode(g, v) ==> !Ready(g, p, v)
  }

  /** Every node exactly once, and every edge goes from an earlier to a later position. */
  predicate IsTopoOrder(g: Graph, t: seq<int>) {
    && IsPermutation(t, |g|)
    && forall i, j :: 0 <= i < |t| && 0 <= j < |t| && Edge(g, t[i], t[j]) ==> i < j
  }

  /** A schedule that places every node is a topological order. */
  lemma FullScheduleIsTopo(g: Graph, t: seq<int>)
    requires IsSchedule(g, t) && |t| == |g|
    ensures IsTopoOrder(g, t)
  {
    forall i, j | 0 <= i < |t| && 0 <= j < |t| && Edge(g, t[i], t[j])
      ensures i < j
    {
      assert t[i] in t[..j];
      var m :| 0 <= m < j && t[..j][m] == t[i];
    }
  }

  /** A topological order is a schedule that leaves nothing ready. */
  lemma TopoIsMaximal(g: Graph, t: seq<int>)
    requires IsTopoOrder(g, t)
    ensures IsMaximalSchedule(g, t)
  {
    PermutationCovers(t, |g|);
    forall k, u | 0 <= k < |t| && Edge(g, u, t[k])
      ensures u in t[..k]
    {
      var m := IndexOf(t, u);
      assert Edge(g, t[m], t[k]);
      assert t[..k][m] == u;
    }
  }

  /** Some node outside `p` has an edge to `v`. */
  ghost predicate HasUnplacedPredecessor(g: Graph, p: seq<int>, v: int) {
    exists u :: Edge(g, u, v) && u !in p
  }

  /** A walk through `|g| + 1` nodes must pass some node twice, which closes a cycle. */
  lemma LongWalkHasCycle(g: Graph, w: seq<int>)
    requires IsWalk(g, w) && AllIn(w, |g|) && |w| > |g|
    ensures HasCycle(g)
  {
    if Distinct(w) {
      DistinctInRangeBound(w, |g|);
    }
    var i, j :| 0 <= i < j < |w| && w[i] == w[j];
    var c := w[i..j + 1];
    assert IsCycle(g, c);
  }

  lemma PrependToWalk(g: Graph, u: int, w: seq<int>)
    requires IsWalk(g, w) && AllIn(w, |g|) && |w| > 0 && Edge(g, u, w[0])
    ensures IsWalk(g, [u] + w) && AllIn([u] + w, |g|)
  {
    var w' := [u] + w;
    forall k | 0 <= k < |w'| - 1
      ensures Edge(g, w'[k], w'[k + 1])
    {
      if k > 0 {
        assert w'[k] == w[k - 1] && w'[k + 1] == w[k];
      }
    }
  }

  /**
   * If every unplaced node has an unplaced predecessor, walking backwards from an
   * unplaced node must revisit a node, which closes a cycle.
   */
  lemma UnplacedPredecessorsGiveCycle(g: Graph, p: seq<int>, v0: int)
    requires IsNode(g, v0) && v0 !in p
    requires forall v :: IsNode(g, v) && v !in p ==> HasUnplacedPredecessor(g, p, v)
    ensures HasCycle(g)
  {
    var w := [v0];
    while |w| <= |g|
      invariant 1 <= |w| <= |g| + 1
      invariant AllIn(w, |g|) && w[0] !in p
      invariant IsWalk(g, w)
      decreases |g| + 1 - |w|
    {
      assert HasUnplacedPredecessor(g, p, w[0]);
      var u :| Edge(g, u, w[0]) && u !in p;
      PrependToWalk(g, u, w);
      w := [u] + w;
    }
    LongWalkHasCycle(g, w);
  }

  /** On an acyclic graph, a schedule nobody can extend places every node. */
  lemma MaximalOnAcyclicIsTopo(g: Graph, t: seq<int>)
    requires IsMaximalSchedule(g, t) && Acyclic(g)
    ensures IsTopoOrder(g, t)
  {
    if forall v :: IsNode(g, v) ==> v in t {
      DistinctCoveringBound(t, |g|);
    } else {
      var v0 :| IsNode(g, v0) && v0 !in t;
      forall v | IsNode(g, v) && v !in t
        ensures HasUnplacedPredecessor(g, t, v)
      {
        assert !Ready(g, t, v);
      }
      UnplacedPredecessorsGiveCycle(g, t, v0);
    }
    DistinctInRangeBound(t, |g|);
    FullScheduleIsTopo(g, t);
  }

  /** Along a walk whose nodes all occur in a topological order, positions increase. */
  lemma {:induction false} WalkPositionsIncrease(g: Graph, t: seq<int>, c: seq<int>, k: int)
    requires IsTopoOrder(g, t) && IsWalk(g, c)
    requires forall m :: 0 <= m < |c| ==> c[m] in t
    requires 1 <= k < |c|
    ensures IndexOf(t, c[0]) < IndexOf(t, c[k])
    decreases k
  {
    var a := IndexOf(t, c[k - 1]);
    var b := IndexOf(t, c[k]);
    assert Edge(g, t[a], t[b]);
    if k > 1 {
      WalkPositionsIncrease(g, t, c, k - 1);
    }
  }

  /** A graph with a cycle has no topological order. */
  lemma CycleHasNoTopoOrder(g: Graph, t: seq<int>)
    requires HasCycle(g)
    ensures !IsTopoOrder(g, t)
  {
    if IsTopoOrder(g, t) {
      var c :| IsCycle(g, c);
      PermutationCovers(t, |g|);
      forall m | 0 <= m < |c|
        ensures c[m] in t
      {
        if m < |c| - 1 {
          assert Edge(g, c[m], c[m + 1]);
        } else {
          assert Edge(g, c[0], c[1]);
        }
      }
      WalkPositionsIncrease(g, t, c, |c| - 1);
    }
  }

  /** On a graph with a cycle, every schedule nobody can extend leaves some node out. */
  lemma MaximalOnCycleIsShort(g: Graph, t: seq<int>)
    requires IsMaximalSchedule(g, t) && HasCycle(g)
    ensures |t| < |g|
  {
    DistinctInRangeBound(t, |g|);
    if |t| == |g| {
      FullScheduleIsTopo(g, t);
      CycleHasNoTopoOrder(g, t);
    }
  }

  /** Along a walk in a graph whose edges all point to smaller nodes, nodes decrease. */
  lemma {:induction false} WalkDescends(g: Graph, c: seq<int>, k: int)
    requires forall u, x :: 0 <= u < |g| && 0 <= x < |g[u]| ==> g[u][x] < u
    requires IsWalk(g, c) && 1 <= k < |c|
    ensures c[k] < c[0]
    decreases k
  {
    assert Edge(g, c[k - 1], c[k]);
    if k > 1 {
      WalkDescends(g, c, k - 1);
    }
  }

  /** A graph whose edges all point to smaller nodes has no cycle. */
  lemma DownwardIsAcyclic(g: Graph)
    requires forall u, x :: 0 <= u < |g| && 0 <= x < |g[u]| ==> g[u][x] < u
    ensures Acyclic(g)
  {
    if HasCycle(g) {
      var c :| IsCycle(g, c);
      WalkDescends(g, c, |c| - 1);
    }
  }
}
