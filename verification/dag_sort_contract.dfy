/**
 * The contract the tests place on the production sorter `DAGSort.sortDAG`, whose own
 * source is not part of this model: a valid acyclic graph yields one of the orders the
 * exhaustive search records, a cycle raises a cycle error, and an edge target outside
 * the graph raises an invalid-node error.
 *
 * `SortDAG` below is an independent Kahn-style sorter (lowest-numbered ready node first)
 * that reuses the search's state and `Visit` step; the lemmas prove it meets that contract.
 * It stands in for the production code and is not a transcription of it.
 */
module DagSortContract {
  import opened Wrappers
  import opened Graphs
  import opened TopologicalSorter
  import TestHelpers
  import RandomDag

  /** `InvalidNodeException` (with the offending node and target) and `CycleDetectedException`. */
  datatype SortError = InvalidNode(node: int, target: int) | CycleDetected

  /** The lowest-numbered node from `i` on that is unvisited and has no live incoming edge. */
  function FirstCandidate(st: State, i: int): (r: Option<nat>)
    requires |st.deg| == |st.visited| && 0 <= i <= |st.visited|
    ensures r.Some? ==> i <= r.value < |st.visited| && !st.visited[r.value] && st.deg[r.value] == 0
    ensures r.None? ==> forall j :: i <= j < |st.visited| ==> st.visited[j] || st.deg[j] != 0
    decreases |st.visited| - i
  {
    if i == |st.visited| then None
    else if !st.visited[i] && st.deg[i] == 0 then Some(i)
    else FirstCandidate(st, i + 1)
  }

  /** Kahn's loop: place candidates until none is left; succeed exactly when every node was placed. */
  function Kahn(g: Graph, st: State): (r: Result<seq<int>, SortError>)
    requires WellFormed(g, st)
    ensures r.Success? ==> st.path <= r.value && |r.value| == |g|
    ensures r.Failure? ==> r.error == CycleDetected
    decreases |g| - |st.path|
  {
    match FirstCandidate(st, 0)
    case Some(i) =>
      VisitWellFormed(g, st, i);
      var r := Kahn(g, Visit(g, st, i));
      assert r.Success? ==> st.path <= r.value by {
        if r.Success? {
          assert st.path <= st.path + [i];
        }
      }
      r
    case None =>
      if |st.path| == |g| then Success(st.path) else Failure(CycleDetected)
  }

  /** Validation (first out-of-range target, in scan order) and then Kahn's loop. */
  function SortDAG(g: Graph): (r: Result<seq<int>, SortError>)
    ensures r.Failure? && r.error.InvalidNode? <==> !TargetsInRange(g)
    ensures r.Success? ==> |r.value| == |g|
  {
    match FindInvalidEdge(g)
    case Some(e) => Failure(InvalidNode(e.0, g[e.0][e.1]))
    case None => Kahn(g, InitialState(g))
  }

  /** Kahn's loop only succeeds with a topological order and only fails on a graph with a cycle. */
  lemma {:induction false} KahnCorrect(g: Graph, st: State)
    requires Consistent(g, st)
    ensures Kahn(g, st).Success? ==> IsTopoOrder(g, Kahn(g, st).value)
    ensures Kahn(g, st).Failure? ==> HasCycle(g)
    decreases |g| - |st.path|
  {
    match FirstCandidate(st, 0)
    case Some(i) =>
      VisitWellFormed(g, st, i);
      VisitConsistent(g, st, i);
      KahnCorrect(g, Visit(g, st, i));
    case None =>
      forall v | IsNode(g, v)
        ensures !Ready(g, st.path, v)
      {
        CandidateIsReady(g, st, v);
      }
      if |st.path| == |g| {
        FullScheduleIsTopo(g, st.path);
      } else if Acyclic(g) {
        MaximalOnAcyclicIsTopo(g, st.path);
      }
  }

  /** An out-of-range target is reported as an invalid node: the first one a row-by-row scan meets. */
  lemma SortDAGReportsFirstInvalidEdge(g: Graph, u: int, k: int)
    requires FirstInvalid(g, u, k)
    ensures SortDAG(g) == Failure(InvalidNode(u, g[u][k]))
  {
    var e := FindInvalidEdge(g).value;
    FirstInvalidUnique(g, u, k, e.0, e.1);
  }

  /**
   * On a valid acyclic graph the sorter succeeds, with a topological order that is one
   * of the orders the exhaustive search records (what the parameterised test asserts).
   */
  lemma SortDAGOnDag(g: Graph)
    requires TargetsInRange(g) && Acyclic(g)
    ensures SortDAG(g).Success?
    ensures IsTopoOrder(g, SortDAG(g).value)
    ensures SortDAG(g).value in Calc(g, InitialState(g)).records
  {
    KahnCorrect(g, InitialState(g));
    EnumerationIsExact(g);
  }

  /** On a graph with a cycle and valid targets the sorter raises the cycle error. */
  lemma SortDAGOnCycle(g: Graph)
    requires TargetsInRange(g) && HasCycle(g)
    ensures SortDAG(g) == Failure(CycleDetected)
  {
    KahnCorrect(g, InitialState(g));
    if SortDAG(g).Success? {
      CycleHasNoTopoOrder(g, SortDAG(g).value);
    }
  }

  /** `DGCycleTest`: the five-node ring 0 -> 4 -> 3 -> 2 -> 1 -> 0 raises the cycle error. */
  lemma RingRaisesCycleError()
    ensures SortDAG([[4], [0], [1], [2], [3]]) == Failure(CycleDetected)
  {
    var g: Graph := [[4], [0], [1], [2], [3]];
    assert IsCycle(g, [0, 4, 3, 2, 1, 0]);
    SortDAGOnCycle(g);
  }

  /** `DAGInvalidNodeTest`: node 4's edge to the nonexistent node 5 raises the invalid-node error. */
  lemma OutOfRangeTargetRaisesInvalidNode()
    ensures SortDAG([[1], [], [1, 3], [0], [0, 1, 5]]) == Failure(InvalidNode(4, 5))
  {
    var g: Graph := [[1], [], [1, 3], [0], [0, 1, 5]];
    assert FirstInvalid(g, 4, 2);
    SortDAGReportsFirstInvalidEdge(g, 4, 2);
  }

  /**
   * `DAGSortTest`: for every coin sequence, sort a generated graph, enumerate all its
   * orders and check membership. The check always passes.
   */
  method DagSortTest(n: nat, coin: (nat, nat) -> bool) returns (passed: bool)
    ensures passed
  {
    var g := RandomDag.GenerateRandomAdjList(n, coin);
    var output := SortDAG(g);
    SortDAGOnDag(g);
    var expected := AllTopologicalSorts(g);
    assert output.value in expected.value;
    passed := TestHelpers.CheckValidDAGSort(expected.value, output.value);
  }
}
