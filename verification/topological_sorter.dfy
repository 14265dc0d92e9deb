/**
 * The test class's `TopologicalSorter`: an exhaustive backtracking search that records
 * every order in which the nodes of an adjacency-list graph can be taken, always taking
 * an unvisited node none of whose incoming edges comes from an unvisited node.
 *
 * The object's mutable fields (`vertexsVisited`, `numConnectedEdges`, `vertexList`)
 * are the `State` threaded through the search; `outputList`, which the search only
 * ever appends to, is the `records` part of each `Step`.
 */
module TopologicalSorter {
  import opened Wrappers
  import opened Seqs
  import opened Graphs
  import TestHelpers

  /** `vertexsVisited`, `numConnectedEdges` and `vertexList`. */
  datatype State = State(visited: seq<bool>, deg: seq<int>, path: seq<int>)

  /** The state a search step leaves behind and the orders it appended to `outputList`. */
  datatype Step = Step(state: State, records: seq<seq<int>>)

  /** The index failure the constructor raises at an edge target outside the graph. */
  datatype ConstructError = TargetOutOfBounds(node: nat, position: nat)

  /**
   * What every search call may rely on: arrays sized to the graph, every target a node,
   * and `vertexList` listing, without repetition, exactly the visited nodes.
   */
  predicate WellFormed(g: Graph, st: State) {
    && TargetsInRange(g)
    && |st.visited| == |g| && |st.deg| == |g|
    && Distinct(st.path) && AllIn(st.path, |g|)
    && forall v :: 0 <= v < |g| ==> (st.visited[v] <==> v in st.path)
  }

  /**
   * The relation the constructor sets up and the search maintains: each in-degree counts
   * the edges into the node from unvisited nodes, and the path is a schedule.
   */
  ghost predicate Consistent(g: Graph, st: State) {
    && WellFormed(g, st)
    && (forall v :: 0 <= v < |g| ==> st.deg[v] == LiveEdgesInto(g, st.visited, v, |g|))
    && PredClosed(g, st.path)
  }

  /**
   * The state right after construction: nothing visited, full in-degrees, empty path.
   * When every target is a node it satisfies the search invariant: each in-degree counts
   * exactly the edges from unvisited nodes, and the empty path is a schedule.
   */
  function InitialState(g: Graph): (st: State)
    ensures TargetsInRange(g) ==> Consistent(g, st)
  {
    var st := State(seq(|g|, _ => false), seq(|g|, v => EdgesInto(g, v, |g|)), []);
    assert TargetsInRange(g) ==> Consistent(g, st) by {
      forall v | 0 <= v < |g|
        ensures st.deg[v] == LiveEdgesInto(g, st.visited, v, |g|)
      {
        LiveEdgesIntoUnvisited(g, st.visited, v, |g|);
      }
    }
    st
  }

  /**
   * The constructor: sizes the arrays and counts, for every node, the edges pointing at it.
   * The array access `numConnectedEdges[adjList[y][x]]` fails at the first target outside
   * the graph, in scan order, and then no sorter exists.
   */
  method NewSorter(g: Graph) returns (r: Result<State, ConstructError>)
    ensures r.Success? <==> TargetsInRange(g)
    ensures r.Failure? ==> FirstInvalid(g, r.error.node, r.error.position)
    ensures r.Success? ==> r.value.path == [] && |r.value.visited| == |g|
    ensures r.Success? ==> forall v :: 0 <= v < |g| ==> !r.value.visited[v]
    ensures r.Success? ==> |r.value.deg| == |g|
    ensures r.Success? ==> forall v :: 0 <= v < |g| ==> r.value.deg[v] == EdgesInto(g, v, |g|)
  {
    var n := |g|;
    var visited := seq(n, _ => false);
    var deg := seq(n, _ => 0);
    var y := 0;
    while y < n
      invariant 0 <= y <= n
      invariant |deg| == n
      invariant forall v :: 0 <= v < n ==> deg[v] == EdgesInto(g, v, y)
      invariant forall u, k :: 0 <= u < y && 0 <= k < |g[u]| ==> IsNode(g, g[u][k])
    {
      var x := 0;
      while x < |g[y]|
        invariant 0 <= x <= |g[y]|
        invariant |deg| == n
        invariant forall v :: 0 <= v < n ==> deg[v] == EdgesInto(g, v, y) + Count(g[y][..x], v)
        invariant forall k :: 0 <= k < x ==> IsNode(g, g[y][k])
      {
        var t := g[y][x];
        if !(0 <= t < n) {
          return Failure(TargetOutOfBounds(y, x));
        }
        assert g[y][..x + 1][..x] == g[y][..x];
        deg := deg[t := deg[t] + 1];
        x := x + 1;
      }
      assert g[y][..x] == g[y];
      y := y + 1;
    }
    return Success(State(visited, deg, []));
  }

  /** Decrements `deg[t]` once for every occurrence of `t` in `targets`, in order. */
  function DecrementAll(deg: seq<int>, targets: seq<int>): (r: seq<int>)
    requires AllIn(targets, |deg|)
    ensures |r| == |deg|
    ensures forall v :: 0 <= v < |deg| ==> r[v] == deg[v] - Count(targets, v)
    decreases |targets|
  {
    if |targets| == 0 then deg
    else
      var d := DecrementAll(deg, targets[..|targets| - 1]);
      var t := targets[|targets| - 1];
      d[t := d[t] - 1]
  }

  /** Increments `deg[t]` once for every occurrence of `t` in `targets`, in order. */
  function IncrementAll(deg: seq<int>, targets: seq<int>): (r: seq<int>)
    requires AllIn(targets, |deg|)
    ensures |r| == |deg|
    ensures forall v :: 0 <= v < |deg| ==> r[v] == deg[v] + Count(targets, v)
    decreases |targets|
  {
    if |targets| == 0 then deg
    else
      var d := IncrementAll(deg, targets[..|targets| - 1]);
      var t := targets[|targets| - 1];
      d[t := d[t] + 1]
  }

  /** Marks `i` visited, removes its outgoing edges from the in-degrees, appends it to the path. */
  function Visit(g: Graph, st: State, i: int): (r: State)
    requires TargetsInRange(g) && |st.deg| == |g| && 0 <= i < |st.visited| && i < |g|
  {
    State(st.visited[i := true], DecrementAll(st.deg, g[i]), st.path + [i])
  }

  /**
   * The backtracking step: unmarks `i`, restores its outgoing edges and removes `i`
   * from the path at the position `indexOf` reports.
   */
  function Unvisit(g: Graph, st: State, i: int): (r: State)
    requires TargetsInRange(g) && |st.deg| == |g| && 0 <= i < |st.visited| && i < |g|
    requires i in st.path
  {
    State(st.visited[i := false], IncrementAll(st.deg, g[i]), RemoveAt(st.path, IndexOf(st.path, i)))
  }

  /** Removing the first occurrence of a node that was just appended, and nowhere else, is a pop. */
  lemma RemoveFirstOccurrenceIsPop(p: seq<int>, i: int)
    requires i !in p
    ensures IndexOf(p + [i], i) == |p|
    ensures RemoveAt(p + [i], IndexOf(p + [i], i)) == p
  {
    assert (p + [i])[..|p|] == p;
  }

  /** Visiting an unvisited node keeps the state well formed and lengthens the path. */
  lemma VisitWellFormed(g: Graph, st: State, i: int)
    requires WellFormed(g, st) && 0 <= i < |g| && !st.visited[i]
    ensures WellFormed(g, Visit(g, st, i))
    ensures |st.path| < |g|
  {
    var p := st.path + [i];
    assert Distinct(p);
    forall v | 0 <= v < |g|
      ensures st.visited[i := true][v] <==> v in p
    {
    }
    DistinctInRangeBound(p, |g|);
  }

  /** Backtracking over a node undoes visiting it exactly. */
  lemma UndoVisit(g: Graph, st: State, i: int)
    requires WellFormed(g, st) && 0 <= i < |g| && !st.visited[i]
    ensures i in Visit(g, st, i).path
    ensures Unvisit(g, Visit(g, st, i), i) == st
  {
    var s1 := Visit(g, st, i);
    var s3 := Unvisit(g, s1, i);
    assert s3.visited == st.visited;
    assert s3.deg == st.deg;
    RemoveFirstOccurrenceIsPop(st.path, i);
  }

  /**
   * What backtracking does: `i` becomes unvisited and no other flag changes, every
   * in-degree rises by the number of edges from `i` to that node, and one entry leaves
   * the path; on a repetition-free path that entry is `i` and every other node stays.
   */
  lemma UnvisitEffect(g: Graph, st: State, i: int)
    requires TargetsInRange(g) && |st.deg| == |g| && 0 <= i < |st.visited| && i < |g|
    requires i in st.path
    ensures |Unvisit(g, st, i).visited| == |st.visited| && !Unvisit(g, st, i).visited[i]
    ensures forall v :: 0 <= v < |st.visited| && v != i ==> Unvisit(g, st, i).visited[v] == st.visited[v]
    ensures |Unvisit(g, st, i).deg| == |g|
    ensures forall v :: 0 <= v < |g| ==> Unvisit(g, st, i).deg[v] == st.deg[v] + Count(g[i], v)
    ensures |Unvisit(g, st, i).path| == |st.path| - 1
    ensures Distinct(st.path) ==> i !in Unvisit(g, st, i).path
    ensures Distinct(st.path) ==> forall v :: v != i ==> (v in Unvisit(g, st, i).path <==> v in st.path)
  {
  }

  /** `calcAllTopologicalSortSolutions`: one call, starting from `st`. */
  function Calc(g: Graph, st: State): (r: Step)
    requires WellFormed(g, st)
    ensures r.state == st
    decreases |g| - |st.path|, 1
  {
    CalcFrom(g, st, 0, false)
  }

  /**
   * The `for` loop of `calcAllTopologicalSortSolutions` from vertex `i` on, with
   * `finished` the value of `isFinished` so far. Every candidate is visited, searched
   * from and backtracked over; when the loop found no candidate, the path is recorded.
   */
  function CalcFrom(g: Graph, st: State, i: int, finished: bool): (r: Step)
    requires WellFormed(g, st) && 0 <= i <= |g|
    ensures r.state == st
    decreases |g| - |st.path|, 0, |g| - i
  {
    if i == |g| then
      Step(st, if finished then [] else [st.path])
    else if !st.visited[i] && st.deg[i] == 0 then
      VisitWellFormed(g, st, i);
      UndoVisit(g, st, i);
      var c := Calc(g, Visit(g, st, i));
      var rest := CalcFrom(g, Unvisit(g, c.state, i), i + 1, true);
      Step(rest.state, c.records + rest.records)
    else
      CalcFrom(g, st, i + 1, finished)
  }

  /** `getOutput`: copies every recorded order into a fresh array. */
  method GetOutput(records: seq<seq<int>>) returns (output: seq<seq<int>>)
    ensures |output| == |records|
    ensures forall k :: 0 <= k < |records| ==> output[k] == records[k]
  {
    output := [];
    var k := 0;
    while k < |records|
      invariant 0 <= k <= |records|
      invariant output == records[..k]
    {
      var a := TestHelpers.IntegerListToIntArray(records[k]);
      assert a == records[k];
      output := output + [a];
      k := k + 1;
    }
  }

  // ---------------------------------------------------------------------------
  // What the search records.

  /** The search's candidate test is exactly readiness of the node. */
  lemma CandidateIsReady(g: Graph, st: State, v: int)
    requires Consistent(g, st) && 0 <= v < |g|
    ensures (!st.visited[v] && st.deg[v] == 0) <==> Ready(g, st.path, v)
  {
    LiveEdgesIntoZero(g, st.visited, v, |g|);
    if !st.visited[v] && st.deg[v] == 0 {
      forall u | Edge(g, u, v)
        ensures u in st.path
      {
      }
    }
    if Ready(g, st.path, v) {
      forall u | 0 <= u < |g| && !st.visited[u]
        ensures v !in g[u]
      {
        assert u !in st.path;
        assert !Edge(g, u, v);
      }
    }
  }

  /** Visiting a candidate keeps the in-degrees live and the path a schedule. */
  lemma VisitConsistent(g: Graph, st: State, i: int)
    requires Consistent(g, st) && 0 <= i < |g| && !st.visited[i] && st.deg[i] == 0
    ensures Consistent(g, Visit(g, st, i))
  {
    VisitWellFormed(g, st, i);
    var s1 := Visit(g, st, i);
    forall v | 0 <= v < |g|
      ensures s1.deg[v] == LiveEdgesInto(g, s1.visited, v, |g|)
    {
      LiveEdgesIntoVisit(g, st.visited, v, i, |g|);
    }
    CandidateIsReady(g, st, i);
    forall k, u | 0 <= k < |s1.path| && Edge(g, u, s1.path[k])
      ensures u in s1.path[..k]
    {
      if k < |st.path| {
        assert s1.path[..k] == st.path[..k];
        assert s1.path[k] == st.path[k];
      } else {
        assert s1.path[..k] == st.path;
      }
    }
  }

  /** Extending a prefix of `t` keeps it a prefix of `t`. */
  lemma PrefixStep(p: seq<int>, i: int, t: seq<int>)
    requires p + [i] <= t
    ensures p <= t && |p| < |t| && t[|p|] == i
  {
    assert t[..|p|] == (p + [i])[..|p|];
  }

  /** A loop step at a candidate appends the records of the search below it to those of the rest of the loop. */
  lemma CandidateStep(g: Graph, st: State, i: int, finished: bool)
    requires WellFormed(g, st) && 0 <= i < |g| && !st.visited[i] && st.deg[i] == 0
    ensures WellFormed(g, Visit(g, st, i))
    ensures CalcFrom(g, st, i, finished).records
         == Calc(g, Visit(g, st, i)).records + CalcFrom(g, st, i + 1, true).records
  {
    VisitWellFormed(g, st, i);
    UndoVisit(g, st, i);
  }

  /** Every order in `records` extends `p` and is a maximal schedule of `g`. */
  ghost predicate AllSound(g: Graph, p: seq<int>, records: seq<seq<int>>) {
    forall t :: t in records ==> p <= t && IsMaximalSchedule(g, t)
  }

  /** The records below a candidate `i`, which extend `p + [i]`, also extend `p`; soundness survives concatenation. */
  lemma JoinSound(g: Graph, p: seq<int>, i: int, a: seq<seq<int>>, b: seq<seq<int>>)
    requires AllSound(g, p + [i], a) && AllSound(g, p, b)
    ensures AllSound(g, p, a + b)
  {
    forall t | t in a + b
      ensures p <= t && IsMaximalSchedule(g, t)
    {
      if t in a {
        PrefixStep(p, i, t);
      }
    }
  }

  /** Soundness: everything the search records extends its starting path and is a maximal schedule. */
  lemma {:induction false} CalcSound(g: Graph, st: State)
    requires Consistent(g, st)
    ensures forall t :: t in Calc(g, st).records ==> st.path <= t && IsMaximalSchedule(g, t)
    decreases |g| - |st.path|, 1
  {
    CalcFromSound(g, st, 0, false);
  }

  lemma {:induction false} CalcFromSound(g: Graph, st: State, i: int, finished: bool)
    requires Consistent(g, st) && 0 <= i <= |g|
    requires !finished ==> forall j :: 0 <= j < i ==> st.visited[j] || st.deg[j] != 0
    ensures AllSound(g, st.path, CalcFrom(g, st, i, finished).records)
    decreases |g| - |st.path|, 0, |g| - i
  {
    if i == |g| {
      if !finished {
        forall v | IsNode(g, v)
          ensures !Ready(g, st.path, v)
        {
          CandidateIsReady(g, st, v);
        }
      }
    } else if !st.visited[i] && st.deg[i] == 0 {
      CandidateStep(g, st, i, finished);
      VisitWellFormed(g, st, i);
      VisitConsistent(g, st, i);
      CalcSound(g, Visit(g, st, i));
      CalcFromSound(g, st, i + 1, true);
      JoinSound(g, st.path, i, Calc(g, Visit(g, st, i)).records, CalcFrom(g, st, i + 1, true).records);
    } else {
      CalcFromSound(g, st, i + 1, finished);
    }
  }

  /** When no node from `i` on is a candidate, the loop adds only the path, and only if nothing came before. */
  lemma {:induction false} NoCandidateRecordsPath(g: Graph, st: State, i: int, finished: bool)
    requires WellFormed(g, st) && 0 <= i <= |g|
    requires forall j :: i <= j < |g| ==> st.visited[j] || st.deg[j] != 0
    ensures CalcFrom(g, st, i, finished).records == if finished then [] else [st.path]
    decreases |g| - i
  {
    if i < |g| {
      NoCandidateRecordsPath(g, st, i + 1, finished);
    }
  }

  /** Whatever the search below candidate `v` records, the loop from any `i <= v` records too. */
  lemma {:induction false} CalcFromIncludes(g: Graph, st: State, i: int, finished: bool, v: int, t: seq<int>)
    requires WellFormed(g, st) && 0 <= i <= v < |g|
    requires !st.visited[v] && st.deg[v] == 0
    requires t in Calc(g, Visit(g, st, v)).records
    ensures t in CalcFrom(g, st, i, finished).records
    decreases |g| - i
  {
    if !st.visited[i] && st.deg[i] == 0 {
      VisitWellFormed(g, st, i);
      UndoVisit(g, st, i);
      if i < v {
        CalcFromIncludes(g, st, i + 1, true, v, t);
      }
    } else {
      CalcFromIncludes(g, st, i + 1, finished, v, t);
    }
  }

  /** The node a schedule places next is ready. */
  lemma NextIsReady(g: Graph, p: seq<int>, t: seq<int>)
    requires IsSchedule(g, t) && p <= t && |p| < |t|
    ensures Ready(g, p, t[|p|])
  {
    assert p == t[..|p|];
  }

  /** Completeness: every maximal schedule that extends the starting path is recorded. */
  lemma {:induction false} CalcComplete(g: Graph, st: State, t: seq<int>)
    requires Consistent(g, st) && IsMaximalSchedule(g, t) && st.path <= t
    ensures t in Calc(g, st).records
    decreases |g| - |st.path|
  {
    if |t| == |st.path| {
      assert t == st.path;
      forall j | 0 <= j < |g|
        ensures st.visited[j] || st.deg[j] != 0
      {
        CandidateIsReady(g, st, j);
      }
      NoCandidateRecordsPath(g, st, 0, false);
    } else {
      var v := t[|st.path|];
      NextIsReady(g, st.path, t);
      CandidateIsReady(g, st, v);
      VisitWellFormed(g, st, v);
      VisitConsistent(g, st, v);
      assert st.path + [v] <= t by {
        assert t[..|st.path| + 1] == t[..|st.path|] + [v];
      }
      CalcComplete(g, Visit(g, st, v), t);
      CalcFromIncludes(g, st, 0, false, v, t);
    }
  }

  /** Everything the search records extends the path it started from. */
  lemma {:induction false} CalcExtends(g: Graph, st: State)
    requires WellFormed(g, st)
    ensures forall t :: t in Calc(g, st).records ==> st.path <= t
    decreases |g| - |st.path|, 1
  {
    CalcFromExtends(g, st, 0, false);
  }

  lemma {:induction false} CalcFromExtends(g: Graph, st: State, i: int, finished: bool)
    requires WellFormed(g, st) && 0 <= i <= |g|
    ensures forall t :: t in CalcFrom(g, st, i, finished).records ==> st.path <= t
    decreases |g| - |st.path|, 0, |g| - i
  {
    if i < |g| {
      if !st.visited[i] && st.deg[i] == 0 {
        CandidateStep(g, st, i, finished);
        VisitWellFormed(g, st, i);
        var s1 := Visit(g, st, i);
        CalcExtends(g, s1);
        CalcFromExtends(g, st, i + 1, true);
        ExtendsParent(Calc(g, s1).records, st.path, i);
      } else {
        CalcFromExtends(g, st, i + 1, finished);
      }
    }
  }

  /** Records that extend `p + [i]` extend `p`. */
  lemma ExtendsParent(a: seq<seq<int>>, p: seq<int>, i: int)
    requires forall t :: t in a ==> p + [i] <= t
    ensures forall t :: t in a ==> p <= t
  {
    forall t | t in a
      ensures p <= t
    {
      PrefixStep(p, i, t);
    }
  }

  /** Records that all extend `p + [i]` can be followed by records that continue `p` with later nodes. */
  lemma JoinBranches(a: seq<seq<int>>, b: seq<seq<int>>, p: seq<int>, i: int)
    requires Distinct(a) && Distinct(b)
    requires forall t :: t in a ==> p + [i] <= t
    requires forall t :: t in b ==> |p| < |t| && i < t[|p|]
    ensures Distinct(a + b)
    ensures forall t :: t in a + b ==> |p| < |t| && i <= t[|p|]
  {
    forall t | t in a
      ensures |p| < |t| && t[|p|] == i
    {
      PrefixStep(p, i, t);
    }
    DistinctAppend(a, b);
  }

  /**
   * No order is recorded twice; once a candidate has been taken, every later record
   * continues the path with a node at or after the loop position.
   */
  lemma {:induction false} CalcFromDistinct(g: Graph, st: State, i: int, finished: bool)
    requires WellFormed(g, st) && 0 <= i <= |g|
    ensures Distinct(CalcFrom(g, st, i, finished).records)
    ensures finished ==> forall t :: t in CalcFrom(g, st, i, finished).records ==>
      |st.path| < |t| && i <= t[|st.path|]
    decreases |g| - |st.path|, 0, |g| - i
  {
    if i < |g| {
      if !st.visited[i] && st.deg[i] == 0 {
        CandidateStep(g, st, i, finished);
        VisitWellFormed(g, st, i);
        var s1 := Visit(g, st, i);
        CalcDistinct(g, s1);
        CalcExtends(g, s1);
        CalcFromDistinct(g, st, i + 1, true);
        JoinBranches(Calc(g, s1).records, CalcFrom(g, st, i + 1, true).records, st.path, i);
      } else {
        CalcFromDistinct(g, st, i + 1, finished);
      }
    }
  }

  lemma {:induction false} CalcDistinct(g: Graph, st: State)
    requires WellFormed(g, st)
    ensures Distinct(Calc(g, st).records)
    decreases |g| - |st.path|, 1
  {
    CalcFromDistinct(g, st, 0, false);
  }

  /** Every call that has not yet taken a candidate records at least one order. */
  lemma {:induction false} CalcFromNonEmpty(g: Graph, st: State, i: int, finished: bool)
    requires WellFormed(g, st) && 0 <= i <= |g|
    ensures !finished ==> |CalcFrom(g, st, i, finished).records| > 0
    decreases |g| - |st.path|, 0, |g| - i
  {
    if i < |g| {
      if !st.visited[i] && st.deg[i] == 0 {
        VisitWellFormed(g, st, i);
        UndoVisit(g, st, i);
        CalcFromNonEmpty(g, Visit(g, st, i), 0, false);
      } else {
        CalcFromNonEmpty(g, st, i + 1, finished);
      }
    }
  }

  /**
   * The search from the constructed state records exactly the maximal schedules of the
   * graph, each once. On an acyclic graph these are exactly its topological orders;
   * on a graph with a cycle each of them leaves some node out.
   */
  lemma EnumerationIsExact(g: Graph)
    requires TargetsInRange(g)
    ensures Distinct(Calc(g, InitialState(g)).records)
    ensures |Calc(g, InitialState(g)).records| > 0
    ensures forall t :: t in Calc(g, InitialState(g)).records <==> IsMaximalSchedule(g, t)
    ensures Acyclic(g) ==>
      forall t :: t in Calc(g, InitialState(g)).records <==> IsTopoOrder(g, t)
    ensures HasCycle(g) ==>
      forall t :: t in Calc(g, InitialState(g)).records ==> |t| < |g|
  {
    var st := InitialState(g);
    CalcSound(g, st);
    CalcDistinct(g, st);
    CalcFromNonEmpty(g, st, 0, false);
    forall t | IsMaximalSchedule(g, t)
      ensures t in Calc(g, st).records
    {
      CalcComplete(g, st, t);
    }
    if Acyclic(g) {
      forall t
        ensures t in Calc(g, st).records <==> IsTopoOrder(g, t)
      {
        if t in Calc(g, st).records {
          MaximalOnAcyclicIsTopo(g, t);
        }
        if IsTopoOrder(g, t) {
          TopoIsMaximal(g, t);
        }
      }
    }
    if HasCycle(g) {
      forall t | t in Calc(g, st).records
        ensures |t| < |g|
      {
        MaximalOnCycleIsShort(g, t);
      }
    }
  }

  /**
   * Construct a sorter, run the search and read the output, as the parameterised test does.
   * Fails exactly when some edge target is outside the graph.
   */
  method AllTopologicalSorts(g: Graph) returns (r: Result<seq<seq<int>>, ConstructError>)
    ensures r.Success? <==> TargetsInRange(g)
    ensures r.Success? ==> |r.value| > 0 && Distinct(r.value)
    ensures r.Success? && Acyclic(g) ==> forall t :: t in r.value <==> IsTopoOrder(g, t)
    ensures r.Success? ==> forall t :: t in r.value <==> IsMaximalSchedule(g, t)
    ensures r.Success? && HasCycle(g) ==> forall t :: t in r.value ==> |t| < |g|
  {
    var s := NewSorter(g);
    if s.Failure? {
      return Failure(s.error);
    }
    assert s.value == InitialState(g);
    var step := Calc(g, s.value);
    var output := GetOutput(step.records);
    EnumerationIsExact(g);
    return Success(output);
  }
}
