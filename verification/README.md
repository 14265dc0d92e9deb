# Topological sorting of adjacency-list graphs: test oracle and sorter contract

This project models the graph logic in `DAGSortTest`, which checks a topological sorter for directed graphs. A graph is an adjacency list `int[][]`: row `u` lists the targets of the edges leaving node `u`.

- **`TopologicalSorter`** is the test oracle. Its constructor counts the incoming edges of every node. `calcAllTopologicalSortSolutions` is an exhaustive backtracking search. It repeatedly takes an unvisited node whose in-degree is zero and decrements the in-degrees of that node's successors. It then recurses and undoes every change. It records the current node list whenever no candidate is left. `getOutput` copies the recorded lists into arrays.
- **`generateRandomAdjList`** fills the strictly lower triangle of a 0/1 matrix with coin flips and converts the matrix into an adjacency list. In the model the coin is a parameter `coin(y, x)`.
- **`integerListToIntArray`** and **`checkValidDAGSort`** copy a list into an array and test whether an output occurs in a set of expected outputs.
- **The contract of `DAGSort.sortDAG`**, as the tests state it:
  - a valid acyclic graph must give one of the orders the oracle records;
  - a ring must raise a cycle error;
  - an out-of-range target must raise an invalid-node error.

  The production sorter is not part of this model. `DagSortContract.SortDAG` is an independent Kahn-style sorter that is proved to meet this contract. It is not a transcription of `DAGSort.java`.

Modules:

| file | module | contents |
|---|---|---|
| `wrappers.dfy` | `Wrappers` | `Option`, `Result` |
| `seqs.dfy` | `Seqs` | distinctness, occurrence counts, `indexOf`, `remove(int)`, cardinality and pigeonhole facts |
| `graphs.dfy` | `Graphs` | edges, the first out-of-range target, in-degree counts, cycles, schedules, topological orders and the facts linking them |
| `topological_sorter.dfy` | `TopologicalSorter` | the oracle: its state, constructor, visit and backtrack steps, the search, `getOutput`, and the theorems about what it records |
| `test_helpers.dfy` | `TestHelpers` | `integerListToIntArray`, `checkValidDAGSort` |
| `random_dag.dfy` | `RandomDag` | `generateRandomAdjList` |
| `dag_sort_contract.dfy` | `DagSortContract` | the sorter contract, a Kahn-style sorter meeting it, and the three unit tests as lemmas |

The vocabulary of the theorems:

- A **schedule** is a repetition-free list of nodes. Every node in it appears after all of its predecessors.
- A node is **ready** for a schedule if it is not in the schedule yet and all of its predecessors are.
- A **maximal schedule** is a schedule with no ready node left.

The search records exactly the maximal schedules of the graph, each of them once. On an acyclic graph these are exactly the topological orders. On a graph with a cycle each of them is shorter than the number of nodes.

The object's mutable fields `vertexsVisited`, `numConnectedEdges` and `vertexList` are modelled as a `State` value. The search threads this value through its loop exactly as the Java code mutates the fields. The search only ever appends to `outputList`, so each search step returns the lists it appended (`Step.records`) separately. The contract `r.state == st` on `Calc` and `CalcFrom` says that the backtracking restores all three fields. The termination argument of the search depends on it.

## Model

| member | source | states |
|---|---|---|
| `TopologicalSorter.NewSorter` | src/DAGSortTest.java:109-123 | Succeeds exactly when every edge target is a node. The result has nothing visited and an empty node list, and `numConnectedEdges[v]` equals the number of occurrences of `v` across all adjacency lists. Otherwise it fails at the first out-of-range target met by the row-by-row scan (the failing array access at line 120). |
| `Graphs.FindInvalidEdge` | src/DAGSortTest.java:118-120 | Returns nothing exactly when all targets are in range. Otherwise it returns the first out-of-range target in the constructor's scan order. |
| `TopologicalSorter.InitialState` | src/DAGSortTest.java:109-123 | When every target is a node, the state the constructor builds satisfies the search invariant: each in-degree counts exactly the edges coming from unvisited nodes, the node list is repetition-free and matches the visited flags, and the empty list is a schedule. |
| `TopologicalSorter.UnvisitEffect` | src/DAGSortTest.java:144-149 | `Unvisit`, the backtracking step, clears the visited flag of `i` and no other. It raises each in-degree by the number of edges from `i` to that node and removes one entry from the node list. On a repetition-free list that entry is `i` and every other node stays. `UndoVisit` shows it exactly undoes `Visit`. |
| `TopologicalSorter.DecrementAll` | src/DAGSortTest.java:136-138 | Lowers each in-degree by the number of edges the visited node has to that node, duplicates included. |
| `TopologicalSorter.IncrementAll` | src/DAGSortTest.java:146-148 | Raises each in-degree by the number of edges the node has to it, so it exactly undoes `DecrementAll`. |
| `TopologicalSorter.RemoveFirstOccurrenceIsPop` | src/DAGSortTest.java:141-149 | If the node was not on the list before it was appended, `remove(indexOf(i))` finds it at the last position and removes exactly the element just appended. |
| `TopologicalSorter.VisitWellFormed` | src/DAGSortTest.java:133-141 | Visiting an unvisited node keeps the node list repetition-free, in range, and equal to the set of visited nodes. Before the visit, the list has fewer entries than the graph has nodes. |
| `TopologicalSorter.UndoVisit` | src/DAGSortTest.java:144-149 | `Unvisit`, the backtracking step, applied after `Visit`, the candidate step, gives back exactly the visited flags, in-degrees and node list from before the node was visited. |
| `TopologicalSorter.Calc` | src/DAGSortTest.java:125-161 | A call leaves `vertexsVisited`, `numConnectedEdges` and `vertexList` exactly as they were on entry; its only effect is the lists it appends to the output. |
| `TopologicalSorter.CalcFrom` | src/DAGSortTest.java:130-159 | Each remaining pass of the loop, including every recursive search and its backtracking, leaves the three fields as it found them. |
| `TopologicalSorter.CandidateStep` | src/DAGSortTest.java:133-151 | At a candidate, the loop records what the search below that node records, followed by what the rest of the loop records with `isFinished` set. |
| `TopologicalSorter.CandidateIsReady` | src/DAGSortTest.java:132-133 | The test "unvisited and zero in-degree" holds exactly when the node is ready, meaning all its predecessors are already on the node list. |
| `TopologicalSorter.VisitConsistent` | src/DAGSortTest.java:133-141 | `Visit`, the candidate step (mark the node, decrement its successors' in-degrees, append it), preserves the search invariant when applied to a candidate: the live in-degree counts still hold and the list stays a schedule. |
| `TopologicalSorter.CalcSound` | src/DAGSortTest.java:125-161 | Every list the search records extends the node list it started from and is a maximal schedule. It is recorded only when no node is ready. |
| `TopologicalSorter.CalcFromSound` | src/DAGSortTest.java:130-159 | Same as `CalcSound`, for the loop from vertex `i` on, provided that while `isFinished` is false no earlier vertex was a candidate. |
| `TopologicalSorter.NoCandidateRecordsPath` | src/DAGSortTest.java:156-159 | If no vertex from `i` on is a candidate, the loop records the current list, and only when `isFinished` is still false. |
| `TopologicalSorter.CalcFromIncludes` | src/DAGSortTest.java:130-152 | Whatever the search below a candidate `v` records is also recorded by the loop started at any vertex up to `v`. |
| `TopologicalSorter.CalcComplete` | src/DAGSortTest.java:87-161 | Every maximal schedule that extends the starting list is recorded. On a DAG this means every topological order is produced. |
| `TopologicalSorter.CalcExtends` | src/DAGSortTest.java:141-142 | Every list recorded below a call starts with the node list that call began with. |
| `TopologicalSorter.CalcFromDistinct` | src/DAGSortTest.java:130-154 | The loop records no list twice. Once a candidate has been taken, every later record continues the list with a node at or after the loop position. |
| `TopologicalSorter.CalcDistinct` | src/DAGSortTest.java:125-161 | A search records no list twice. |
| `TopologicalSorter.CalcFromNonEmpty` | src/DAGSortTest.java:156-159 | A loop that has not yet taken a candidate records at least one list. |
| `TopologicalSorter.EnumerationIsExact` | src/DAGSortTest.java:87-161 | From the constructed state the search records each maximal schedule exactly once and nothing else. On an acyclic graph the records are exactly the topological orders. On a graph with a cycle every record is shorter than the number of nodes. |
| `TopologicalSorter.GetOutput` | src/DAGSortTest.java:163-171 | Returns as many arrays as there are recorded lists, each equal to its list. |
| `TopologicalSorter.AllTopologicalSorts` | src/DAGSortTest.java:199-201 | Construct, search and read out. This fails exactly on an out-of-range target. Otherwise the result is non-empty and free of repeats, and holds exactly the maximal schedules of the graph. On an acyclic graph these are exactly the topological orders, and on a graph with a cycle every list is shorter than the number of nodes. |
| `TestHelpers.IntegerListToIntArray` | src/DAGSortTest.java:65-73 | The array has the list's length and the same element at every index. |
| `TestHelpers.CheckValidDAGSort` | src/DAGSortTest.java:76-85 | True exactly when the actual output equals some expected output. |
| `RandomDag.FillLowerTriangle` | src/DAGSortTest.java:31-38 | The result is an n-by-n matrix. Entry `[y][x]` is the coin flip for `x < y` and 0 on and above the diagonal. |
| `RandomDag.MatrixToAdjList` | src/DAGSortTest.java:44-57 | Row `y` lists, strictly increasing, exactly the columns where row `y` of the matrix holds 1. |
| `RandomDag.GenerateRandomAdjList` | src/DAGSortTest.java:20-61 | For every coin sequence the result has `n` rows. Row `y` lists exactly the `x < y` whose flip was 1, strictly increasing. Every target is a node and the graph has no cycle. |
| `Graphs.DownwardIsAcyclic` | src/DAGSortTest.java:31-38 | A graph whose edges all point to smaller nodes, which is what filling only the lower triangle produces, has no cycle. |
| `Graphs.MaximalOnAcyclicIsTopo` | src/DAGSortTest.java:156-158 | On an acyclic graph a list recorded because no candidate is left contains every node, so it is a topological order. |
| `Graphs.MaximalOnCycleIsShort` | src/DAGSortTest.java:212-218 | On a graph with a cycle, such as the ring, every list nobody can extend leaves some node out. |
| `Graphs.CycleHasNoTopoOrder` | src/DAGSortTest.java:210-221 | A graph with a cycle has no topological order. |
| `DagSortContract.SortDAG` | src/DAGSortTest.java:195-239 | Fails with an invalid-node error exactly when some target is out of range. On success the order has one entry per node. |
| `DagSortContract.SortDAGOnDag` | src/DAGSortTest.java:195-204 | On a valid acyclic graph the sorter succeeds. Its order is a topological order and is one of the orders the exhaustive search records. |
| `DagSortContract.SortDAGOnCycle` | src/DAGSortTest.java:210-221 | On a graph with a cycle and in-range targets the sorter raises the cycle error. |
| `DagSortContract.SortDAGReportsFirstInvalidEdge` | src/DAGSortTest.java:228-239 | An out-of-range target is reported as an invalid-node error that names the first offending node and its target. |
| `DagSortContract.RingRaisesCycleError` | src/DAGSortTest.java:210-221 | The five-node ring of `DGCycleTest` raises the cycle error. |
| `DagSortContract.OutOfRangeTargetRaisesInvalidNode` | src/DAGSortTest.java:228-239 | The graph of `DAGInvalidNodeTest` raises the invalid-node error for node 4 and target 5. |
| `DagSortContract.DagSortTest` | src/DAGSortTest.java:194-204 | With `SortDAG` standing in for `DAGSort.sortDAG`, the parameterised test passes for every graph size and every coin sequence. |

## Left out

- `Math.random()` (line 35) is not modelled as randomness. It becomes the parameter `coin(y, x)`, and the theorems hold for every coin.
- The zero-initialisation loop (lines 25-29) is left out, because the model's matrix starts zeroed, as Java arrays do.
- The null-argument test (lines 223-226) is left out. It depends on Java's `NullPointerException`, and Dafny sequences are never null.
- JUnit plumbing is left out: the runners, the `data()` fixture (lines 187-192) and `assertTrue`. `DagSortTest` returns the value that `assertTrue` would check.
- Java collection mechanics are left out: boxing, the `ArrayList.clone` cast (line 158), and the separate identity of arrays and lists. Lists and arrays are both `seq<int>`, and `getOutput` copies values.
- The constructor's `ArrayIndexOutOfBoundsException` is modelled as a `Failure` value that names the offending row and position. The partially filled object the exception abandons is not modelled.
- Java `int` overflow is not modelled. In-degree counters are unbounded integers. In the Java code `numConnectedEdges[v]` wraps once node `v` has 2^31 or more incoming edges (counting duplicates), and a count that wraps to 0 would let the search take `v` before its predecessors. The model assumes every node has fewer than 2^31 incoming edges.
- `DAGSort.java` is not part of this model. `DagSortContract.SortDAG` stands in for it as an independent Kahn-style sorter that takes the lowest-numbered ready node first. The proved contract is the one the tests assert. Claims about how the production code works internally are out of scope.
- The tie-break order of the production sorter is unknown. The contract lemmas do not depend on it: any sorter that returns a topological order satisfies `SortDAGOnDag`'s membership claim.
