/**
 * `generateRandomAdjList`: fills the strictly lower triangle of an n-by-n 0/1 matrix
 * with coin flips and turns each row into the ascending list of columns holding 1.
 * The coin (`Math.round(Math.random())`) is a parameter: `coin(y, x)` is the flip
 * made for row `y`, column `x`.
 */
module RandomDag {
  import opened Seqs
  import opened Graphs
  import TestHelpers

  /** The matrix-filling loops: row `y` receives flips in columns 0, ..., y-1 and zeros elsewhere. */
  method FillLowerTriangle(n: nat, coin: (nat, nat) -> bool) returns (m: seq<seq<int>>)
    ensures |m| == n
    ensures forall y :: 0 <= y < n ==> |m[y]| == n
    ensures forall y, x :: 0 <= y < n && 0 <= x < n ==>
      m[y][x] == (if x < y && coin(y, x) then 1 else 0)
  {
    m := seq(n, _ => seq(n, _ => 0));
    var toCheck: nat := 0;
    var y: nat := 0;
    while y < n
      invariant y <= n && toCheck == y
      invariant |m| == n && forall r :: 0 <= r < n ==> |m[r]| == n
      invariant forall r, c :: 0 <= r < n && 0 <= c < n ==>
        m[r][c] == (if r < y && c < r && coin(r, c) then 1 else 0)
    {
      var x: nat := 0;
      while x < toCheck
        invariant x <= toCheck
        invariant |m| == n && forall r :: 0 <= r < n ==> |m[r]| == n
        invariant forall r, c :: 0 <= r < n && 0 <= c < n ==>
          m[r][c] == (if (r < y && c < r && coin(r, c)) || (r == y && c < x && coin(r, c)) then 1 else 0)
      {
        var bit := if coin(y, x) then 1 else 0;
        m := m[y := m[y][x := bit]];
        x := x + 1;
      }
      toCheck := toCheck + 1;
      y := y + 1;
    }
  }

  /** The conversion loops: row `y` of the result lists, in ascending order, the columns where row `y` of `m` holds 1. */
  method MatrixToAdjList(m: seq<seq<int>>) returns (g: Graph)
    requires forall y :: 0 <= y < |m| ==> |m[y]| == |m|
    ensures |g| == |m|
    ensures forall y :: 0 <= y < |m| ==> StrictlyIncreasing(g[y])
    ensures forall y, k :: 0 <= y < |m| && 0 <= k < |g[y]| ==> 0 <= g[y][k] < |m| && m[y][g[y][k]] == 1
    ensures forall y, x :: 0 <= y < |m| && 0 <= x < |m| && m[y][x] == 1 ==> x in g[y]
  {
    var n := |m|;
    g := [];
    var y := 0;
    while y < n
      invariant 0 <= y <= n && |g| == y
      invariant forall r :: 0 <= r < y ==> StrictlyIncreasing(g[r])
      invariant forall r, k :: 0 <= r < y && 0 <= k < |g[r]| ==> 0 <= g[r][k] < n && m[r][g[r][k]] == 1
      invariant forall r, x :: 0 <= r < y && 0 <= x < n && m[r][x] == 1 ==> x in g[r]
    {
      var current: seq<int> := [];
      var x := 0;
      while x < n
        invariant 0 <= x <= n
        invariant StrictlyIncreasing(current)
        invariant forall k :: 0 <= k < |current| ==> 0 <= current[k] < x && m[y][current[k]] == 1
        invariant forall c :: 0 <= c < x && m[y][c] == 1 ==> c in current
      {
        if m[y][x] == 1 {
          current := current + [x];
        }
        x := x + 1;
      }
      var row := TestHelpers.IntegerListToIntArray(current);
      assert row == current;
      g := g + [row];
      y := y + 1;
    }
  }

  /**
   * For every sequence of coin flips the result has `n` rows; row `y` lists, ascending,
   * exactly the smaller nodes whose flip came up 1. Every edge therefore points to a
   * smaller node, so every target is a node and the graph has no cycle.
   */
  method GenerateRandomAdjList(n: nat, coin: (nat, nat) -> bool) returns (g: Graph)
    ensures |g| == n
    ensures forall y, x :: 0 <= y < n ==> (x in g[y] <==> 0 <= x < y && coin(y, x))
    ensures forall y :: 0 <= y < n ==> StrictlyIncreasing(g[y])
    ensures TargetsInRange(g)
    ensures Acyclic(g)
  {
    var m := FillLowerTriangle(n, coin);
    g := MatrixToAdjList(m);
    forall y, x | 0 <= y < n
      ensures x in g[y] <==> 0 <= x < y && coin(y, x)
    {
      if x in g[y] {
        var k :| 0 <= k < |g[y]| && g[y][k] == x;
      }
    }
    forall u, k | 0 <= u < |g| && 0 <= k < |g[u]|
      ensures g[u][k] < u
    {
      assert m[u][g[u][k]] == 1;
    }
    DownwardIsAcyclic(g);
  }
}
