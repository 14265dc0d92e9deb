/** Facts about sequences of node identifiers: distinctness, counting, cardinality. */
module Seqs {

  /** No element occurs twice. */
  predicate Distinct<T(==)>(s: seq<T>) {
    forall i, j :: 0 <= i < j < |s| ==> s[i] != s[j]
  }

  /** Every element lies in [0, n). */
  predicate AllIn(s: seq<int>, n: int) {
    forall k :: 0 <= k < |s| ==> 0 <= s[k] < n
  }

  /** `s` lists each of 0, ..., n-1 exactly once. */
  predicate IsPermutation(s: seq<int>, n: nat) {
    |s| == n && Distinct(s) && AllIn(s, n)
  }

  predicate StrictlyIncreasing(s: seq<int>) {
    forall i, j :: 0 <= i < j < |s| ==> s[i] < s[j]
  }

  /** Number of occurrences of `x` in `s`, by recursion that peels off the last element. */
  function Count<T(==)>(s: seq<T>, x: T): (c: nat)
    ensures c == 0 <==> x !in s
    ensures c <= |s|
  {
    if |s| == 0 then 0
    else
      assert s == s[..|s| - 1] + [s[|s| - 1]];
      Count(s[..|s| - 1], x) + (if s[|s| - 1] == x then 1 else 0)
  }

  /** Index of the first occurrence of `x` in `s`, or -1 when there is none (as List.indexOf). */
  function IndexOf<T(==)>(s: seq<T>, x: T): (k: int)
    ensures -1 <= k < |s|
    ensures k == -1 <==> x !in s
    ensures 0 <= k ==> s[k] == x && x !in s[..k]
  {
    if |s| == 0 then -1
    else if s[0] == x then 0
    else
      var k := IndexOf(s[1..], x);
      if k == -1 then -1
      else
        assert s[..k + 1] == [s[0]] + s[1..][..k];
        k + 1
  }

  /** `s` with the element at position `k` removed (as List.remove(int)). */
  function RemoveAt<T>(s: seq<T>, k: int): (r: seq<T>)
    requires 0 <= k < |s|
  {
    s[..k] + s[k + 1..]
  }

  /** The set of entries of `s`. */
  function Elements(s: seq<int>): (r: set<int>) {
    set x | x in s
  }

  /** The node identifiers 0, ..., n-1 as a set. */
  function Range(n: nat): (r: set<int>)
    ensures forall x :: x in r <==> 0 <= x < n
  {
    if n == 0 then {} else Range(n - 1) + {n - 1}
  }

  lemma {:induction false} RangeCard(n: nat)
    ensures |Range(n)| == n
  {
    if n > 0 {
      RangeCard(n - 1);
      assert Range(n) == Range(n - 1) + {n - 1};
    }
  }

  lemma {:induction false} DistinctCard(s: seq<int>)
    requires Distinct(s)
    ensures |Elements(s)| == |s|
  {
    if |s| > 0 {
      var init := s[..|s| - 1];
      assert Distinct(init);
      DistinctCard(init);
      assert s == init + [s[|s| - 1]];
      assert Elements(s) == Elements(init) + {s[|s| - 1]};
      assert s[|s| - 1] !in Elements(init);
    }
  }

  lemma SubsetCard(a: set<int>, b: set<int>)
    requires a <= b
    ensures |a| <= |b|
  {
    assert b == a + (b - a);
    assert a * (b - a) == {};
  }

  /** Pigeonhole: a repetition-free sequence of values in [0, n) has at most n elements. */
  lemma DistinctInRangeBound(s: seq<int>, n: nat)
    requires Distinct(s) && AllIn(s, n)
    ensures |s| <= n
  {
    DistinctCard(s);
    RangeCard(n);
    SubsetCard(Elements(s), Range(n));
  }

  /** A repetition-free sequence that contains all of 0, ..., n-1 has at least n elements. */
  lemma DistinctCoveringBound(s: seq<int>, n: nat)
    requires Distinct(s)
    requires forall v :: 0 <= v < n ==> v in s
    ensures |s| >= n
  {
    DistinctCard(s);
    RangeCard(n);
    SubsetCard(Range(n), Elements(s));
  }

  /** A permutation of 0, ..., n-1 mentions every one of them. */
  lemma PermutationCovers(s: seq<int>, n: nat)
    requires IsPermutation(s, n)
    ensures forall v :: 0 <= v < n ==> v in s
  {
    forall v | 0 <= v < n
      ensures v in s
    {
      if v !in s {
        DistinctCard(s);
        RangeCard(n);
        assert Elements(s) <= Range(n) - {v};
        SubsetCard(Elements(s), Range(n) - {v});
      }
    }
  }

  lemma DistinctAppend<T>(a: seq<T>, b: seq<T>)
    requires Distinct(a) && Distinct(b)
    requires forall x :: x in a ==> x !in b
    ensures Distinct(a + b)
  {
    forall i, j | 0 <= i < j < |a + b|
      ensures (a + b)[i] != (a + b)[j]
    {
      if i < |a| && j >= |a| {
        assert (a + b)[i] in a;
        assert (a + b)[j] in b;
      }
    }
  }
}
