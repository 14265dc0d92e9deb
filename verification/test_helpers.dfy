/**
 * The two small static helpers of the test class: copying a list of integers into
 * an array, and deciding whether an actual output equals one of the expected ones.
 * Java lists and arrays of `int` are both modelled as `seq<int>`.
 */
module TestHelpers {

  /** `integerListToIntArray`: allocates an array of the list's size and copies element by element. */
  method IntegerListToIntArray(xs: seq<int>) returns (a: seq<int>)
    ensures |a| == |xs|
    ensures forall i :: 0 <= i < |xs| ==> a[i] == xs[i]
  {
    a := seq(|xs|, _ => 0);
    var i := 0;
    while i < |xs|
      invariant 0 <= i <= |xs|
      invariant |a| == |xs|
      invariant forall j :: 0 <= j < i ==> a[j] == xs[j]
    {
      a := a[i := xs[i]];
      i := i + 1;
    }
  }

  /** `checkValidDAGSort`: true exactly when `actual` equals, element by element, some expected output. */
  method CheckValidDAGSort(expected: seq<seq<int>>, actual: seq<int>) returns (valid: bool)
    ensures valid <==> actual in expected
  {
    var i := 0;
    while i < |expected|
      invariant 0 <= i <= |expected|
      invariant actual !in expected[..i]
    {
      if expected[i] == actual {
        return true;
      }
      i := i + 1;
    }
    assert expected[..i] == expected;
    return false;
  }
}
