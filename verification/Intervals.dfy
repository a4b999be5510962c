/** Finite intervals of numbers, as sets. */
module Intervals {

  ghost function Interval(first: nat, count: nat): (s: set<nat>)
    ensures forall i: nat :: i in s <==> first <= i < first + count
    ensures |s| == count
  {
    if count == 0 then {} else Interval(first, count - 1) + {first + count - 1}
  }

  /** The numbers below `n`. */
  ghost function Range(n: nat): (s: set<nat>)
    ensures forall i: nat :: i in s <==> i < n
    ensures |s| == n
  {
    Interval(0, n)
  }

  lemma SubsetSize(a: set<nat>, b: set<nat>)
    requires a <= b
    ensures |a| <= |b|
    ensures |a| == |b| ==> a == b
  {
    assert b == a + (b - a);
  }
}
