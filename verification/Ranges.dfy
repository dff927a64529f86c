/** Finite sets of integers: Python's `range` and the sizes of sets. */
module Ranges {

  /** The values from `lo` to `hi`, both included. */
  function Between(lo: int, hi: int): (values: set<int>)
    ensures forall v :: v in values <==> lo <= v <= hi
    decreases hi - lo
  {
    if lo > hi then {} else {lo} + Between(lo + 1, hi)
  }

  lemma {:induction false} BetweenSize(lo: int, hi: int)
    requires lo <= hi + 1
    ensures |Between(lo, hi)| == hi + 1 - lo
    decreases hi - lo
  {
    if lo > hi {
    } else {
      BetweenSize(lo + 1, hi);
    }
  }

  lemma {:induction false} SubsetsAreSmaller<T>(a: set<T>, b: set<T>)
    requires a <= b
    ensures |a| <= |b|
    ensures |a| == |b| ==> a == b
    decreases |a|
  {
    if a == {} {
    } else {
      var v :| v in a;
      SubsetsAreSmaller(a - {v}, b - {v});
      assert a == (a - {v}) + {v} && b == (b - {v}) + {v};
    }
  }
}
