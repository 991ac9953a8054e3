/** Sets of consecutive positions and how many there are. */
module Spans {

  /** The n positions from `lo` on. */
  ghost function Span(lo: int, n: nat): (s: set<int>)
    ensures forall k :: k in s <==> lo <= k < lo + n
  {
    if n == 0 then {} else Span(lo, n - 1) + {lo + n - 1}
  }

  lemma {:induction false} SpanSize(lo: int, n: nat)
    ensures |Span(lo, n)| == n
  {
    if n > 0 {
      SpanSize(lo, n - 1);
    }
  }

  lemma SubsetSize(a: set<int>, b: set<int>)
    requires a <= b
    ensures |a| <= |b|
    ensures |a| == |b| <==> a == b
  {
    assert b == a + (b - a);
    assert |b| == |a| + |b - a|;
  }
}
