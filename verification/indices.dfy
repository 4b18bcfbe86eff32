/** The index range [0, n) of a piece table, as a set. */
module Indices {

  function RangeSet(n: nat): (r: set<int>)
    ensures forall i :: i in r <==> 0 <= i < n
  {
    if n == 0 then {} else RangeSet(n - 1) + {n - 1}
  }

  /** [0, n) has n elements. */
  lemma {:induction false} RangeSetSize(n: nat)
    ensures |RangeSet(n)| == n
  {
    if n > 0 {
      RangeSetSize(n - 1);
      var prev := RangeSet(n - 1);
      assert RangeSet(n) == prev + {n - 1};
      assert n - 1 !in prev;
    }
  }

  /** A subset of [0, n) with n elements is all of [0, n). */
  lemma FullSubsetOfRange(s: set<int>, n: nat)
    requires s <= RangeSet(n)
    ensures |s| == n <==> s == RangeSet(n)
  {
    RangeSetSize(n);
    if |s| == n {
      var missing := RangeSet(n) - s;
      assert |missing| == |RangeSet(n)| - |s| == 0;
      assert missing == {};
    }
  }
}
