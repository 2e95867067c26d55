/** Sizes of finite sets. */
module Sets {
  lemma {:induction false} SmallerSet<T>(x: set<T>, y: set<T>)
    requires x < y
    ensures |x| < |y|
  {
    var d := y - x;
    assert y == x + d && d != {};
  }

  lemma {:induction false} SubsetIsNoLarger<T>(x: set<T>, y: set<T>)
    requires x <= y
    ensures |x| <= |y|
  {
    if x != y { SmallerSet(x, y); }
  }
}
