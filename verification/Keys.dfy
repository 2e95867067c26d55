/** User keys and their order: byte-wise lexicographic, a proper prefix first. */
module Keys {
  import opened Bytes

  type Key = Bytes

  predicate Less(a: Key, b: Key) {
    b != [] && (a == [] || a[0] < b[0] || (a[0] == b[0] && Less(a[1..], b[1..])))
  }

  /** `a` is less than `b` exactly where the first difference has the lower byte in `a`, or `a` ends there. */
  lemma {:induction false} LessIff(a: Key, b: Key)
    ensures Less(a, b) <==>
              exists n :: 0 <= n <= |a| && n <= |b| && a[..n] == b[..n]
                          && if n == |a| then n < |b| else n < |b| && a[n] < b[n]
  {
    if Less(a, b) {
      var n := FirstDifference(a, b);
      assert a[..n] == b[..n];
    }
    if exists n :: 0 <= n <= |a| && n < |b| && a[..n] == b[..n] && (n == |a| || a[n] < b[n]) {
      var n :| 0 <= n <= |a| && n < |b| && a[..n] == b[..n] && (n == |a| || a[n] < b[n]);
      DifferenceDecides(a, b, n);
    }
  }

  lemma {:induction false} FirstDifference(a: Key, b: Key) returns (n: nat)
    requires Less(a, b)
    ensures n <= |a| && n < |b| && (forall i :: 0 <= i < n ==> a[i] == b[i]) && (n < |a| ==> a[n] < b[n])
  {
    if a == [] || a[0] < b[0] {
      n := 0;
    } else {
      var m := FirstDifference(a[1..], b[1..]);
      n := m + 1;
    }
  }

  lemma {:induction false} DifferenceDecides(a: Key, b: Key, n: nat)
    requires n <= |a| && n < |b| && a[..n] == b[..n] && (n < |a| ==> a[n] < b[n])
    ensures Less(a, b)
  {
    if n > 0 {
      assert a[0] == a[..n][0] == b[..n][0] == b[0];
      assert a[1..][..n - 1] == a[..n][1..] && b[1..][..n - 1] == b[..n][1..];
      DifferenceDecides(a[1..], b[1..], n - 1);
    }
  }

  predicate AtMost(a: Key, b: Key) {
    !Less(b, a)
  }

  lemma {:induction false} LessIrreflexive(a: Key)
    ensures !Less(a, a)
  {
    if a != [] { LessIrreflexive(a[1..]); }
  }

  lemma {:induction false} LessTransitive(a: Key, b: Key, c: Key)
    requires Less(a, b) && Less(b, c)
    ensures Less(a, c)
  {
    if a != [] && a[0] == b[0] == c[0] { LessTransitive(a[1..], b[1..], c[1..]); }
  }

  lemma {:induction false} LessTotal(a: Key, b: Key)
    ensures Less(a, b) || a == b || Less(b, a)
  {
    if a != [] && b != [] && a[0] == b[0] {
      LessTotal(a[1..], b[1..]);
      assert a == [a[0]] + a[1..] && b == [b[0]] + b[1..];
    }
  }

  /** `Less` is a strict total order, in the form the other modules use it. */
  lemma {:induction false} LessIsStrictTotalOrder()
    ensures forall a: Key {:trigger Less(a, a)} :: !Less(a, a)
    ensures forall a: Key, b: Key, c: Key {:trigger Less(a, b), Less(b, c)} :: Less(a, b) && Less(b, c) ==> Less(a, c)
    ensures forall a: Key, b: Key {:trigger Less(a, b)} {:trigger Less(b, a)} :: Less(a, b) || a == b || Less(b, a)
  {
    forall a: Key ensures !Less(a, a) { LessIrreflexive(a); }
    forall a: Key, b: Key, c: Key | Less(a, b) && Less(b, c) ensures Less(a, c) { LessTransitive(a, b, c); }
    forall a: Key, b: Key ensures Less(a, b) || a == b || Less(b, a) { LessTotal(a, b); }
  }
}
