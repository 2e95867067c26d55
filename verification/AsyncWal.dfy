/** The asynchronous log: explicit-offset writes that may complete in any order. */
module AsyncWal {
  import opened Bytes
  import opened Wal

  /** One submitted write: where, and which bytes. */
  datatype Submission = Submission(off: nat, bytes: Bytes)

  /** `pwrite`: a gap before the offset reads as zeros. */
  function WriteAt(f: Bytes, w: Submission): (g: Bytes)
    ensures |g| == if w.off + |w.bytes| > |f| then w.off + |w.bytes| else |f|
    ensures g[w.off..w.off + |w.bytes|] == w.bytes
    ensures forall i :: 0 <= i < |f| && !(w.off <= i < w.off + |w.bytes|) ==> g[i] == f[i]
  {
    var padded := if w.off > |f| then f + Zeros(w.off - |f|) else f;
    var end := w.off + |w.bytes|;
    padded[..w.off] + w.bytes + (if end < |f| then f[end..] else [])
  }

  /** The submissions of `WriteEntry` for successive payloads, from end offset `off` on. */
  function Submissions(payloads: seq<Bytes>, off: nat): seq<Submission> {
    if payloads == [] then []
    else
      var e := Encode(payloads[0], off, true);
      [Submission(off, e)] + Submissions(payloads[1..], off + |e|)
  }

  /** The file once the submissions completed in the given order. */
  function Completed(f: Bytes, order: seq<Submission>): Bytes {
    if order == [] then f else WriteAt(Completed(f, order[..|order| - 1]), order[|order| - 1])
  }

  predicate Covers(w: Submission, i: nat) {
    w.off <= i < w.off + |w.bytes|
  }

  /** The submission writes what the target file holds there. */
  predicate Fits(w: Submission, target: Bytes) {
    At(target, w.off, w.bytes)
  }

  lemma {:induction false} WriteFits(f: Bytes, w: Submission, target: Bytes, i: nat)
    requires Fits(w, target) && Covers(w, i)
    ensures i < |WriteAt(f, w)| && WriteAt(f, w)[i] == target[i]
  {
    assert WriteAt(f, w)[i] == WriteAt(f, w)[w.off..w.off + |w.bytes|][i - w.off];
    assert target[i] == target[w.off..w.off + |w.bytes|][i - w.off];
  }

  /** Whatever has been written stays right, in any order. */
  lemma {:induction false} CompletedAgrees(f: Bytes, order: seq<Submission>, target: Bytes)
    requires |f| <= |target| && f == target[..|f|] && forall w :: w in order ==> Fits(w, target)
    ensures |f| <= |Completed(f, order)| <= |target|
    ensures forall i :: 0 <= i < |f| ==> Completed(f, order)[i] == target[i]
    ensures forall w, i: nat :: w in order && Covers(w, i)
                           ==> i < |Completed(f, order)| && Completed(f, order)[i] == target[i]
  {
    if order != [] {
      var init, last := order[..|order| - 1], order[|order| - 1];
      assert order == init + [last];
      CompletedAgrees(f, init, target);
      var g, h := Completed(f, init), Completed(f, order);
      assert Fits(last, target);
      forall i | 0 <= i < |g| && g[i] == target[i] ensures h[i] == target[i] {
        if Covers(last, i) { WriteFits(g, last, target, i); }
      }
      forall w, i: nat | w in order && Covers(w, i) ensures i < |h| && h[i] == target[i] {
        if w in init {
          assert g[i] == target[i];
        } else {
          WriteFits(g, last, target, i);
        }
      }
    }
  }

  lemma {:induction false} SubmissionsFit(pre: Bytes, payloads: seq<Bytes>, post: Bytes, w: Submission)
    requires w in Submissions(payloads, |pre|)
    ensures Fits(w, pre + EncodeAll(payloads, |pre|) + post)
    decreases |payloads|
  {
    hide Encode;
    var e := Encode(payloads[0], |pre|, true);
    var rest := EncodeAll(payloads[1..], |pre| + |e|);
    assert pre + (e + rest) + post == (pre + e) + rest + post;
    if w == Submission(|pre|, e) {
      assert (pre + e + rest + post)[|pre|..|pre| + |e|] == e;
    } else {
      SubmissionsFit(pre + e, payloads[1..], post, w);
    }
  }

  lemma {:induction false} SubmissionsCover(payloads: seq<Bytes>, off: nat, i: nat)
    requires off <= i < off + |EncodeAll(payloads, off)|
    ensures exists w :: w in Submissions(payloads, off) && Covers(w, i)
    decreases |payloads|
  {
    hide Encode;
    var e := Encode(payloads[0], off, true);
    if i < off + |e| {
      assert Covers(Submissions(payloads, off)[0], i);
    } else {
      SubmissionsCover(payloads[1..], off + |e|, i);
      var w :| w in Submissions(payloads[1..], off + |e|) && Covers(w, i);
      assert w in Submissions(payloads, off);
    }
  }

  /**
   * For every completion order, the file ends up as if each record had been appended in turn: the
   * asynchronous log equals the synchronous one.
   */
  lemma {:induction false} AnyOrderIsAppend(f: Bytes, payloads: seq<Bytes>, order: seq<Submission>)
    requires multiset(order) == multiset(Submissions(payloads, |f|))
    ensures Completed(f, order) == f + EncodeAll(payloads, |f|)
  {
    hide Encode, EncodeAll, Completed;
    var target := f + EncodeAll(payloads, |f|);
    forall w | w in order ensures Fits(w, target) {
      assert w in multiset(order);
      SubmissionsFit(f, payloads, [], w);
      assert target + [] == target;
    }
    CompletedAgrees(f, order, target);
    var g := Completed(f, order);
    forall i: nat | |f| <= i < |target| ensures i < |g| && g[i] == target[i] {
      SubmissionsCover(payloads, |f|, i);
      var w :| w in Submissions(payloads, |f|) && Covers(w, i);
      assert w in multiset(order);
    }
    assert |target| > |f| ==> (var i: nat := |target| - 1; i < |g| && g[i] == target[i]);
  }

  /** Before all complete, what has completed is already in place; a reader of the file sees no stale byte there. */
  lemma {:induction false} PartialCompletionIsInPlace(
    f: Bytes, payloads: seq<Bytes>, order: seq<Submission>, w: Submission, i: nat)
    requires multiset(order) <= multiset(Submissions(payloads, |f|)) && w in order && Covers(w, i)
    ensures i < |Completed(f, order)|
    ensures i < |f + EncodeAll(payloads, |f|)| && Completed(f, order)[i] == (f + EncodeAll(payloads, |f|))[i]
  {
    hide Encode, EncodeAll, Completed;
    var target := f + EncodeAll(payloads, |f|);
    forall x | x in order ensures Fits(x, target) {
      assert x in multiset(order);
      SubmissionsFit(f, payloads, [], x);
      assert target + [] == target;
    }
    CompletedAgrees(f, order, target);
  }
}
