/** `DB::RunCompaction`'s merge loop: retention by the snapshot floor, output split at key boundaries. */
module Compaction {
  import opened Keys
  import opened Entries
  import opened Versions
  import opened Retention
  import opened Merging

  /** The loop's decision for entry `i` of the merged stream. */
  predicate KeepsAt(m: seq<Entry>, f: nat, bottom: bool, i: nat)
    requires i < |m|
  {
    || m[i].seqno > f
    || ((forall j :: 0 <= j < i && m[j].key == m[i].key ==> m[j].seqno > f)
        && !(bottom && m[i].slot.Tombstone?))
  }

  /** The entries kept out of `m[lo..hi]`. */
  function KeptRange(m: seq<Entry>, f: nat, bottom: bool, lo: nat, hi: nat): (r: seq<Entry>)
    requires lo <= hi <= |m|
    decreases hi - lo
  {
    if lo == hi then []
    else KeptRange(m, f, bottom, lo, hi - 1) + (if KeepsAt(m, f, bottom, hi - 1) then [m[hi - 1]] else [])
  }

  lemma {:induction false} KeptRangeMembers(m: seq<Entry>, f: nat, bottom: bool, lo: nat, hi: nat)
    requires lo <= hi <= |m|
    ensures forall e :: e in KeptRange(m, f, bottom, lo, hi)
                        <==> exists i :: lo <= i < hi && m[i] == e && KeepsAt(m, f, bottom, i)
    decreases hi - lo
  {
    if lo < hi { KeptRangeMembers(m, f, bottom, lo, hi - 1); }
  }

  lemma {:induction false} KeptRangeSorted(m: seq<Entry>, f: nat, bottom: bool, lo: nat, hi: nat)
    requires lo <= hi <= |m| && Sorted(m)
    ensures Sorted(KeptRange(m, f, bottom, lo, hi))
    decreases hi - lo
  {
    if lo < hi {
      KeptRangeSorted(m, f, bottom, lo, hi - 1);
      KeptRangeMembers(m, f, bottom, lo, hi - 1);
      var init := KeptRange(m, f, bottom, lo, hi - 1);
      forall j | 0 <= j < |init| ensures Before(init[j], m[hi - 1]) {
        assert init[j] in init;
      }
    }
  }

  lemma {:induction false} KeptRangeSplit(m: seq<Entry>, f: nat, bottom: bool, lo: nat, mid: nat, hi: nat)
    requires lo <= mid <= hi <= |m|
    ensures KeptRange(m, f, bottom, lo, hi) == KeptRange(m, f, bottom, lo, mid) + KeptRange(m, f, bottom, mid, hi)
    decreases hi
  {
    if mid < hi { KeptRangeSplit(m, f, bottom, lo, mid, hi - 1); }
  }

  /** In a sorted stream the loop's test is: newest version at or below the floor. */
  lemma {:induction false} KeepsAtIsKept(m: seq<Entry>, f: nat, bottom: bool, i: nat)
    requires Sorted(m) && i < |m|
    ensures KeepsAt(m, f, bottom, i) <==> Kept(Elems(m), f, bottom, m[i])
  {
    if m[i].seqno <= f {
      forall j | 0 <= j < |m| && m[j].key == m[i].key
        ensures j < i ==> m[j].seqno > m[i].seqno
        ensures j > i ==> m[j].seqno < m[i].seqno
      {
        LessIrreflexive(m[i].key);
      }
      if forall j :: 0 <= j < i && m[j].key == m[i].key ==> m[j].seqno > f {
        assert IsTop(Elems(m), m[i].key, f, m[i]);
      }
    }
  }

  /** What the loop writes is exactly the retained set. */
  lemma {:induction false} LoopKeepsRetained(m: seq<Entry>, f: nat, bottom: bool)
    requires Sorted(m)
    ensures Elems(KeptRange(m, f, bottom, 0, |m|)) == Retained(Elems(m), f, bottom)
  {
    KeptRangeMembers(m, f, bottom, 0, |m|);
    forall e ensures e in KeptRange(m, f, bottom, 0, |m|) <==> Kept(Elems(m), f, bottom, e) {
      if e in m {
        var i :| 0 <= i < |m| && m[i] == e;
        KeepsAtIsKept(m, f, bottom, i);
      }
      if e in KeptRange(m, f, bottom, 0, |m|) {
        var i :| 0 <= i < |m| && m[i] == e && KeepsAt(m, f, bottom, i);
        KeepsAtIsKept(m, f, bottom, i);
      }
    }
  }

  /** The entries of a list of tables, in file order. */
  function Flatten(fs: seq<File>): seq<Entry> {
    if fs == [] then [] else Flatten(fs[..|fs| - 1]) + fs[|fs| - 1].entries
  }

  lemma {:induction false} FlattenElems(fs: seq<File>)
    ensures Elems(Flatten(fs)) == FileElems(fs)
  {
    if fs != [] {
      var init, last := fs[..|fs| - 1], fs[|fs| - 1];
      FlattenElems(init);
      assert fs == init + [last];
      forall e ensures e in Flatten(fs) <==> e in FileElems(fs) {
        if e in FileElems(fs) {
          var g :| g in fs && e in g.entries;
          assert g in init || g == last;
        }
        if e in last.entries { assert last in fs; }
      }
    }
  }

  /** Every table written so far ends before the keys from position `i` on. */
  ghost predicate EndsBefore(outs: seq<File>, m: seq<Entry>, i: nat)
    requires FilesOk(outs)
  {
    forall x, j :: 0 <= x < |outs| && i <= j < |m| ==> Less(outs[x].Largest(), m[j].key)
  }

  /** Position `i` of the stream starts a new user key, or ends the stream. */
  predicate KeyBoundary(m: seq<Entry>, i: nat) {
    i < |m| ==> i > 0 && m[i - 1].key != m[i].key
  }

  /** Sealing the builder keeps the outputs a leveled run that ends before the next key. */
  lemma {:induction false} SealKeepsRun(outs: seq<File>, g: File, m: seq<Entry>, cut: nat, i: nat)
    requires LevelOk(outs) && FileOk(g) && Sorted(m) && cut <= i <= |m|
    requires EndsBefore(outs, m, cut) && KeyBoundary(m, i)
    requires forall e :: e in g.entries ==> exists j :: cut <= j < i && m[j] == e
    requires forall x :: 0 <= x < |outs| ==> outs[x].number < g.number
    ensures LevelOk(outs + [g]) && EndsBefore(outs + [g], m, i)
  {
    var os := outs + [g];
    assert g.entries[0] in g.entries;
    assert g.entries[|g.entries| - 1] in g.entries;
    var first :| cut <= first < i && m[first] == g.entries[0];
    var last :| cut <= last < i && m[last] == g.entries[|g.entries| - 1];
    forall x, y | 0 <= x < y < |os| ensures RangeBefore(os[x], os[y]) {
      if y == |outs| { assert Less(outs[x].Largest(), m[first].key); } else { assert RangeBefore(outs[x], outs[y]); }
    }
    forall j | i <= j < |m| ensures Less(g.Largest(), m[j].key) { KeysSplitAtBoundary(m, i, last, j); }
  }

  lemma {:induction false} KeysSplitAtBoundary(m: seq<Entry>, i: nat, a: nat, b: nat)
    requires Sorted(m) && KeyBoundary(m, i) && a < i <= b < |m|
    ensures Less(m[a].key, m[b].key)
  {
    LessIsStrictTotalOrder();
    assert Before(m[i - 1], m[i]);
    assert a < i - 1 ==> Before(m[a], m[i - 1]);
    assert i < b ==> Before(m[i], m[b]);
  }

  /** `current_user`, `has_user` and `floor_version_seen` describe the stream before position `i`. */
  ghost predicate Tracks(m: seq<Entry>, f: nat, i: nat, hasUser: bool, user: Key, floorSeen: bool)
    requires i <= |m|
  {
    && hasUser == (i > 0)
    && (hasUser ==> user == m[i - 1].key)
    && (hasUser ==> (floorSeen <==> exists j :: 0 <= j < i && m[j].key == user && m[j].seqno <= f))
  }

  /** The tables and the builder together hold what the loop kept of `m[..i]`. */
  ghost predicate Wrote(
    m: seq<Entry>, f: nat, bottom: bool, cut: nat, i: nat, outs: seq<File>, builder: seq<Entry>, lo: nat, next: nat) {
    && cut <= i <= |m|
    && builder == KeptRange(m, f, bottom, cut, i)
    && Flatten(outs) == KeptRange(m, f, bottom, 0, cut)
    && LevelOk(outs) && EndsBefore(outs, m, cut)
    && lo <= next && forall x :: 0 <= x < |outs| ==> lo <= outs[x].number < next
  }

  /** No earlier key boundary in a table finds it full. */
  ghost predicate NotFullBefore(es: seq<Entry>, estimate: seq<Entry> -> nat, maxSize: nat) {
    forall n :: 0 < n < |es| && es[n - 1].key != es[n].key ==> estimate(es[..n]) < maxSize
  }

  /** A table ends at the first key boundary that finds it full, and the last one with the stream. */
  ghost predicate SplitWhenFull(outs: seq<File>, estimate: seq<Entry> -> nat, maxSize: nat) {
    && (forall i :: 0 <= i < |outs| ==> NotFullBefore(outs[i].entries, estimate, maxSize))
    && forall i :: 0 <= i < |outs| - 1 ==> estimate(outs[i].entries) >= maxSize
  }

  ghost predicate SizedBy(outs: seq<File>, diskSize: seq<Entry> -> nat) {
    forall i :: 0 <= i < |outs| ==> outs[i].size == diskSize(outs[i].entries)
  }

  /** The finished tables were full; the builder can be so only within the current key. */
  ghost predicate SplitSoFar(
    outs: seq<File>, builder: seq<Entry>, user: Key, estimate: seq<Entry> -> nat, diskSize: seq<Entry> -> nat,
    maxSize: nat) {
    && SplitWhenFull(outs, estimate, maxSize) && SizedBy(outs, diskSize)
    && (forall i :: 0 <= i < |outs| ==> estimate(outs[i].entries) >= maxSize)
    && NotFullBefore(builder, estimate, maxSize)
    && (builder != [] && builder[|builder| - 1].key != user ==> estimate(builder) < maxSize)
  }

  lemma {:induction false} NothingSplit(
    user: Key, estimate: seq<Entry> -> nat, diskSize: seq<Entry> -> nat, maxSize: nat)
    ensures SplitSoFar([], [], user, estimate, diskSize, maxSize)
  {
  }

  lemma {:induction false} SealsFull(
    outs: seq<File>, builder: seq<Entry>, user: Key, next: nat, estimate: seq<Entry> -> nat,
    diskSize: seq<Entry> -> nat, maxSize: nat)
    requires SplitSoFar(outs, builder, user, estimate, diskSize, maxSize) && estimate(builder) >= maxSize
    ensures SplitSoFar(outs + [File(next, builder, diskSize(builder))], [], user, estimate, diskSize, maxSize)
  {
    hide NotFullBefore;
    assert NotFullBefore([], estimate, maxSize) by { NothingSplit(user, estimate, diskSize, maxSize); }
  }

  lemma {:induction false} LastSeal(
    outs: seq<File>, builder: seq<Entry>, user: Key, next: nat, estimate: seq<Entry> -> nat,
    diskSize: seq<Entry> -> nat, maxSize: nat)
    requires SplitSoFar(outs, builder, user, estimate, diskSize, maxSize)
    ensures var all := outs + [File(next, builder, diskSize(builder))];
            SplitWhenFull(all, estimate, maxSize) && SizedBy(all, diskSize)
  {
    hide NotFullBefore;
  }

  lemma {:induction false} NoLastSeal(
    outs: seq<File>, user: Key, estimate: seq<Entry> -> nat, diskSize: seq<Entry> -> nat, maxSize: nat)
    requires SplitSoFar(outs, [], user, estimate, diskSize, maxSize)
    ensures SplitWhenFull(outs, estimate, maxSize) && SizedBy(outs, diskSize)
  {
    hide SplitWhenFull;
  }

  lemma {:induction false} GoesOnUnfull(
    outs: seq<File>, builder: seq<Entry>, user: Key, e: Entry, estimate: seq<Entry> -> nat,
    diskSize: seq<Entry> -> nat, maxSize: nat)
    requires SplitSoFar(outs, builder, user, estimate, diskSize, maxSize)
    requires e.key == user || builder == [] || estimate(builder) < maxSize
    ensures SplitSoFar(outs, builder, e.key, estimate, diskSize, maxSize)
    ensures SplitSoFar(outs, builder + [e], e.key, estimate, diskSize, maxSize)
  {
    hide SplitWhenFull;
    StillNotFull(builder, e, estimate, maxSize);
  }

  lemma {:induction false} StillNotFull(es: seq<Entry>, e: Entry, estimate: seq<Entry> -> nat, maxSize: nat)
    requires NotFullBefore(es, estimate, maxSize)
    requires es != [] && es[|es| - 1].key != e.key ==> estimate(es) < maxSize
    ensures NotFullBefore(es + [e], estimate, maxSize)
  {
    var all := es + [e];
    forall n | 0 < n < |all| && all[n - 1].key != all[n].key ensures estimate(all[..n]) < maxSize {
      if n < |es| { assert all[..n] == es[..n]; } else { assert all[..n] == es; }
    }
  }

  /**
   * Merges the inputs and writes the retained entries into new tables numbered from `next`.
   * `estimate` and `diskSize` stand for any block encoding: they only decide where tables end and
   * what size they report.
   */
  method MergeInputs(
    tables: seq<seq<Entry>>, floor: nat, bottom: bool, maxSize: nat, next: nat,
    estimate: seq<Entry> -> nat, diskSize: seq<Entry> -> nat)
    returns (outs: seq<File>, next': nat)
    requires AllSorted(tables) && NoTies(tables)
    ensures Flatten(outs) == KeptRange(Merge(tables), floor, bottom, 0, |Merge(tables)|)
    ensures LevelOk(outs) && SplitWhenFull(outs, estimate, maxSize) && SizedBy(outs, diskSize)
    ensures next <= next' && forall i :: 0 <= i < |outs| ==> next <= outs[i].number < next'
  {
    hide Sorted, LevelOk, AllSorted, NoTies, Merge, KeepsAt, KeptRange, EndsBefore, Flatten, IsSmallest, Exhausted,
      SplitSoFar, SplitWhenFull;
    ghost var m := Merge(tables);
    MergeIsStrict(tables);
    var iter := new MergingIterator(tables);
    iter.SeekToFirst();
    outs, next' := [], next;
    var builder: seq<Entry> := [];
    var currentUser: Key := [];
    var hasUser, floorSeen := false, false;
    ghost var i: nat, cut: nat := 0, 0;
    NothingWritten(m, floor, bottom, next);
    NothingSplit(currentUser, estimate, diskSize, maxSize);
    while iter.Valid()
      invariant fresh(iter) && iter.tables == tables
      invariant iter.StandsAt(m, i)
      invariant Tracks(m, floor, i, hasUser, currentUser, floorSeen)
      invariant Wrote(m, floor, bottom, cut, i, outs, builder, next, next')
      invariant SplitSoFar(outs, builder, currentUser, estimate, diskSize, maxSize)
      decreases |m| - i
    {
      var e := iter.Current();
      if hasUser && e.key != currentUser && builder != [] && estimate(builder) >= maxSize {
        SealsFull(outs, builder, currentUser, next', estimate, diskSize, maxSize);
        outs, builder, next' := Seal(outs, builder, diskSize, next', m, floor, bottom, cut, i, next);
        cut := i;
      }
      GoesOnUnfull(outs, builder, currentUser, e, estimate, diskSize, maxSize);
      var keep: bool;
      hasUser, currentUser, floorSeen, keep := Decide(e, floor, bottom, hasUser, currentUser, floorSeen, m, i);
      ExtendWritten(m, floor, bottom, cut, i, outs, builder, next, next');
      if keep {
        builder := builder + [e];
      }
      iter.Next(m, i);
      i := i + 1;
    }
    if builder != [] {
      LastSeal(outs, builder, currentUser, next', estimate, diskSize, maxSize);
      outs, builder, next' := Seal(outs, builder, diskSize, next', m, floor, bottom, cut, i, next);
    } else {
      NoLastSeal(outs, currentUser, estimate, diskSize, maxSize);
      KeptRangeSplit(m, floor, bottom, 0, cut, i);
    }
  }

  lemma {:induction false} NothingWritten(m: seq<Entry>, f: nat, bottom: bool, next: nat)
    ensures Wrote(m, f, bottom, 0, 0, [], [], next, next)
  {
  }

  lemma {:induction false} ExtendWritten(
    m: seq<Entry>, f: nat, bottom: bool, cut: nat, i: nat, outs: seq<File>, builder: seq<Entry>, lo: nat, next: nat)
    requires i < |m| && Wrote(m, f, bottom, cut, i, outs, builder, lo, next)
    ensures var b := if KeepsAt(m, f, bottom, i) then builder + [m[i]] else builder;
            Wrote(m, f, bottom, cut, i + 1, outs, b, lo, next)
  {
  }

  /** Retention for one entry of the stream. */
  method Decide(
    e: Entry, floor: nat, bottom: bool, hasUser: bool, currentUser: Key, floorSeen: bool, ghost m: seq<Entry>,
    ghost i: nat)
    returns (hasUser': bool, currentUser': Key, floorSeen': bool, keep: bool)
    requires Sorted(m) && i < |m| && e == m[i]
    requires Tracks(m, floor, i, hasUser, currentUser, floorSeen)
    ensures Tracks(m, floor, i + 1, hasUser', currentUser', floorSeen')
    ensures keep == KeepsAt(m, floor, bottom, i)
  {
    hasUser', currentUser', floorSeen' := true, e.key, floorSeen;
    if !hasUser || e.key != currentUser {
      NewKeyUnseen(m, i);
      floorSeen' := false;
    }
    assert floorSeen' <==> exists j :: 0 <= j < i && m[j].key == e.key && m[j].seqno <= floor;
    if e.seqno > floor {
      keep := true;
    } else if !floorSeen' {
      floorSeen' := true;
      keep := !(e.slot.Tombstone? && bottom);
    } else {
      keep := false;
    }
  }

  lemma {:induction false} NewKeyUnseen(m: seq<Entry>, i: nat)
    requires Sorted(m) && i < |m| && (i > 0 ==> m[i].key != m[i - 1].key)
    ensures forall j :: 0 <= j < i ==> m[j].key != m[i].key
  {
    forall j | 0 <= j < i ensures m[j].key != m[i].key {
      KeysSplitAtBoundary(m, i, j, i);
      LessIrreflexive(m[i].key);
    }
  }

  /** Finishes the current output table. */
  method Seal(
    outs: seq<File>, builder: seq<Entry>, diskSize: seq<Entry> -> nat, next: nat,
    ghost m: seq<Entry>, ghost floor: nat, ghost bottom: bool, ghost cut: nat, ghost i: nat, ghost lo: nat)
    returns (outs': seq<File>, builder': seq<Entry>, next': nat)
    requires Sorted(m) && builder != [] && Wrote(m, floor, bottom, cut, i, outs, builder, lo, next)
    requires KeyBoundary(m, i)
    ensures outs' == outs + [File(next, builder, diskSize(builder))] && builder' == [] && next' == next + 1
    ensures Wrote(m, floor, bottom, i, i, outs', builder', lo, next')
  {
    var g := File(next, builder, diskSize(builder));
    KeptRangeSorted(m, floor, bottom, cut, i);
    KeptRangeMembers(m, floor, bottom, cut, i);
    KeptRangeSplit(m, floor, bottom, 0, cut, i);
    SealKeepsRun(outs, g, m, cut, i);
    outs', builder', next' := outs + [g], [], next + 1;
    assert outs'[..|outs|] == outs;
  }
}
