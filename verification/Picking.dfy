/** When a compaction is due, which tables it takes, and the fixpoint that closes their key range. */
module Picking {
  import opened Keys
  import opened Versions
  import opened Sets

  datatype Options = Options(l0Trigger: nat, levelBaseSize: nat)

  function SizeOf(fs: seq<File>): nat {
    if fs == [] then 0 else fs[0].size + SizeOf(fs[1..])
  }

  function Limit(o: Options, i: nat): nat {
    if i == 0 then o.levelBaseSize else 10 * Limit(o, i - 1)
  }

  predicate OverLimit(v: Version, o: Options, i: nat)
    requires i < |v.levels|
  {
    SizeOf(v.levels[i]) > Limit(o, i)
  }

  /** L0 is full, or some level other than the last outgrew its limit. */
  predicate Needed(v: Version, o: Options) {
    |v.l0| >= o.l0Trigger || exists i :: 0 <= i < |v.levels| - 1 && OverLimit(v, o, i)
  }

  /** `DB::LevelSize`. */
  method LevelSize(level: seq<File>) returns (sum: nat)
    ensures sum == SizeOf(level)
  {
    sum := 0;
    for i := 0 to |level|
      invariant sum + SizeOf(level[i..]) == SizeOf(level)
    {
      sum := sum + level[i].size;
      assert level[i..][1..] == level[i + 1..];
    }
  }

  method LimitOf(o: Options, i: nat) returns (limit: nat)
    ensures limit == Limit(o, i)
  {
    limit := o.levelBaseSize;
    for k := 0 to i
      invariant limit == Limit(o, k)
    {
      limit := limit * 10;
    }
  }

  /** The first level over its limit, or the number of levels. */
  method FirstOverLimit(v: Version, o: Options) returns (n: nat)
    requires |v.levels| == LEVELS
    ensures n < LEVELS
    ensures n < LEVELS - 1 ==> OverLimit(v, o, n)
    ensures forall i :: 0 <= i < n && i < LEVELS - 1 ==> !OverLimit(v, o, i)
  {
    n := 0;
    while n + 1 < LEVELS
      invariant n < LEVELS
      invariant forall i :: 0 <= i < n ==> !OverLimit(v, o, i)
    {
      var limit := LimitOf(o, n);
      var size := LevelSize(v.levels[n]);
      if size > limit { return; }
      n := n + 1;
    }
  }

  /** `DB::CompactionNeeded`; after a compaction error it is switched off. */
  method CompactionNeeded(v: Version, o: Options, disabled: bool) returns (b: bool)
    requires |v.levels| == LEVELS
    ensures b == (!disabled && Needed(v, o))
  {
    if disabled { return false; }
    if |v.l0| >= o.l0Trigger { return true; }
    var n := FirstOverLimit(v, o);
    b := n < LEVELS - 1;
    if b { assert OverLimit(v, o, n); }
  }

  // ---- closing the key range ---------------------------------------------------------------------

  predicate Overlaps(f: File, lo: Key, hi: Key)
    requires FileOk(f)
  {
    AtMost(lo, f.Largest()) && AtMost(f.Smallest(), hi)
  }

  predicate Within(f: File, lo: Key, hi: Key)
    requires FileOk(f)
  {
    AtMost(lo, f.Smallest()) && AtMost(f.Largest(), hi)
  }

  /** A table overlaps a range exactly if some key lies in both ranges. */
  lemma {:induction false} OverlapsIff(f: File, lo: Key, hi: Key)
    requires FileOk(f) && AtMost(lo, hi)
    ensures Overlaps(f, lo, hi) <==>
              exists k :: !Less(k, f.Smallest()) && !Less(f.Largest(), k) && !Less(k, lo) && !Less(hi, k)
  {
    hide Less;
    LessIsStrictTotalOrder();
    FileRange(f, f.entries[|f.entries| - 1]);
    if Overlaps(f, lo, hi) {
      var k := Max(lo, f.Smallest());
      assert !Less(k, f.Smallest()) && !Less(f.Largest(), k) && !Less(k, lo) && !Less(hi, k);
    }
  }

  /** A table lies within a range exactly if all its keys do. */
  lemma {:induction false} WithinIff(f: File, lo: Key, hi: Key)
    requires FileOk(f)
    ensures Within(f, lo, hi) <==> forall e :: e in f.entries ==> !Less(e.key, lo) && !Less(hi, e.key)
  {
    hide Less;
    LessIsStrictTotalOrder();
    assert f.entries[0] in f.entries && f.entries[|f.entries| - 1] in f.entries;
    forall e | e in f.entries && Within(f, lo, hi) ensures !Less(e.key, lo) && !Less(hi, e.key) { FileRange(f, e); }
  }

  /** All inputs lie in [lo, hi] and no target table left behind touches that range. */
  ghost predicate Hull(target: seq<File>, a: seq<File>, b: seq<File>, lo: Key, hi: Key)
    requires FilesOk(target) && FilesOk(a) && FilesOk(b)
  {
    && (forall i :: 0 <= i < |a| ==> Within(a[i], lo, hi))
    && (forall i :: 0 <= i < |b| ==> Within(b[i], lo, hi))
    && forall i :: 0 <= i < |target| && target[i] !in b ==> !Overlaps(target[i], lo, hi)
  }

  /** A legal choice of inputs: `a` from level `source` (0 is L0), `b` from the next one. */
  ghost predicate JobOk(v: Version, source: nat, a: seq<File>, b: seq<File>) {
    && VersionOk(v) && source < LEVELS && a != []
    && (if source == 0 then a == v.l0 else v.levels[source - 1] != [] && a == [v.levels[source - 1][0]])
    && (forall f :: f in b ==> f in v.levels[source])
    && FilesOk(a) && LevelFilesOk(b)
    && exists lo, hi :: Hull(v.levels[source], a, b, lo, hi)
  }

  predicate LevelFilesOk(fs: seq<File>) {
    FilesOk(fs) && UniqueNumbers(fs)
  }

  function Min(a: Key, b: Key): Key {
    if Less(b, a) then b else a
  }

  function Max(a: Key, b: Key): Key {
    if Less(a, b) then b else a
  }

  lemma {:induction false} WidenKeepsWithin(f: File, g: File, lo: Key, hi: Key)
    requires FileOk(f) && FileOk(g)
    ensures Within(f, lo, hi) ==> Within(f, Min(lo, g.Smallest()), Max(hi, g.Largest()))
    ensures Within(g, Min(lo, g.Smallest()), Max(hi, g.Largest()))
  {
    LessIsStrictTotalOrder();
  }

  /** The hull of a non-empty list of tables. */
  method Range(a: seq<File>) returns (lo: Key, hi: Key)
    requires FilesOk(a) && a != []
    ensures forall i :: 0 <= i < |a| ==> Within(a[i], lo, hi)
    ensures (exists i :: 0 <= i < |a| && a[i].Smallest() == lo) && exists i :: 0 <= i < |a| && a[i].Largest() == hi
  {
    lo, hi := a[0].Smallest(), a[0].Largest();
    LessIrreflexive(lo);
    LessIrreflexive(hi);
    for n := 1 to |a|
      invariant forall i :: 0 <= i < n ==> Within(a[i], lo, hi)
      invariant (exists i :: 0 <= i < n && a[i].Smallest() == lo) && exists i :: 0 <= i < n && a[i].Largest() == hi
    {
      forall i | 0 <= i < n ensures Within(a[i], Min(lo, a[n].Smallest()), Max(hi, a[n].Largest())) {
        WidenKeepsWithin(a[i], a[n], lo, hi);
      }
      WidenKeepsWithin(a[n], a[n], lo, hi);
      lo, hi := Min(lo, a[n].Smallest()), Max(hi, a[n].Largest());
    }
  }

  /** Tables of `target` not yet picked, by number. */
  ghost function Unpicked(target: seq<File>, picked: set<nat>): set<nat> {
    (set f | f in target :: f.number) - picked
  }

  /** No table outside `picked` overlaps the range, among the first `n`. */
  predicate Settled(target: seq<File>, picked: set<nat>, lo: Key, hi: Key, n: nat)
    requires FilesOk(target) && n <= |target|
  {
    forall i :: 0 <= i < n && target[i].number !in picked ==> !Overlaps(target[i], lo, hi)
  }

  /** Tables of `target` that touch the range lie in it. */
  ghost predicate ClosedRange(target: seq<File>, lo: Key, hi: Key)
    requires FilesOk(target)
  {
    forall i :: 0 <= i < |target| && Overlaps(target[i], lo, hi) ==> Within(target[i], lo, hi)
  }

  /** Every closed range around [lo0, hi0] has room for [lo, hi] and the tables in `b`. */
  ghost predicate Least(target: seq<File>, b: seq<File>, lo0: Key, hi0: Key, lo: Key, hi: Key)
    requires FilesOk(target) && FilesOk(b)
  {
    forall l, h :: ClosedRange(target, l, h) && AtMost(l, lo0) && AtMost(hi0, h) ==>
      AtMost(l, lo) && AtMost(hi, h) && forall i :: 0 <= i < |b| ==> Within(b[i], l, h)
  }

  lemma {:induction false} StartsLeast(target: seq<File>, lo: Key, hi: Key)
    requires FilesOk(target)
    ensures Least(target, [], lo, hi, lo, hi)
  {
  }

  lemma {:induction false} StaysLeast(
    target: seq<File>, b: seq<File>, lo0: Key, hi0: Key, lo: Key, hi: Key, n: nat)
    requires FilesOk(target) && FilesOk(b) && Least(target, b, lo0, hi0, lo, hi)
    requires n < |target| && Overlaps(target[n], lo, hi)
    ensures var f := target[n];
            FilesOk(b + [f]) && Least(target, b + [f], lo0, hi0, Min(lo, f.Smallest()), Max(hi, f.Largest()))
  {
    var f := target[n];
    forall l, h | ClosedRange(target, l, h) && AtMost(l, lo0) && AtMost(hi0, h)
      ensures Within(f, l, h) && AtMost(l, Min(lo, f.Smallest())) && AtMost(Max(hi, f.Largest()), h)
    {
      LessIsStrictTotalOrder();
      assert Overlaps(f, l, h);
    }
  }

  /** One pass over the target level: picks what overlaps, widening the range with each table. */
  method Pass(
    target: seq<File>, a: seq<File>, b: seq<File>, picked: set<nat>, lo: Key, hi: Key, ghost lo0: Key, ghost hi0: Key)
    returns (b': seq<File>, picked': set<nat>, lo': Key, hi': Key, changed: bool)
    requires LevelFilesOk(target) && FilesOk(a) && FilesOk(b) && Picks(target, a, b, picked, lo, hi)
    requires Least(target, b, lo0, hi0, lo, hi)
    ensures FilesOk(b') && Picks(target, a, b', picked', lo', hi') && Least(target, b', lo0, hi0, lo', hi')
    ensures if changed then |Unpicked(target, picked')| < |Unpicked(target, picked)|
            else Settled(target, picked', lo', hi', |target|)
    ensures !changed ==> picked' == picked
  {
    hide Less, Picks, Least;
    b', picked', lo', hi', changed := b, picked, lo, hi, false;
    for n := 0 to |target|
      invariant FilesOk(b') && Picks(target, a, b', picked', lo', hi') && Least(target, b', lo0, hi0, lo', hi')
      invariant changed ==> Unpicked(target, picked') < Unpicked(target, picked)
      invariant !changed ==> picked' == picked && Settled(target, picked', lo', hi', n)
    {
      var f := target[n];
      if f.number !in picked' && Overlaps(f, lo', hi') {
        PickKeeps(target, a, b', picked', lo', hi', n);
        StaysLeast(target, b', lo0, hi0, lo', hi', n);
        assert f.number in Unpicked(target, picked');
        picked', b' := picked' + {f.number}, b' + [f];
        lo', hi' := Min(lo', f.Smallest()), Max(hi', f.Largest());
        changed := true;
      }
    }
    if changed { SmallerSet(Unpicked(target, picked'), Unpicked(target, picked)); }
  }

  /**
   * Passes over the target level until one adds nothing. Every other pass picks a table, so the
   * count of unpicked tables bounds the number of passes. The range comes out no wider than it must.
   */
  method CloseRange(target: seq<File>, a: seq<File>, lo0: Key, hi0: Key)
    returns (b: seq<File>, ghost lo: Key, ghost hi: Key)
    requires LevelFilesOk(target) && FilesOk(a)
    requires forall i :: 0 <= i < |a| ==> Within(a[i], lo0, hi0)
    ensures LevelFilesOk(b) && forall f :: f in b ==> f in target
    ensures Hull(target, a, b, lo, hi) && Least(target, b, lo0, hi0, lo, hi)
  {
    hide Least;
    var l, h := lo0, hi0;
    var picked: set<nat> := {};
    b := [];
    var changed := true;
    StartsLeast(target, l, h);
    while changed
      invariant FilesOk(b) && Picks(target, a, b, picked, l, h) && Least(target, b, lo0, hi0, l, h)
      invariant !changed ==> Settled(target, picked, l, h, |target|)
      decreases |Unpicked(target, picked)|, changed
    {
      b, picked, l, h, changed := Pass(target, a, b, picked, l, h, lo0, hi0);
    }
    lo, hi := l, h;
    forall i | 0 <= i < |target| && target[i] !in b ensures !Overlaps(target[i], l, h) {
      UnpickedIsLeft(target, a, b, picked, l, h, i);
    }
  }


  /** `picked` numbers exactly the tables in `b`, and all inputs lie in the range. */
  ghost predicate Picks(target: seq<File>, a: seq<File>, b: seq<File>, picked: set<nat>, lo: Key, hi: Key)
    requires LevelFilesOk(target) && FilesOk(a)
  {
    && LevelFilesOk(b)
    && (forall f :: f in b ==> f in target && f.number in picked)
    && (forall n :: n in picked ==> exists f :: f in b && f.number == n)
    && (forall i :: 0 <= i < |a| ==> Within(a[i], lo, hi))
    && forall i :: 0 <= i < |b| ==> Within(b[i], lo, hi)
  }

  lemma {:induction false} PickKeeps(
    target: seq<File>, a: seq<File>, b: seq<File>, picked: set<nat>, lo: Key, hi: Key, n: nat)
    requires LevelFilesOk(target) && FilesOk(a) && Picks(target, a, b, picked, lo, hi)
    requires n < |target| && target[n].number !in picked
    ensures var f := target[n];
            Picks(target, a, b + [f], picked + {f.number}, Min(lo, f.Smallest()), Max(hi, f.Largest()))
  {
    var f := target[n];
    var lo', hi' := Min(lo, f.Smallest()), Max(hi, f.Largest());
    forall i | 0 <= i < |a| ensures Within(a[i], lo', hi') { WidenKeepsWithin(a[i], f, lo, hi); }
    forall i | 0 <= i < |b| ensures Within(b[i], lo', hi') { WidenKeepsWithin(b[i], f, lo, hi); }
    WidenKeepsWithin(f, f, lo, hi);
    var b' := b + [f];
    forall i, j | 0 <= i < j < |b'| ensures b'[i].number != b'[j].number {
      assert b'[i] in b;
    }
    forall m | m in picked + {f.number} ensures exists g :: g in b' && g.number == m {
      if m == f.number {
        assert f in b';
      } else {
        var g :| g in b && g.number == m;
        assert g in b';
      }
    }
  }

  lemma {:induction false} UnpickedIsLeft(
    target: seq<File>, a: seq<File>, b: seq<File>, picked: set<nat>, lo: Key, hi: Key, i: nat)
    requires LevelFilesOk(target) && FilesOk(a) && Picks(target, a, b, picked, lo, hi)
    requires i < |target| && target[i] !in b
    ensures target[i].number !in picked
  {
    if target[i].number in picked {
      var g :| g in b && g.number == target[i].number;
      var j :| 0 <= j < |target| && target[j] == g;
    }
  }

  /** `DB::PickCompaction`. */
  method PickCompaction(v: Version, o: Options) returns (source: nat, a: seq<File>, b: seq<File>)
    requires VersionOk(v) && Needed(v, o) && o.l0Trigger >= 1
    ensures JobOk(v, source, a, b)
    ensures |v.l0| >= o.l0Trigger <==> source == 0
    ensures source > 0 ==> OverLimit(v, o, source - 1) && forall i :: 0 <= i < source - 1 ==> !OverLimit(v, o, i)
    ensures forall l, h :: ClosedRange(v.levels[source], l, h) && (forall i :: 0 <= i < |a| ==> Within(a[i], l, h)) ==>
              forall i :: 0 <= i < |b| ==> Within(b[i], l, h)
  {
    if |v.l0| >= o.l0Trigger {
      source, a := 0, v.l0;
    } else {
      var n := FirstOverLimit(v, o);
      source, a := n + 1, [v.levels[n][0]];
    }
    var lo, hi := Range(a);
    ghost var l, h;
    b, l, h := CloseRange(v.levels[source], a, lo, hi);
    assert Hull(v.levels[source], a, b, l, h);
  }
}
