/** Repeated compaction ends: every step moves entries down or drops them. */
module Termination {
  import opened Keys
  import opened Entries
  import opened Versions
  import opened Lsm
  import opened Merging
  import opened Compaction
  import opened Picking
  import opened Install
  import E = Engine

  /** Entries held by a list of tables. */
  function Count(fs: seq<File>): nat {
    if fs == [] then 0 else |fs[0].entries| + Count(fs[1..])
  }

  lemma {:induction false} CountConcat(x: seq<File>, y: seq<File>)
    ensures Count(x + y) == Count(x) + Count(y)
  {
    if x == [] {
      assert x + y == y;
    } else {
      CountConcat(x[1..], y);
      assert (x + y)[1..] == x[1..] + y;
    }
  }

  lemma {:induction false} CountInsert(fs: seq<File>, f: File)
    requires FilesOk(fs) && FileOk(f)
    ensures Count(InsertFile(fs, f)) == Count(fs) + |f.entries|
  {
    if fs != [] && !Less(f.Smallest(), fs[0].Smallest()) { CountInsert(fs[1..], f); }
  }

  lemma {:induction false} CountSort(fs: seq<File>)
    requires FilesOk(fs)
    ensures Count(SortFiles(fs)) == Count(fs)
  {
    if fs != [] {
      var init, last := fs[..|fs| - 1], fs[|fs| - 1];
      CountSort(init);
      CountInsert(SortFiles(init), last);
      CountConcat(init, [last]);
      assert fs == init + [last];
    }
  }

  /** Removing one table by number from a list that holds it once. */
  lemma {:induction false} CountWithout(fs: seq<File>, f: File)
    requires UniqueNumbers(fs) && f in fs
    ensures Count(RemoveNumbers(fs, {f.number})) == Count(fs) - |f.entries|
    ensures UniqueNumbers(RemoveNumbers(fs, {f.number}))
  {
    if fs[0] == f {
      RemoveUnlisted(fs[1..], {f.number});
    } else {
      CountWithout(fs[1..], f);
      var rest := RemoveNumbers(fs[1..], {f.number});
      forall j | 0 <= j < |rest| ensures rest[j].number != fs[0].number {
        assert rest[j] in rest;
        var i :| 0 <= i < |fs[1..]| && fs[1..][i] == rest[j];
        assert fs[i + 1] == rest[j];
      }
      var i :| 0 <= i < |fs| && fs[i] == f;
    }
  }

  lemma {:induction false} RemoveUnlisted(fs: seq<File>, ns: set<nat>)
    requires forall f :: f in fs ==> f.number !in ns
    ensures RemoveNumbers(fs, ns) == fs
  {
    if fs != [] { RemoveUnlisted(fs[1..], ns); }
  }

  lemma {:induction false} RemoveTwice(fs: seq<File>, x: set<nat>, y: set<nat>)
    ensures RemoveNumbers(RemoveNumbers(fs, x), y) == RemoveNumbers(fs, x + y)
  {
    if fs != [] { RemoveTwice(fs[1..], x, y); }
  }

  lemma {:induction false} NumbersCons(b: seq<File>)
    requires b != []
    ensures Numbers(b) == {b[0].number} + Numbers(b[1..])
  {
    assert b == [b[0]] + b[1..];
  }

  lemma {:induction false} RestSurvives(fs: seq<File>, b: seq<File>)
    requires b != [] && UniqueNumbers(b) && forall f :: f in b ==> f in fs
    ensures UniqueNumbers(b[1..]) && forall f :: f in b[1..] ==> f in RemoveNumbers(fs, {b[0].number})
  {
    forall f | f in b[1..] ensures f in RemoveNumbers(fs, {b[0].number}) {
      var i :| 0 <= i < |b[1..]| && b[1..][i] == f;
      assert b[i + 1] == f;
    }
  }

  lemma {:induction false} CountRemoved(fs: seq<File>, b: seq<File>)
    requires UniqueNumbers(fs) && UniqueNumbers(b) && forall f :: f in b ==> f in fs
    ensures Count(RemoveNumbers(fs, Numbers(b))) == Count(fs) - Count(b)
    decreases |b|
  {
    hide UniqueNumbers, Numbers;
    if b == [] {
      RemoveUnlisted(fs, Numbers(b));
    } else {
      RestSurvives(fs, b);
      CountWithout(fs, b[0]);
      CountRemoved(RemoveNumbers(fs, {b[0].number}), b[1..]);
      RemoveTwice(fs, {b[0].number}, Numbers(b[1..]));
      NumbersCons(b);
    }
  }

  lemma {:induction false} MergeLength(rests: seq<seq<Entry>>)
    ensures |Merge(rests)| == Total(rests)
    decreases Total(rests)
  {
    if Exhausted(rests) {
      ExhaustedTotal(rests);
    } else {
      TotalAfterPop(rests, Smallest(rests));
      MergeLength(Pop(rests, Smallest(rests)));
    }
  }

  lemma {:induction false} ExhaustedTotal(rests: seq<seq<Entry>>)
    requires Exhausted(rests)
    ensures Total(rests) == 0
  {
    if rests != [] { ExhaustedTotal(rests[1..]); }
  }

  lemma {:induction false} TotalOfInputs(fs: seq<File>)
    ensures Total(InputTables(fs, [])) == Count(fs)
  {
    if fs != [] {
      TotalOfInputs(fs[1..]);
      assert InputTables(fs, [])[1..] == InputTables(fs[1..], []);
    }
  }

  lemma {:induction false} KeptIsNoLonger(m: seq<Entry>, f: nat, bottom: bool, n: nat)
    requires n <= |m|
    ensures |KeptRange(m, f, bottom, 0, n)| <= n
  {
    if n > 0 { KeptIsNoLonger(m, f, bottom, n - 1); }
  }

  lemma {:induction false} FlattenLength(fs: seq<File>)
    ensures |Flatten(fs)| == Count(fs)
  {
    if fs != [] {
      var init, last := fs[..|fs| - 1], fs[|fs| - 1];
      FlattenLength(init);
      CountConcat(init, [last]);
      assert fs == init + [last];
    }
  }

  /** A compaction never writes more entries than it read. */
  lemma {:induction false} OutputsAreNoMore(
    s: Store, a: seq<File>, b: seq<File>, floor: nat, bottom: bool, outs: seq<File>)
    requires Outputs(a, b, floor, bottom, outs)
    ensures Count(outs) <= Count(a) + Count(b)
  {
    var m := Merge(InputTables(a, b));
    MergeLength(InputTables(a, b));
    assert InputTables(a, b) == InputTables(a + b, []);
    TotalOfInputs(a + b);
    CountConcat(a, b);
    KeptIsNoLonger(m, floor, bottom, |m|);
    FlattenLength(outs);
  }

  /** Each entry weighs the number of levels still below it. */
  function WeightFrom(levels: seq<seq<File>>): nat {
    if levels == [] then 0 else (|levels| - 1) * Count(levels[0]) + WeightFrom(levels[1..])
  }

  function Weight(v: Version): nat {
    |v.levels| * Count(v.l0) + WeightFrom(v.levels)
  }

  lemma {:induction false} WeightUpdate(levels: seq<seq<File>>, i: nat, level: seq<File>)
    requires i < |levels|
    ensures WeightFrom(levels[i := level])
            == WeightFrom(levels) + (|levels| - 1 - i) * Count(level) - (|levels| - 1 - i) * Count(levels[i])
  {
    if i == 0 {
      assert levels[i := level][1..] == levels[1..];
    } else {
      WeightUpdate(levels[1..], i - 1, level);
      assert levels[i := level][1..] == levels[1..][i - 1 := level];
    }
  }

  lemma {:induction false} NonEmptyCount(fs: seq<File>)
    requires FilesOk(fs) && fs != []
    ensures Count(fs) > 0
  {
  }

  /** Moving `ca` entries one level down lowers the weight, whatever `b` shrinks to. */
  lemma {:induction false} MovedDown(h: nat, ca: nat, cb: nat, co: nat, was: nat, target: nat, was': nat, target': nat)
    requires co <= ca + cb && ca > 0 && was' == was - ca && target' == target - cb + co
    ensures (h + 1) * was' + h * target' < (h + 1) * was + h * target
  {
    assert (h + 1) * was' == (h + 1) * was - (h + 1) * ca;
    assert h * target' == h * target + h * (co - cb);
    assert h * (co - cb) <= h * ca;
  }

  lemma {:induction false} TargetCount(v: Version, source: nat, a: seq<File>, b: seq<File>, outs: seq<File>)
    requires JobOk(v, source, a, b) && LevelOk(outs)
    ensures FilesOk(v.levels[source]) && FilesOk(outs)
    ensures Count(b) <= Count(v.levels[source])
    ensures Count(InstallOutputs(v, source, a, b, outs).levels[source])
              == Count(v.levels[source]) - Count(b) + Count(outs)
  {
    hide Hull, Sorted, RangeBefore, L0Ok;
    LevelFiles(outs);
    JobFacts(v, source, a, b);
    InstalledLevels(v, source, a, b, outs);
    CountRemoved(v.levels[source], b);
    CountSort(RemoveNumbers(v.levels[source], Numbers(b)) + outs);
    CountConcat(RemoveNumbers(v.levels[source], Numbers(b)), outs);
  }

  lemma {:induction false} SourceCount(v: Version, source: nat, a: seq<File>, b: seq<File>, outs: seq<File>)
    requires JobOk(v, source, a, b) && LevelOk(outs)
    ensures FilesOk(v.levels[source]) && FilesOk(outs) && 0 < Count(a) <= Count(E.Run(v, source))
    ensures |InstallOutputs(v, source, a, b, outs).levels| == LEVELS == |v.levels|
    ensures Count(E.Run(InstallOutputs(v, source, a, b, outs), source)) == Count(E.Run(v, source)) - Count(a)
  {
    hide Hull, Sorted, RangeBefore, InstallOutputs;
    LevelFiles(outs);
    JobFacts(v, source, a, b);
    NonEmptyCount(a);
    InstalledLevels(v, source, a, b, outs);
    if source == 0 { RemoveAll(v.l0); } else { CountRemoved(v.levels[source - 1], a); }
  }

  /** The weight in terms of the two levels a compaction touches. */
  lemma {:induction false} WeightAfter(v: Version, v': Version, source: nat)
    requires |v.levels| == |v'.levels| == LEVELS && source < LEVELS
    requires source > 0 ==> v'.l0 == v.l0
    requires forall i :: 0 <= i < LEVELS && i != source && i + 1 != source ==> v'.levels[i] == v.levels[i]
    ensures var h := LEVELS - 1 - source;
            Weight(v') == Weight(v)
                          - ((h + 1) * Count(E.Run(v, source)) + h * Count(v.levels[source]))
                          + ((h + 1) * Count(E.Run(v', source)) + h * Count(v'.levels[source]))
  {
    if source == 0 {
      assert v'.levels == v.levels[0 := v'.levels[0]];
      WeightUpdate(v.levels, 0, v'.levels[0]);
    } else {
      var mid := v.levels[source - 1 := v'.levels[source - 1]];
      assert v'.levels == mid[source := v'.levels[source]];
      WeightUpdate(v.levels, source - 1, v'.levels[source - 1]);
      WeightUpdate(mid, source, v'.levels[source]);
    }
  }

  /** Installing a compaction strictly lowers the weight of the version. */
  lemma {:induction false} InstallLowersWeight(
    s: Store, source: nat, a: seq<File>, b: seq<File>, floor: nat, outs: seq<File>)
    requires JobOk(s.version, source, a, b) && Outputs(a, b, floor, source + 1 == LEVELS, outs)
    ensures FilesOk(s.version.levels[source]) && FilesOk(outs)
    ensures Weight(InstallOutputs(s.version, source, a, b, outs)) < Weight(s.version)
  {
    hide JobOk, LevelOk, FilesOk, InstallOutputs, Weight;
    var v := s.version;
    JobFacts(v, source, a, b);
    TargetCount(v, source, a, b, outs);
    SourceCount(v, source, a, b, outs);
    OutputsAreNoMore(s, a, b, floor, source + 1 == LEVELS, outs);
    InstalledLevels(v, source, a, b, outs);
    WeightAfter(v, InstallOutputs(v, source, a, b, outs), source);
    var v' := InstallOutputs(v, source, a, b, outs);
    MovedDown(
      LEVELS - 1 - source, Count(a), Count(b), Count(outs), Count(E.Run(v, source)), Count(v.levels[source]),
      Count(E.Run(v', source)), Count(v'.levels[source]));
  }

  /** Table numbers handed out so far are all below `next`. */
  ghost predicate NumberedBelow(v: Version, next: nat) {
    forall i, f :: 0 <= i < |v.levels| && f in v.levels[i] ==> f.number < next
  }

  /** One background step: pick, capture the floor, merge, install. */
  method CompactOnce(
    s: Store, ghost w: View, o: Options, next: nat, maxSize: nat, estimate: seq<Entry> -> nat,
    diskSize: seq<Entry> -> nat)
    returns (s': Store, next': nat)
    requires Inv(s, w) && !s.installed && o.l0Trigger >= 1 && Needed(s.version, o) && NumberedBelow(s.version, next)
    ensures Inv(s', w) && !s'.installed && NumberedBelow(s'.version, next')
    ensures Weight(s'.version) < Weight(s.version)
    ensures s'.mem == s.mem && s'.imm == s.imm && s'.nextSeq == s.nextSeq && s'.snapshots == s.snapshots
  {
    hide Recency, Bounded, Represents, L0Ok, LevelOk, Sorted, AllSorted, NoTies, SafeFloor, Weight, Merge, KeptRange;
    var source, a, b := PickCompaction(s.version, o);
    JobFacts(s.version, source, a, b);
    InputsHaveNoTies(s, source, a, b);
    var floor := E.Lowest(s.snapshots);
    E.LowestIsSafe(s, a, b);
    var outs;
    outs, next' := MergeInputs(InputTables(a, b), floor, source + 1 == LEVELS, maxSize, next, estimate, diskSize);
    assert Outputs(a, b, floor, source + 1 == LEVELS, outs);
    FreshFromNext(s.version, outs, next, next');
    InstallKeepsInv(s, w, source, a, b, floor, outs);
    InstallLowersWeight(s, source, a, b, floor, outs);
    InstallNumbers(s.version, source, a, b, outs, next, next');
    s' := Installed(s, source, a, b, outs);
  }

  lemma {:induction false} FreshFromNext(v: Version, outs: seq<File>, next: nat, next': nat)
    requires NumberedBelow(v, next) && forall i :: 0 <= i < |outs| ==> next <= outs[i].number < next'
    ensures FreshNumbers(v, outs)
  {
  }

  lemma {:induction false} InstallNumbers(
    v: Version, source: nat, a: seq<File>, b: seq<File>, outs: seq<File>, next: nat, next': nat)
    requires source < |v.levels| && FilesOk(v.levels[source]) && FilesOk(outs) && NumberedBelow(v, next)
               && next <= next'
    requires forall i :: 0 <= i < |outs| ==> next <= outs[i].number < next'
    ensures NumberedBelow(InstallOutputs(v, source, a, b, outs), next')
  {
    hide FilesOk, InstallOutputs;
    InstalledLevels(v, source, a, b, outs);
    var v' := InstallOutputs(v, source, a, b, outs);
    forall i, f | 0 <= i < |v'.levels| && f in v'.levels[i] ensures f.number < next' {
      assert f in v.levels[i] || f in outs by {
        assert i != source && i + 1 != source ==> v'.levels[i] == v.levels[i];
      }
    }
  }

  /**
   * The background loop without new flushes: it reaches a version that needs no compaction, and no
   * live read point can tell the difference.
   */
  method CompactAll(
    s: Store, ghost w: View, o: Options, next: nat, maxSize: nat, estimate: seq<Entry> -> nat,
    diskSize: seq<Entry> -> nat)
    returns (s': Store, next': nat)
    requires Inv(s, w) && !s.installed && o.l0Trigger >= 1 && NumberedBelow(s.version, next)
    ensures Inv(s', w) && !Needed(s'.version, o)
    ensures s'.mem == s.mem && s'.imm == s.imm && s'.nextSeq == s.nextSeq && s'.snapshots == s.snapshots
  {
    hide Recency, Bounded, Represents, L0Ok, LevelOk, Sorted, Weight, Needed, NumberedBelow;
    s', next' := s, next;
    var needed := CompactionNeeded(s'.version, o, false);
    while needed
      invariant Inv(s', w) && !s'.installed && NumberedBelow(s'.version, next')
      invariant s'.mem == s.mem && s'.imm == s.imm && s'.nextSeq == s.nextSeq && s'.snapshots == s.snapshots
      invariant needed == Needed(s'.version, o)
      decreases Weight(s'.version)
    {
      s', next' := CompactOnce(s', w, o, next', maxSize, estimate, diskSize);
      needed := CompactionNeeded(s'.version, o, false);
    }
  }
}
