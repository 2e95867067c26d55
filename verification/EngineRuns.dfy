/** Theorems over whole runs of the engine. */
module EngineRuns {
  import opened Seqs
  import opened Bytes
  import opened Keys
  import opened Entries
  import opened Versions
  import opened Lsm
  import opened Retention
  import opened Picking
  import opened Install
  import opened Recovery
  import opened Engine
  import opened EngineSteps

  /** The action may happen; a crash is survivable where the logs cover the unflushed records. */
  ghost predicate Allowed(e: Engine, a: Action) {
    Enabled(e, a) && (a.CrashAndOpen? ==> Covered(e))
  }

  ghost predicate Legal(run: seq<Action>)
    decreases |run|, 0
  {
    run != [] ==> Legal(Init(run)) && Allowed(After(Init(run)), Last(run))
  }

  /** The engine after a run from a fresh directory. */
  ghost function After(run: seq<Action>): Engine
    requires Legal(run)
    decreases |run|, 1
  {
    if run == [] then INIT else Apply(After(Init(run)), Last(run))
  }

  ghost function ViewAfter(run: seq<Action>): View {
    if run == [] then NO_VIEW else ViewApply(ViewAfter(Init(run)), Last(run))
  }

  lemma {:induction false} StepKeepsInv(e: Engine, w: View, a: Action)
    requires EngineInv(e, w) && Allowed(e, a)
    ensures EngineInv(Apply(e, a), ViewApply(w, a))
  {
    hide EngineInv, Covered, Enabled;
    match a
    case Write(k, slot) => WriteStep(e, w, k, slot);
    case Rotate => RotateStep(e, w);
    case FlushInstall(size) => FlushInstallStep(e, w, size);
    case FlushDone => FlushDoneStep(e, w);
    case Pick(source, a, b) => PickStep(e, w, source, a, b);
    case CaptureFloor => CaptureFloorStep(e, w);
    case Install(outs, next) => InstallStep(e, w, outs, next);
    case Publish => PublishStep(e, w);
    case TakeSnapshot => TakeSnapshotStep(e, w);
    case ReleaseSnapshot(i) => ReleaseSnapshotStep(e, w, i);
    case CrashAndOpen(s, f) => CrashStep(e, w, s, f);
  }

  lemma {:induction false} RunKeepsInv(run: seq<Action>)
    requires Legal(run)
    ensures EngineInv(After(run), ViewAfter(run))
  {
    if run == [] {
      InitInv();
    } else {
      hide EngineInv;
      RunKeepsInv(Init(run));
      StepKeepsInv(After(Init(run)), ViewAfter(Init(run)), Last(run));
    }
  }

  // ---- what the view means --------------------------------------------------------------------------

  /** The newest write to `k` in the run. */
  function LastWrite(run: seq<Action>, k: Key): Option<Slot> {
    if run == [] then None
    else if Last(run).Write? && Last(run).key == k then Some(Last(run).slot)
    else LastWrite(Init(run), k)
  }

  /** Deleted and never written are both not found. */
  function Latest(run: seq<Action>, k: Key): Option<Bytes> {
    var o := LastWrite(run, k);
    if o.None? then None else Answer(o.value)
  }

  ghost predicate WritesTo(a: Action, k: Key) {
    a.Write? && a.key == k
  }

  /** The newest value of a key is what its last write in the run put; there is none after a deletion or without one. */
  lemma {:induction false} LatestIff(run: seq<Action>, k: Key, v: Bytes)
    ensures Latest(run, k) == Some(v) <==>
              exists i :: 0 <= i < |run| && WritesTo(run[i], k) && run[i].slot == Put(v)
                          && forall j :: i < j < |run| ==> !WritesTo(run[j], k)
  {
    if run != [] {
      var init := Init(run);
      LatestIff(init, k, v);
      assert forall j :: 0 <= j < |init| ==> init[j] == run[j];
      assert run[|run| - 1] == Last(run);
    }
  }

  lemma {:induction false} ViewIsLatest(run: seq<Action>, k: Key)
    ensures Find(ViewAfter(run).now, k) == Latest(run, k)
  {
    if run != [] { ViewIsLatest(Init(run), k); }
  }

  /** Where in the run live snapshot `i` was taken. */
  function TakenAt(run: seq<Action>, i: nat): (t: nat)
    ensures t <= |run|
  {
    if run == [] then 0
    else
      match Last(run)
      case TakeSnapshot => if i < LiveSnapshots(Init(run)) then TakenAt(Init(run), i) else |run| - 1
      case ReleaseSnapshot(j) => TakenAt(Init(run), if i < j || j >= LiveSnapshots(Init(run)) then i else i + 1)
      case _ => TakenAt(Init(run), i)
  }

  function LiveSnapshots(run: seq<Action>): nat {
    if run == [] then 0
    else
      var n := LiveSnapshots(Init(run));
      match Last(run)
      case TakeSnapshot => n + 1
      case ReleaseSnapshot(j) => if j < n then n - 1 else n
      case CrashAndOpen(_, _) => 0
      case _ => n
  }

  /** A frozen view is the view at the moment its snapshot was taken. */
  lemma {:induction false} FrozenIsPast(run: seq<Action>, i: nat)
    requires i < LiveSnapshots(run)
    ensures TakenAt(run, i) < |run| && run[TakenAt(run, i)].TakeSnapshot?
    ensures |ViewAfter(run).frozen| == LiveSnapshots(run)
    ensures ViewAfter(run).frozen[i] == ViewAfter(run[..TakenAt(run, i)]).now
  {
    var init := Init(run);
    FrozenCount(init);
    FrozenCount(run);
    match Last(run)
    case TakeSnapshot =>
      if i < LiveSnapshots(init) {
        FrozenIsPast(init, i);
        assert run[..TakenAt(run, i)] == init[..TakenAt(run, i)];
      }
    case ReleaseSnapshot(j) =>
      var p := if i < j || j >= LiveSnapshots(init) then i else i + 1;
      FrozenIsPast(init, p);
      assert run[..TakenAt(run, i)] == init[..TakenAt(run, i)];
    case _ =>
      FrozenIsPast(init, i);
      assert run[..TakenAt(run, i)] == init[..TakenAt(run, i)];
  }

  lemma {:induction false} FrozenCount(run: seq<Action>)
    ensures |ViewAfter(run).frozen| == LiveSnapshots(run)
  {
    if run != [] { FrozenCount(Init(run)); }
  }

  /**
   * In every run of writes, rotations, flushes, compactions, snapshots and crashes, a latest read
   * returns the newest write of the run, and a read at a live snapshot returns the newest write
   * that preceded the snapshot.
   */
  lemma {:induction false} ReadsAreNewestWrites(run: seq<Action>, k: Key)
    requires Legal(run)
    ensures Readable(After(run).store) && |After(run).store.snapshots| == LiveSnapshots(run)
    ensures Get(After(run).store, k, MAX_SEQ) == Latest(run, k)
    ensures forall i :: 0 <= i < LiveSnapshots(run) ==>
              Get(After(run).store, k, After(run).store.snapshots[i]) == Latest(run[..TakenAt(run, i)], k)
  {
    hide Recency, JobInv, NumbersInv, DiskInv, Sorted, Bounded, ReadsAs;
    RunKeepsInv(run);
    var e, w := After(run), ViewAfter(run);
    GetAnswersSpec(e.store, w, k);
    ViewIsLatest(run, k);
    FrozenCount(run);
    forall i | 0 <= i < LiveSnapshots(run)
      ensures TakenAt(run, i) < |run| && Get(e.store, k, e.store.snapshots[i]) == Latest(run[..TakenAt(run, i)], k)
    {
      FrozenIsPast(run, i);
      ViewIsLatest(run[..TakenAt(run, i)], k);
    }
  }

  /** In every reachable state L1..L6 are leveled runs and L0 is in strict recency order. */
  lemma {:induction false} LevelShapeIsInvariant(run: seq<Action>)
    requires Legal(run)
    ensures VersionOk(After(run).store.version) && UniqueAcross(After(run).store.version)
    ensures Recency(Groups(After(run).store))
  {
    hide Bounded, Represents, JobInv, DiskInv, UniqueAcross, Recency, L0Ok, LevelOk;
    RunKeepsInv(run);
  }

  // ---- what is always possible ----------------------------------------------------------------------

  lemma {:induction false} OneStepMore(run: seq<Action>, a: Action)
    requires Legal(run) && Allowed(After(run), a)
    ensures Legal(run + [a]) && After(run + [a]) == Apply(After(run), a)
  {
    hide Allowed;
    assert Init(run + [a]) == run;
  }

  /**
   * In every run the next step is open: a publication and a snapshot always, a write while sequence
   * numbers last, a rotation when something is to be flushed and no flush is pending, and the flush
   * that is pending as soon as no compaction runs.
   */
  lemma {:induction false} StepsStayOpen(run: seq<Action>, k: Key, slot: Slot, size: nat)
    requires Legal(run)
    ensures Legal(run + [Publish]) && Legal(run + [TakeSnapshot])
    ensures var e := After(run);
            && (e.store.nextSeq < SEQ_LIMIT ==> Legal(run + [Write(k, slot)]))
            && (e.store.imm.None? && e.store.mem != [] ==> Legal(run + [Rotate]))
            && (e.store.imm.Some? && !e.store.installed && e.job.NoJob? ==> Legal(run + [FlushInstall(size)]))
            && (e.store.installed ==> Legal(run + [FlushDone]))
            && (e.job.Picked? ==> Legal(run + [CaptureFloor]))
            && forall i: nat :: i < |e.store.snapshots| ==> Legal(run + [ReleaseSnapshot(i)])
  {
    hide Legal, After, Apply, Allowed, EngineInv;
    var e := After(run);
    RunKeepsInv(run);
    StateAllows(e, ViewAfter(run), k, slot, size);
    OneStepMore(run, Publish);
    OneStepMore(run, TakeSnapshot);
    if e.store.nextSeq < SEQ_LIMIT { OneStepMore(run, Write(k, slot)); }
    if e.store.imm.None? && e.store.mem != [] { OneStepMore(run, Rotate); }
    if e.store.imm.Some? && !e.store.installed && e.job.NoJob? { OneStepMore(run, FlushInstall(size)); }
    if e.store.installed { OneStepMore(run, FlushDone); }
    if e.job.Picked? { OneStepMore(run, CaptureFloor); }
    forall i: nat | i < |e.store.snapshots| ensures Legal(run + [ReleaseSnapshot(i)]) {
      OneStepMore(run, ReleaseSnapshot(i));
    }
  }

  lemma {:induction false} StateAllows(e: Engine, w: View, k: Key, slot: Slot, size: nat)
    requires EngineInv(e, w)
    ensures Allowed(e, Publish) && Allowed(e, TakeSnapshot)
    ensures e.store.nextSeq < SEQ_LIMIT ==> Allowed(e, Write(k, slot))
    ensures e.store.imm.None? && e.store.mem != [] ==> Allowed(e, Rotate)
    ensures e.store.imm.Some? && !e.store.installed && e.job.NoJob? ==> Allowed(e, FlushInstall(size))
    ensures e.store.installed ==> Allowed(e, FlushDone)
    ensures e.job.Picked? ==> Allowed(e, CaptureFloor)
    ensures forall i: nat :: i < |e.store.snapshots| ==> Allowed(e, ReleaseSnapshot(i))
  {
    hide Represents, Recency, JobInv, NumbersInv, DiskInv, VersionOk, Sorted;
  }

  // ---- what a compaction leaves ---------------------------------------------------------------------

  lemma {:induction false} PrefixIsLegal(run: seq<Action>, t: nat)
    requires Legal(run) && t <= |run|
    ensures Legal(run[..t])
  {
    if t == |run| {
      assert run[..t] == run;
    } else {
      assert Init(run)[..t] == run[..t];
      PrefixIsLegal(Init(run), t);
    }
  }

  /** Without another capture, a merge that goes on is the one that was captured. */
  lemma {:induction false} SameMerge(run: seq<Action>, i: nat)
    requires Legal(run) && i < |run| && forall j :: i < j < |run| ==> !run[j].CaptureFloor?
    ensures Legal(run[..i + 1]) && (After(run).job.Merging? ==> After(run).job == After(run[..i + 1]).job)
  {
    hide Enabled;
    PrefixIsLegal(run, i + 1);
    if i + 1 == |run| {
      assert run[..i + 1] == run;
    } else {
      var init := Init(run);
      assert init[..i + 1] == run[..i + 1];
      assert forall j :: i < j < |init| ==> init[j] == run[j];
      SameMerge(init, i);
      OnlyCaptureMerges(After(init), Last(run));
    }
  }

  lemma {:induction false} OnlyCaptureMerges(e: Engine, a: Action)
    requires Enabled(e, a) && !a.CaptureFloor?
    ensures Apply(e, a).job.Merging? ==> Apply(e, a).job == e.job
  {
    hide Enabled;
  }

  ghost predicate AtOrBelowAll(x: Entry, points: seq<nat>) {
    forall i :: 0 <= i < |points| ==> x.seqno <= points[i]
  }

  /** No newer version of its key among `s` is at or below every read point. */
  ghost predicate NewestBelowAll(x: Entry, s: set<Entry>, points: seq<nat>) {
    AtOrBelowAll(x, points) && forall y :: y in s && y.key == x.key && AtOrBelowAll(y, points) ==> y.seqno <= x.seqno
  }

  /**
   * What a compaction leaves of its inputs, in terms of the read points that were live when it
   * captured its floor: every version some of them does not see, and of the versions all of them see
   * the newest of each key, unless that is a tombstone that reaches the bottom level.
   */
  lemma {:induction false} InstallLeaves(run: seq<Action>, i: nat)
    requires Legal(run) && i < |run| && run[i].CaptureFloor? && forall j :: i < j < |run| - 1 ==> !run[j].CaptureFloor?
    requires Last(run).Install?
    ensures Legal(run[..i]) && After(run[..i]).job.Picked?
    ensures var at := After(run[..i]);
            && Leaves(FileElems(at.job.a) + FileElems(at.job.b), at.store.snapshots, at.job.source + 1 == LEVELS,
                      FileElems(Last(run).outs))
            && Distinct(FileElems(at.job.a) + FileElems(at.job.b))
  {
    hide EngineInv, Leaves, FileElems, Outputs, FreshOutputs, Legal, After, FilesOk;
    CapturedJob(run, i);
    RunKeepsInv(Init(run));
    InstallKeeps(After(Init(run)), ViewAfter(Init(run)), After(run[..i]).store.snapshots, Last(run).outs);
  }

  /** The job that is installed is the one picked, with the floor captured at step `i`. */
  lemma {:induction false} CapturedJob(run: seq<Action>, i: nat)
    requires Legal(run) && i < |run| && run[i].CaptureFloor? && forall j :: i < j < |run| - 1 ==> !run[j].CaptureFloor?
    requires Last(run).Install?
    ensures Legal(run[..i]) && After(run[..i]).job.Picked? && Legal(Init(run)) && Enabled(After(Init(run)), Last(run))
    ensures var at := After(run[..i]);
            After(Init(run)).job == Merging(at.job.source, at.job.a, at.job.b, Lowest(at.store.snapshots))
  {
    hide Lowest, Outputs, FreshOutputs, FilesOk;
    var init := Init(run);
    assert run[i] == init[i];
    SameMerge(init, i);
    PrefixIsLegal(run, i);
    assert init[..i + 1] == run[..i + 1] && Init(run[..i + 1]) == run[..i] && Last(run[..i + 1]) == run[i];
  }

  ghost predicate Leaves(s: set<Entry>, points: seq<nat>, bottom: bool, t: set<Entry>) {
    forall x :: x in t <==>
      x in s && (!AtOrBelowAll(x, points) || (NewestBelowAll(x, s, points) && !(bottom && x.slot.Tombstone?)))
  }

  lemma {:induction false} InstallKeeps(e: Engine, w: View, points: seq<nat>, outs: seq<File>)
    requires EngineInv(e, w) && e.job.Merging? && e.job.floor == Lowest(points)
    requires Outputs(e.job.a, e.job.b, e.job.floor, e.job.source + 1 == LEVELS, outs)
    ensures Leaves(FileElems(e.job.a) + FileElems(e.job.b), points, e.job.source + 1 == LEVELS, FileElems(outs))
    ensures Distinct(FileElems(e.job.a) + FileElems(e.job.b))
  {
    hide NumbersInv, DiskInv, Represents, Recency, Outputs, Leaves, FileElems, SafeFloor;
    var j := e.job;
    OutputElems(e.store, j.source, j.a, j.b, j.floor, j.source + 1 == LEVELS, outs);
    var s := FileElems(j.a) + FileElems(j.b);
    forall x | x in s ensures x in All(e.store) && x.seqno <= MAX_SEQ {
      InputIsBounded(e.store, j.source, j.a, j.b, x);
    }
    AllIsDistinct(e.store);
    RetainedLeaves(s, points, j.source + 1 == LEVELS);
  }

  lemma {:induction false} InputIsBounded(s: Store, source: nat, a: seq<File>, b: seq<File>, x: Entry)
    requires Shape(s) && Bounded(s) && JobOk(s.version, source, a, b) && x in FileElems(a) + FileElems(b)
    ensures x in All(s) && x.seqno <= MAX_SEQ
  {
    hide FileElems, Recency;
    SourceElems(s, source, a, b);
    var g := Groups(s);
    assert x in g[source + 2] || x in g[source + 3];
    assert x in All(s);
  }

  /** Being at or below the lowest read point is being at or below all of them. */
  lemma {:induction false} RetainedLeaves(s: set<Entry>, points: seq<nat>, bottom: bool)
    requires forall x :: x in s ==> x.seqno <= MAX_SEQ
    ensures Leaves(s, points, bottom, Retained(s, Lowest(points), bottom))
  {
    hide Lowest;
    var f := Lowest(points);
    forall x | x in s ensures x.seqno <= f <==> AtOrBelowAll(x, points) {
      if points != [] {
        var i :| 0 <= i < |points| && points[i] == f;
      }
    }
    forall x | x in s && x.seqno <= f ensures IsTop(s, x.key, f, x) <==> NewestBelowAll(x, s, points) {
    }
  }

  /** No more than one version of a key stays at or below every read point. */
  lemma {:induction false} InstallLeavesOneVersion(run: seq<Action>, i: nat, x: Entry, y: Entry)
    requires Legal(run) && i < |run| && run[i].CaptureFloor? && forall j :: i < j < |run| - 1 ==> !run[j].CaptureFloor?
    requires Last(run).Install? && x in FileElems(Last(run).outs) && y in FileElems(Last(run).outs)
    ensures Legal(run[..i])
    ensures var points := After(run[..i]).store.snapshots;
            x.key == y.key && AtOrBelowAll(x, points) && AtOrBelowAll(y, points) ==> x == y
  {
    hide EngineInv, FileElems, Enabled;
    InstallLeaves(run, i);
  }

  // ---- crash recovery -------------------------------------------------------------------------------

  /** Every publication outside a flush finds the older replayed logs empty. */
  ghost predicate SafePublications(run: seq<Action>)
    requires Legal(run)
  {
    run != [] ==>
      && SafePublications(Init(run))
      && (Last(run).Install? || Last(run).Publish? ==> OlderLogsEmpty(After(Init(run))))
  }

  lemma {:induction false} InstallKeepsUnflushed(s: Store, source: nat, a: seq<File>, b: seq<File>, outs: seq<File>)
    requires source < |s.version.levels| && FilesOk(s.version.levels[source]) && FilesOk(outs)
    ensures Unflushed(Installed(s, source, a, b, outs)) == Unflushed(s)
  {
  }

  lemma {:induction false} StepKeepsCoverage(e: Engine, w: View, a: Action)
    requires EngineInv(e, w) && Allowed(e, a) && Covered(e)
    ensures Covered(Apply(e, a)) <==> (a.Install? || a.Publish? ==> OlderLogsEmpty(e))
  {
    hide Inv, JobInv, NumbersInv, DiskInv, Covered, OlderLogsEmpty, FilesOk, Outputs, FreshOutputs;
    match a
    case Write(k, slot) => WriteStep(e, w, k, slot);
    case Rotate => RotateStep(e, w);
    case FlushInstall(size) => FlushInstallStep(e, w, size);
    case FlushDone => FlushDoneStep(e, w);
    case Pick(source, a, b) => PickStep(e, w, source, a, b);
    case CaptureFloor => CaptureFloorStep(e, w);
    case Install(outs, next) =>
      var s' := Installed(e.store, e.job.source, e.job.a, e.job.b, outs);
      InstallKeepsUnflushed(e.store, e.job.source, e.job.a, e.job.b, outs);
      PublicationIsSafeIff(e, e.(store := s', job := NoJob, nextFile := next));
    case Publish => PublicationIsSafeIff(e, e);
    case TakeSnapshot => TakeSnapshotStep(e, w);
    case ReleaseSnapshot(i) => ReleaseSnapshotStep(e, w, i);
    case CrashAndOpen(s, f) => CrashStep(e, w, s, f);
  }

  /** With safe publications a crash is survivable after every step; flushes are always safe. */
  lemma {:induction false} SafeRunsAreCovered(run: seq<Action>)
    requires Legal(run) && SafePublications(run)
    ensures Covered(After(run))
  {
    if run == [] {
      InitInv();
    } else {
      hide EngineInv, Covered, OlderLogsEmpty, Enabled;
      SafeRunsAreCovered(Init(run));
      RunKeepsInv(Init(run));
      StepKeepsCoverage(After(Init(run)), ViewAfter(Init(run)), Last(run));
    }
  }

  /** Some number is one past the highest sequence number. */
  lemma {:induction false} NextSeqExists(all: set<Entry>) returns (n: nat)
    ensures IsNextSeq(all, n)
    decreases |all|
  {
    if all == {} {
      n := 1;
    } else {
      var e :| e in all;
      var rest := all - {e};
      var m := NextSeqExists(rest);
      if e.seqno >= m {
        n := e.seqno + 1;
      } else {
        n := m;
        if m > 1 {
          var x :| x in rest && x.seqno == m - 1;
          assert x in all;
        }
      }
    }
  }

  /** Reopening after a crash anywhere in such a run restores every write of the run. */
  lemma {:induction false} RecoveryRestoresView(run: seq<Action>, nextSeq: nat, k: Key)
    requires Legal(run) && SafePublications(run)
    ensures Readable(Recovered(After(run), nextSeq))
              && Get(Recovered(After(run), nextSeq), k, MAX_SEQ) == Latest(run, k)
  {
    hide NumbersInv, JobInv, LogElems, IsNextSeq, Recency, ReadsAs, Sorted;
    RunKeepsInv(run);
    SafeRunsAreCovered(run);
    var e, w := After(run), ViewAfter(run);
    ReplayRestores(e, w);
    var n := NextSeqExists(All(e.store));
    var mem := Replay([], e.logs, e.manifest.floor, e.logNumber);
    assert Recovered(e, n) == Reopened(e.store, mem, n);
    ReopenGroups(e.store, mem, n);
    ReopenKeepsInv(e.store, w, mem, n);
    GetAnswersSpec(Recovered(e, n), View(w.now, []), k);
    ViewIsLatest(run, k);
  }
}
