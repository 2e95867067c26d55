/** Every action keeps the engine's invariant against the updated view. */
module EngineSteps {
  import opened Keys
  import opened Entries
  import opened Versions
  import opened Lsm
  import opened LsmSteps
  import opened Retention
  import opened Picking
  import opened Install
  import opened Recovery
  import opened Engine

  lemma {:induction false} InitStore(s: Store)
    requires s == INIT.store
    ensures VersionOk(s.version) && All(s) == {} && Recency(Groups(s))
  {
    assert forall i :: 0 <= i < LEVELS ==> s.version.levels[i] == [];
    var g := Groups(s);
    assert forall i :: 0 <= i < |g| ==> g[i] == {};
  }

  lemma {:induction false} NothingReads()
    ensures ReadsAs({}, MAX_SEQ, map[])
  {
  }

  lemma {:induction false} InitInv()
    ensures EngineInv(INIT, NO_VIEW) && Covered(INIT)
  {
    hide VersionOk, Recency, ReadsAs, Reads;
    InitStore(INIT.store);
    NothingReads();
    InitNumbers();
  }

  lemma {:induction false} InitNumbers()
    ensures NumbersInv(INIT)
  {
    assert forall f :: !InVersion(EMPTY, f) by {
      forall i | 0 <= i <= LEVELS ensures Run(EMPTY, i) == [] {
      }
    }
    assert UniqueAcross(EMPTY) by {
      forall i, f | 0 <= i <= LEVELS && f in Run(EMPTY, i) ensures InVersion(EMPTY, f) {
      }
    }
  }

  // ---- user steps -----------------------------------------------------------------------------------

  lemma {:induction false} WriteStep(e: Engine, w: View, k: Key, slot: Slot)
    requires EngineInv(e, w) && Enabled(e, Action.Write(k, slot))
    ensures EngineInv(Apply(e, Action.Write(k, slot)), ViewApply(w, Action.Write(k, slot)))
    ensures Covered(e) ==> Covered(Apply(e, Action.Write(k, slot)))
  {
    hide Inv, JobOk, SafeFloor, UniqueAcross, LogElems, LogsApart;
    WriteKeepsInv(e.store, w, k, slot);
    WriteMem(e.store, w, k, slot);
    AppendKeepsApart(e.logs, e.logNumber, k, e.store.nextSeq, slot);
    var e' := Apply(e, Action.Write(k, slot));
    var entry := Entry(k, e.store.nextSeq, slot);
    assert Elems(e'.logs[e.logNumber]) == Elems(e.logs[e.logNumber]) + {entry};
    assert JobInv(e'.store, e'.job) by { SafeFloorFrame(e.store, e'.store, e.job); }
    if Covered(e) { AppendedLogElems(e.logs, e.logNumber, entry, e.manifest.floor); }
  }

  lemma {:induction false} WriteMem(s: Store, w: View, k: Key, slot: Slot)
    requires Inv(s, w)
    ensures Elems(LsmSteps.Write(s, k, slot).mem) == Elems(s.mem) + {Entry(k, s.nextSeq, slot)}
  {
    hide Recency, L0Ok, LevelOk, Sorted, Represents;
    WriteGroups(s, k, slot);
    assert Groups(LsmSteps.Write(s, k, slot))[0] == Elems(LsmSteps.Write(s, k, slot).mem);
  }

  lemma {:induction false} AppendKeepsApart(logs: map<nat, seq<Entry>>, n: nat, k: Key, next: nat, slot: Slot)
    requires LogsApart(logs, next) && n in logs
    ensures LogsApart(logs[n := logs[n] + [Entry(k, next, slot)]], next + 1)
  {
  }

  lemma {:induction false} SafeFloorFrame(s: Store, s': Store, job: Job)
    requires JobInv(s, job) && s'.version == s.version && s'.snapshots == s.snapshots && s'.installed == s.installed
    ensures JobInv(s', job)
  {
  }

  lemma {:induction false} AppendedLogElems(logs: map<nat, seq<Entry>>, n: nat, entry: Entry, lo: nat)
    requires n in logs && lo <= n
    ensures LogElems(logs[n := logs[n] + [entry]], lo) == LogElems(logs, lo) + {entry}
  {
    var logs' := logs[n := logs[n] + [entry]];
    forall x ensures x in LogElems(logs', lo) <==> x in LogElems(logs, lo) + {entry} {
      if x in LogElems(logs, lo) {
        var m :| m in logs && m >= lo && x in logs[m];
        assert x in logs'[m];
      }
      if x == entry { assert x in logs'[n]; }
    }
  }

  lemma {:induction false} EmptyLogElems(logs: map<nat, seq<Entry>>, n: nat, lo: nat)
    requires n !in logs
    ensures LogElems(logs[n := []], lo) == LogElems(logs, lo)
  {
    var logs' := logs[n := []];
    forall x ensures x in LogElems(logs', lo) <==> x in LogElems(logs, lo) {
      if x in LogElems(logs, lo) {
        var m :| m in logs && m >= lo && x in logs[m];
        assert x in logs'[m];
      }
    }
  }

  lemma {:induction false} RotateStep(e: Engine, w: View)
    requires EngineInv(e, w) && Enabled(e, Action.Rotate)
    ensures EngineInv(Apply(e, Action.Rotate), w)
    ensures Covered(e) ==> Covered(Apply(e, Action.Rotate))
  {
    hide Inv, JobOk, SafeFloor, UniqueAcross, LogElems;
    RotateKeepsInv(e.store, w);
    EmptyLogElems(e.logs, e.nextFile, e.manifest.floor);
    JobIdleOrFrame(e, w);
    assert JobInv(LsmSteps.Rotate(e.store), e.job) by {
      SafeFloorFrame(e.store, LsmSteps.Rotate(e.store), e.job);
    }
    L0InVersion(e.store.version);
  }

  lemma {:induction false} JobIdleOrFrame(e: Engine, w: View)
    requires EngineInv(e, w) && e.store.imm.None?
    ensures !e.store.installed
  {
  }

  lemma {:induction false} L0InVersion(v: Version)
    ensures forall i :: 0 <= i < |v.l0| ==> InVersion(v, v.l0[i])
  {
    forall i | 0 <= i < |v.l0| ensures InVersion(v, v.l0[i]) { assert v.l0[i] in Run(v, 0); }
  }

  lemma {:induction false} TakeSnapshotStep(e: Engine, w: View)
    requires EngineInv(e, w)
    ensures EngineInv(Apply(e, Action.TakeSnapshot), ViewApply(w, Action.TakeSnapshot))
    ensures Covered(e) ==> Covered(Apply(e, Action.TakeSnapshot))
  {
    hide Shape, Represents, JobOk, UniqueAcross, LogElems;
    assert e.store.nextSeq >= 1 by { BoundedNext(e.store, w); }
    TakeSnapshotKeepsInv(e.store, w);
    if e.job.Merging? { NewSnapshotIsSafe(e.store, w, e.job.source, e.job.a, e.job.b, e.job.floor); }
  }

  lemma {:induction false} BoundedNext(s: Store, w: View)
    requires Inv(s, w)
    ensures s.nextSeq >= 1
  {
  }

  /** A snapshot taken while a compaction merges lies past all its inputs. */
  lemma {:induction false} NewSnapshotIsSafe(s: Store, w: View, source: nat, a: seq<File>, b: seq<File>, floor: nat)
    requires Inv(s, w) && JobOk(s.version, source, a, b) && SafeFloor(s, a, b, floor)
    ensures s.nextSeq >= 1 && SafeFloor(LsmSteps.TakeSnapshot(s), a, b, floor)
  {
    hide JobOk, Recency, Sorted, L0Ok, LevelOk, Represents;
    InputsAreDistinct(s, source, a, b);
    assert SafePoint(FileElems(a) + FileElems(b), floor, s.nextSeq - 1);
  }

  lemma {:induction false} ReleaseSnapshotStep(e: Engine, w: View, i: nat)
    requires EngineInv(e, w) && Enabled(e, Action.ReleaseSnapshot(i))
    ensures EngineInv(Apply(e, Action.ReleaseSnapshot(i)), ViewApply(w, Action.ReleaseSnapshot(i)))
    ensures Covered(e) ==> Covered(Apply(e, Action.ReleaseSnapshot(i)))
  {
    hide Shape, Bounded, JobOk, UniqueAcross, LogElems;
    assert |w.frozen| == |e.store.snapshots| by { SnapshotsMatch(e.store, w); }
    ReleaseSnapshotKeepsInv(e.store, w, i);
    if e.job.Merging? { ReleaseKeepsSafeFloor(e.store, e.job.a, e.job.b, e.job.floor, i); }
  }

  lemma {:induction false} ReleaseKeepsSafeFloor(s: Store, a: seq<File>, b: seq<File>, floor: nat, i: nat)
    requires SafeFloor(s, a, b, floor) && i < |s.snapshots|
    ensures SafeFloor(LsmSteps.ReleaseSnapshot(s, i), a, b, floor)
  {
    hide SafePoint;
    var s' := LsmSteps.ReleaseSnapshot(s, i);
    forall j | 0 <= j < |s'.snapshots| ensures SafePoint(FileElems(a) + FileElems(b), floor, s'.snapshots[j]) {
      assert s'.snapshots[j] == s.snapshots[if j < i then j else j + 1];
    }
  }

  // ---- flush ----------------------------------------------------------------------------------------

  lemma {:induction false} FlushInstallStep(e: Engine, w: View, size: nat)
    requires EngineInv(e, w) && Enabled(e, Action.FlushInstall(size))
    ensures EngineInv(Apply(e, Action.FlushInstall(size)), w)
    ensures Covered(Apply(e, Action.FlushInstall(size)))
  {
    hide Inv, JobOk, SafeFloor, UniqueAcross, LogElems;
    FlushInstallKeepsInv(e.store, w, e.immTable, size);
    FlushKeepsNumbers(e, size);
    CurrentLogIsLast(e);
  }

  lemma {:induction false} CurrentLogIsLast(e: Engine)
    requires e.logNumber in e.logs && forall n :: n in e.logs ==> n <= e.logNumber
    ensures LogElems(e.logs, e.logNumber) == Elems(e.logs[e.logNumber])
  {
  }

  lemma {:induction false} PushedFiles(v: Version, f0: File, i: nat, f: File)
    requires i <= |v.levels| && f in Run(v.(l0 := [f0] + v.l0), i)
    ensures (i == 0 && f == f0) || f in Run(v, i)
  {
  }

  lemma {:induction false} PushKeepsUnique(v: Version, f0: File)
    requires UniqueAcross(v) && forall f :: InVersion(v, f) ==> f.number != f0.number
    ensures UniqueAcross(v.(l0 := [f0] + v.l0))
  {
    var v' := v.(l0 := [f0] + v.l0);
    forall i, j, f, g | 0 <= i < j <= |v'.levels| && f in Run(v', i) && g in Run(v', j) ensures f.number != g.number {
      PushedFiles(v, f0, i, f);
      PushedFiles(v, f0, j, g);
      assert InVersion(v, g);
    }
  }

  lemma {:induction false} FlushKeepsNumbers(e: Engine, size: nat)
    requires NumbersInv(e) && Enabled(e, Action.FlushInstall(size))
    ensures NumbersInv(Apply(e, Action.FlushInstall(size)))
  {
    hide UniqueAcross;
    var f0 := File(e.immTable, e.store.imm.value, size);
    var v, v' := e.store.version, Apply(e, Action.FlushInstall(size)).store.version;
    PushKeepsUnique(v, f0);
    forall f | InVersion(v', f) ensures f == f0 || InVersion(v, f) {
      var i :| 0 <= i <= |v'.levels| && f in Run(v', i);
      PushedFiles(v, f0, i, f);
    }
  }

  lemma {:induction false} FlushDoneStep(e: Engine, w: View)
    requires EngineInv(e, w) && Enabled(e, Action.FlushDone)
    ensures EngineInv(Apply(e, Action.FlushDone), w)
    ensures Covered(e) ==> Covered(Apply(e, Action.FlushDone))
  {
    hide Inv, JobOk, SafeFloor, UniqueAcross, LogElems;
    FlushDoneKeepsInv(e.store, w);
    assert e.store.imm.Some? by { InstalledHasImm(e.store, w); }
    assert e.job.NoJob?;
    UnlinkedLogElems(e.logs, e.immLog, e.manifest.floor);
  }

  lemma {:induction false} InstalledHasImm(s: Store, w: View)
    requires Inv(s, w) && s.installed
    ensures s.imm.Some?
  {
  }

  lemma {:induction false} UnlinkedLogElems(logs: map<nat, seq<Entry>>, n: nat, lo: nat)
    requires n < lo
    ensures LogElems(logs - {n}, lo) == LogElems(logs, lo)
  {
    forall x ensures x in LogElems(logs - {n}, lo) <==> x in LogElems(logs, lo) {
      if x in LogElems(logs, lo) {
        var m :| m in logs && m >= lo && x in logs[m];
        assert m in logs - {n} && x in (logs - {n})[m];
      }
    }
  }

  // ---- compaction -----------------------------------------------------------------------------------

  lemma {:induction false} PickStep(e: Engine, w: View, source: nat, a: seq<File>, b: seq<File>)
    requires EngineInv(e, w) && Enabled(e, Action.Pick(source, a, b))
    ensures EngineInv(Apply(e, Action.Pick(source, a, b)), w)
    ensures Covered(e) ==> Covered(Apply(e, Action.Pick(source, a, b)))
  {
    hide JobOk, UniqueAcross, LogElems, Bounded, Represents, VersionOk, Recency;
  }

  lemma {:induction false} CaptureFloorStep(e: Engine, w: View)
    requires EngineInv(e, w) && Enabled(e, Action.CaptureFloor)
    ensures EngineInv(Apply(e, Action.CaptureFloor), w)
    ensures Covered(e) ==> Covered(Apply(e, Action.CaptureFloor))
  {
    hide Inv, JobOk, UniqueAcross, LogElems;
    LowestIsSafe(e.store, e.job.a, e.job.b);
  }

  lemma {:induction false} InstallStep(e: Engine, w: View, outs: seq<File>, next: nat)
    requires EngineInv(e, w) && Enabled(e, Action.Install(outs, next))
    ensures EngineInv(Apply(e, Action.Install(outs, next)), w)
  {
    hide Inv, JobOk, SafeFloor, UniqueAcross, LogElems, Outputs, FilesOk, InVersion, FreshOutputs;
    FreshForInstall(e, outs, next);
    JobFacts(e.store.version, e.job.source, e.job.a, e.job.b);
    InstallKeepsInv(e.store, w, e.job.source, e.job.a, e.job.b, e.job.floor, outs);
    InstallKeepsNumbers(e, outs, next);
  }

  lemma {:induction false} FreshForInstall(e: Engine, outs: seq<File>, next: nat)
    requires FreshOutputs(e, outs, next)
    ensures FreshNumbers(e.store.version, outs)
  {
    var v := e.store.version;
    forall i, f, g | 0 <= i < |v.levels| && f in v.levels[i] && g in outs ensures f.number != g.number {
      assert f in Run(v, i + 1);
    }
  }

  /** Installing only moves tables out and the new ones in. */
  lemma {:induction false} InstalledFiles(
    v: Version, source: nat, a: seq<File>, b: seq<File>, outs: seq<File>, i: nat, f: File)
    requires source < |v.levels| && FilesOk(v.levels[source]) && FilesOk(outs)
    requires i <= |v.levels| == |InstallOutputs(v, source, a, b, outs).levels|
    requires f in Run(InstallOutputs(v, source, a, b, outs), i)
    ensures f in Run(v, i) || (i == source + 1 && f in outs)
  {
    hide FilesOk, InstallOutputs;
    InstalledLevels(v, source, a, b, outs);
    if i > 0 && i != source + 1 && i != source {
      assert InstallOutputs(v, source, a, b, outs).levels[i - 1] == v.levels[i - 1];
    }
  }

  lemma {:induction false} InstallKeepsUnique(v: Version, source: nat, a: seq<File>, b: seq<File>, outs: seq<File>)
    requires source < |v.levels| && FilesOk(v.levels[source]) && FilesOk(outs) && UniqueAcross(v)
    requires forall i, f, g :: 0 <= i <= |v.levels| && f in Run(v, i) && g in outs ==> f.number != g.number
    ensures UniqueAcross(InstallOutputs(v, source, a, b, outs))
  {
    hide FilesOk, InstallOutputs;
    InstalledLevels(v, source, a, b, outs);
    var v' := InstallOutputs(v, source, a, b, outs);
    forall i, j, f, g | 0 <= i < j <= |v'.levels| && f in Run(v', i) && g in Run(v', j) ensures f.number != g.number {
      InstalledFiles(v, source, a, b, outs, i, f);
      InstalledFiles(v, source, a, b, outs, j, g);
    }
  }

  lemma {:induction false} InstallKeepsNumbers(e: Engine, outs: seq<File>, next: nat)
    requires NumbersInv(e) && Enabled(e, Action.Install(outs, next)) && e.job.Merging?
    requires e.job.source == 0 ==> e.job.a == e.store.version.l0
    ensures NumbersInv(Apply(e, Action.Install(outs, next)))
  {
    hide FilesOk, InstallOutputs, UniqueAcross, Outputs;
    var v := e.store.version;
    var v' := InstallOutputs(v, e.job.source, e.job.a, e.job.b, outs);
    InstallKeepsUnique(v, e.job.source, e.job.a, e.job.b, outs);
    InstalledLevels(v, e.job.source, e.job.a, e.job.b, outs);
    forall f | InVersion(v', f) ensures InVersion(v, f) || f in outs {
      var i :| 0 <= i <= |v'.levels| && f in Run(v', i);
      InstalledFiles(v, e.job.source, e.job.a, e.job.b, outs, i, f);
    }
    forall i | 0 <= i < |v'.l0| ensures InVersion(v, v'.l0[i]) {
      assert v'.l0[i] in Run(v', 0);
      InstalledFiles(v, e.job.source, e.job.a, e.job.b, outs, 0, v'.l0[i]);
    }
    if e.job.source == 0 { RemoveAll(v.l0); }
  }

  // ---- publishing and recovery ------------------------------------------------------------------------

  lemma {:induction false} PublishStep(e: Engine, w: View)
    requires EngineInv(e, w)
    ensures EngineInv(Published(e), w)
  {
    hide Inv, JobInv, NumbersInv, LogElems;
    assert NumbersInv(Published(e)) by { SameNumbers(e, Published(e)); }
  }

  lemma {:induction false} SameNumbers(e: Engine, e': Engine)
    requires NumbersInv(e) && e'.store == e.store && e'.nextFile == e.nextFile
    requires e'.logNumber == e.logNumber && e'.immTable == e.immTable
    ensures NumbersInv(e')
  {
  }

  /**
   * A publication by a compaction or the garbage collector raises the replay floor to the current
   * log. It keeps every unflushed record recoverable exactly when the older replayed logs are empty.
   */
  lemma {:induction false} PublicationIsSafeIff(e: Engine, e': Engine)
    requires DiskInv(e) && Covered(e)
    requires e'.logs == e.logs && e'.logNumber == e.logNumber && Unflushed(e'.store) == Unflushed(e.store)
    ensures Covered(Published(e')) <==> OlderLogsEmpty(e)
  {
    CurrentLogIsLast(e);
    if OlderLogsEmpty(e) {
      forall x ensures x in LogElems(e.logs, e.manifest.floor) <==> x in LogElems(e.logs, e.logNumber) {
      }
    } else {
      var n :| n in e.logs && e.manifest.floor <= n < e.logNumber && e.logs[n] != [];
      var x := e.logs[n][0];
      assert x in LogElems(e.logs, e.manifest.floor) && x !in LogElems(e.logs, e.logNumber);
    }
  }

  lemma {:induction false} ReplayRestores(e: Engine, w: View)
    requires EngineInv(e, w) && Covered(e)
    ensures var mem := Replay([], e.logs, e.manifest.floor, e.logNumber);
            Sorted(mem) && Elems(mem) == Unflushed(e.store)
  {
    hide JobInv, NumbersInv, Sorted, Recency, L0Ok, LevelOk, Represents, LogElems, LogsApart;
    AllIsDistinct(e.store);
    UnflushedInAll(e.store);
    PartOfDistinct(Elems([]) + LogElems(e.logs, e.manifest.floor), All(e.store));
    assert Sorted([]) by { NothingSorted(); }
    ReplayElems([], e.logs, e.manifest.floor, e.logNumber);
  }

  lemma {:induction false} NothingSorted()
    ensures Sorted([])
  {
  }

  lemma {:induction false} UnflushedInAll(s: Store)
    requires |s.version.levels| == LEVELS
    ensures Unflushed(s) <= All(s)
  {
    forall x | x in Unflushed(s) ensures x in All(s) {
      assert x in Groups(s)[0] || x in Groups(s)[1];
    }
  }

  /** A crash in a covered state, and the Open after it, keep the latest view. */
  lemma {:induction false} CrashStep(e: Engine, w: View, nextSeq: nat, nextFile: nat)
    requires EngineInv(e, w) && Covered(e) && Enabled(e, Action.CrashAndOpen(nextSeq, nextFile))
    ensures EngineInv(Apply(e, Action.CrashAndOpen(nextSeq, nextFile)), View(w.now, []))
    ensures Covered(Apply(e, Action.CrashAndOpen(nextSeq, nextFile)))
  {
    hide JobOk, Recency, L0Ok, LevelOk, Sorted, Represents, LogElems, IsNextSeq, LogsApart;
    ReplayRestores(e, w);
    var mem := Replay([], e.logs, e.manifest.floor, e.logNumber);
    var s' := Recovered(e, nextSeq);
    assert s' == Reopened(e.store, mem, nextSeq);
    ReopenGroups(e.store, mem, nextSeq);
    ReopenKeepsInv(e.store, w, mem, nextSeq);
    LiveLogElems(e);
    CurrentLogReplayed(e);
    assert LogsApart(LiveLogs(e), nextSeq) by { LiveLogsApart(e, nextSeq); }
  }

  lemma {:induction false} LiveLogsApart(e: Engine, nextSeq: nat)
    requires LogsApart(e.logs, e.store.nextSeq) && |e.store.version.levels| == LEVELS
    requires Covered(e) && IsNextSeq(All(e.store), nextSeq)
    ensures LogsApart(LiveLogs(e), nextSeq)
  {
    UnflushedInAll(e.store);
    forall n, x | n in LiveLogs(e) && x in LiveLogs(e)[n] ensures x.seqno < nextSeq {
      assert x in LogElems(e.logs, e.manifest.floor);
    }
  }

  lemma {:induction false} LiveLogElems(e: Engine)
    ensures LogElems(LiveLogs(e), e.manifest.floor) == LogElems(e.logs, e.manifest.floor)
  {
    forall x ensures x in LogElems(LiveLogs(e), e.manifest.floor) <==> x in LogElems(e.logs, e.manifest.floor) {
      if x in LogElems(e.logs, e.manifest.floor) {
        var n :| n in e.logs && n >= e.manifest.floor && x in e.logs[n];
        assert n in LiveLogs(e) && x in LiveLogs(e)[n];
      }
    }
  }

  lemma {:induction false} CurrentLogReplayed(e: Engine)
    requires e.logNumber in e.logs && e.manifest.floor <= e.logNumber
    ensures e.logNumber in LiveLogs(e) && LiveLogs(e)[e.logNumber] == e.logs[e.logNumber]
    ensures Elems(e.logs[e.logNumber]) <= LogElems(e.logs, e.manifest.floor)
  {
  }
}
