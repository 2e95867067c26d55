/**
 * Recovery is not unconditional: a compaction that publishes while an immutable memtable waits for
 * its flush moves the replay floor past the only log holding those records.
 */
module LostWrite {
  import opened Seqs
  import opened Bytes
  import opened Keys
  import opened Entries
  import opened Versions
  import opened Lsm
  import opened Picking
  import opened Install
  import opened Recovery
  import opened Engine
  import opened EngineRuns
  import M = Merging

  const A: Key := [0]
  const B: Key := [1]
  const FIRST := Entry(A, 1, Put([]))
  const SECOND := Entry(B, 2, Put([]))
  const TABLE := File(3, [FIRST], 0)
  const OUTPUT := File(6, [FIRST], 0)

  /** A write is flushed; a second one is rotated out while the first one's table is being compacted. */
  const RUN: seq<Action> := [
    Action.Write(A, Put([])), Action.Rotate, Action.FlushInstall(0), Action.FlushDone,
    Action.Pick(0, [TABLE], []), Action.CaptureFloor,
    Action.Write(B, Put([])), Action.Rotate, Action.Install([OUTPUT], 7)]

  lemma {:induction false} Extend(run: seq<Action>, a: Action)
    requires Legal(run) && Allowed(EngineRuns.After(run), a)
    ensures Legal(run + [a]) && EngineRuns.After(run + [a]) == Apply(EngineRuns.After(run), a)
  {
    assert Init(run + [a]) == run;
  }

  // The states along the run.
  const WRITTEN := INIT.(store := INIT.store.(mem := [FIRST], nextSeq := 2), logs := map[1 := [FIRST]])
  const ROTATED := WRITTEN.(
    store := WRITTEN.store.(mem := [], imm := Some([FIRST])), immLog := 1, immTable := 3, logNumber := 2, nextFile := 4,
    logs := map[1 := [FIRST], 2 := []])
  const L0_ONLY: Version := EMPTY.(l0 := [TABLE])
  const FLUSHED := ROTATED.(
    store := ROTATED.store.(installed := true, version := L0_ONLY), manifest := Manifest(L0_ONLY, 2))
  const DRAINED := FLUSHED.(store := FLUSHED.store.(imm := None, installed := false), logs := map[2 := []])
  const MERGING := DRAINED.(job := Merging(0, [TABLE], [], MAX_SEQ))
  const PENDING := MERGING.(
    store := MERGING.store.(mem := [], imm := Some([SECOND]), nextSeq := 3), immLog := 2, immTable := 5, logNumber := 4,
    nextFile := 6, logs := map[2 := [SECOND], 4 := []])
  const L1_ONLY: Version := Version([], [[OUTPUT], [], [], [], [], []])
  const PUBLISHED := PENDING.(
    store := PENDING.store.(version := L1_ONLY), job := NoJob, nextFile := 7, manifest := Manifest(L1_ONLY, 4))

  lemma {:induction false} UpToRotation()
    ensures Legal(RUN[..2]) && EngineRuns.After(RUN[..2]) == ROTATED
  {
    assert Legal([]);
    Extend([], RUN[0]);
    assert RUN[..1] == [] + [RUN[0]];
    assert Insert([], FIRST) == [FIRST];
    assert [] + [FIRST] == [FIRST];
    assert map[1 := []][1 := [FIRST]] == map[1 := [FIRST]];
    assert Apply(INIT, RUN[0]) == WRITTEN;
    Extend(RUN[..1], RUN[1]);
    assert RUN[..2] == RUN[..1] + [RUN[1]];
  }

  lemma {:induction false} UpToInstall()
    ensures Legal(RUN[..3]) && EngineRuns.After(RUN[..3]) == FLUSHED
  {
    hide Legal;
    UpToRotation();
    Extend(RUN[..2], RUN[2]);
    assert RUN[..3] == RUN[..2] + [RUN[2]];
    assert Apply(ROTATED, RUN[2]) == FLUSHED;
  }

  lemma {:induction false} UpToDrain()
    ensures Legal(RUN[..4]) && EngineRuns.After(RUN[..4]) == DRAINED
  {
    hide Legal;
    UpToInstall();
    Extend(RUN[..3], RUN[3]);
    assert RUN[..4] == RUN[..3] + [RUN[3]];
    assert FLUSHED.logs - {1} == map[2 := []];
  }

  lemma {:induction false} TableOk(n: nat)
    ensures FileOk(File(n, [FIRST], 0)) && LevelOk([File(n, [FIRST], 0)])
  {
  }

  lemma {:induction false} PickIsLegal()
    ensures JobOk(L0_ONLY, 0, [TABLE], [])
  {
    TableOk(3);
    LessIrreflexive(A);
    assert Hull(L0_ONLY.levels[0], [TABLE], [], A, A);
    assert forall i :: 0 <= i < LEVELS ==> LevelOk(L0_ONLY.levels[i]);
  }

  lemma {:induction false} UpToMerge()
    ensures Legal(RUN[..6]) && EngineRuns.After(RUN[..6]) == MERGING
  {
    hide JobOk;
    UpToDrain();
    PickIsLegal();
    Extend(RUN[..4], RUN[4]);
    assert RUN[..5] == RUN[..4] + [RUN[4]];
    Extend(RUN[..5], RUN[5]);
    assert RUN[..6] == RUN[..5] + [RUN[5]];
  }

  lemma {:induction false} UpToSecond()
    ensures Legal(RUN[..7]) && EngineRuns.After(RUN[..7])
              == MERGING.(store := MERGING.store.(mem := [SECOND], nextSeq := 3), logs := map[2 := [SECOND]])
  {
    hide Legal;
    UpToMerge();
    Extend(RUN[..6], RUN[6]);
    assert RUN[..7] == RUN[..6] + [RUN[6]];
    assert Insert([], SECOND) == [SECOND] && [] + [SECOND] == [SECOND];
    assert MERGING.logs[2 := [SECOND]] == map[2 := [SECOND]];
  }

  lemma {:induction false} UpToPending()
    ensures Legal(RUN[..8]) && EngineRuns.After(RUN[..8]) == PENDING
  {
    hide Legal;
    UpToSecond();
    Extend(RUN[..7], RUN[7]);
    assert RUN[..8] == RUN[..7] + [RUN[7]];
    assert map[2 := [SECOND]][4 := []] == PENDING.logs;
  }

  lemma {:induction false} MergeOfOne()
    ensures M.Merge(InputTables([TABLE], [])) == [FIRST]
  {
    var t := InputTables([TABLE], []);
    assert t == [[FIRST]];
    assert M.IsSmallest(t, 0) by { LessIrreflexive(A); }
    M.SmallestIsUnique(t, 0, M.Smallest(t));
    assert [FIRST][1..] == [];
    assert M.Pop(t, 0) == [[]];
  }

  lemma {:induction false} OutputIsMerge()
    ensures Outputs([TABLE], [], MAX_SEQ, false, [OUTPUT])
  {
    TableOk(6);
    MergeOfOne();
  }

  lemma {:induction false} OutputIsFresh()
    ensures FreshOutputs(PENDING, [OUTPUT], 7)
  {
    assert forall i, f :: 0 <= i <= LEVELS && f in Run(L0_ONLY, i) ==> f == TABLE;
  }

  lemma {:induction false} InstalledVersion()
    ensures FilesOk(L0_ONLY.levels[0]) && FilesOk([OUTPUT])
              && InstallOutputs(L0_ONLY, 0, [TABLE], [], [OUTPUT]) == L1_ONLY
  {
    TableOk(6);
    RemoveAll([TABLE]);
    assert [] + [OUTPUT] == [OUTPUT] && [OUTPUT][..0] == [];
    assert SortFiles([OUTPUT]) == [OUTPUT];
  }

  lemma {:induction false} InstallIsLegal()
    ensures Enabled(PENDING, RUN[8]) && Apply(PENDING, RUN[8]) == PUBLISHED
  {
    hide Outputs, FreshOutputs, InstallOutputs, FilesOk;
    OutputIsMerge();
    OutputIsFresh();
    InstalledVersion();
  }

  /** The run is legal and every write in it was acknowledged, the one to B last. */
  lemma {:induction false} RunIsLegal()
    ensures Legal(RUN) && EngineRuns.After(RUN) == PUBLISHED && Latest(RUN, B) == Some([])
  {
    hide Enabled;
    UpToPending();
    InstallIsLegal();
    Extend(RUN[..8], RUN[8]);
    assert RUN == RUN[..8] + [RUN[8]];
    assert Init(RUN) == RUN[..8] && Init(RUN[..8]) == RUN[..7];
    assert Last(RUN[..7]) == RUN[6];
    assert LastWrite(RUN[..7], B) == Some(Put([]));
    assert LastWrite(RUN[..8], B) == LastWrite(RUN[..7], B);
    assert LastWrite(RUN, B) == LastWrite(RUN[..8], B);
  }

  /** Yet a crash forgets it: the published floor is log 4, and the record is in log 2. */
  lemma {:induction false} CompactionDuringFlushLosesWrites(n: nat)
    ensures Legal(RUN) && EngineRuns.After(RUN) == PUBLISHED && Latest(RUN, B) == Some([])
    ensures !Covered(PUBLISHED)
    ensures Readable(Recovered(PUBLISHED, n)) && Get(Recovered(PUBLISHED, n), B, MAX_SEQ) == None
  {
    RunIsLegal();
    assert SECOND in Unflushed(PUBLISHED.store);
    MissesSecond(n);
  }

  lemma {:induction false} MissesSecond(n: nat)
    ensures Readable(Recovered(PUBLISHED, n)) && Get(Recovered(PUBLISHED, n), B, MAX_SEQ) == None
  {
    TableOk(6);
    var s := Recovered(PUBLISHED, n);
    assert Replay([], PUBLISHED.logs, 4, 4) == [];
    assert s.version.levels[0] == [OUTPUT];
    assert Less(A, B);
    assert UpperBound([OUTPUT], B) == 1;
    forall i | 0 <= i < LEVELS ensures ProbedTable(s.version.levels[i], B) == [] {
    }
    var path := Path(s.mem, s.imm, s.version, B);
    assert forall i :: 0 <= i < |path| ==> path[i] == [];
    NothingHit(path, B, MAX_SEQ);
  }

  lemma {:induction false} NothingHit(tables: seq<seq<Entry>>, k: Key, r: nat)
    requires forall i :: 0 <= i < |tables| ==> tables[i] == []
    ensures FirstHit(tables, k, r) == None
  {
    if tables != [] { NothingHit(tables[1..], k, r); }
  }
}
