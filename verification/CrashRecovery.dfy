/** Opening what a crash left on disk, at any step and inside any log append. */
module CrashRecovery {
  import opened Seqs
  import opened Bytes
  import opened Keys
  import opened Entries
  import opened Versions
  import opened Lsm
  import opened Recovery
  import opened Engine
  import opened EngineRuns
  import Wal
  import opened WalRecords
  import opened Opening

  /** The write being appended when the process died, if any. */
  datatype InFlight = Nothing | Writing(key: Key, slot: Slot)

  ghost function RecordOf(e: Engine, w: InFlight): Entry
    requires w.Writing?
  {
    Entry(w.key, e.store.nextSeq, w.slot)
  }

  /** What the current log holds behind `base` once the write is complete. */
  ghost function Append(e: Engine, w: InFlight, base: Bytes): Bytes {
    if w.Nothing? then base else base + Wal.Encode(EncodePayload(RecordOf(e, w)), |base|, true)
  }

  /**
   * The log files on disk. The current one was `base` and holds any part of the record in flight;
   * the others replay to their logs. Files the engine does not know lie below the floor or are
   * empty, as a log is that was created and not yet switched to.
   */
  ghost predicate LogsLeft(e: Engine, w: InFlight, base: Bytes, files: map<nat, Bytes>) {
    && e.logNumber in e.logs && e.logNumber in files && Closed(base, e.logs[e.logNumber])
    && (w.Writing? ==> Recordable(RecordOf(e, w)) && Enabled(e, Write(w.key, w.slot)))
    && base <= files[e.logNumber] <= Append(e, w, base)
    && (forall n :: n in e.logs && n != e.logNumber ==> n in files && ReplayedEntries(files[n]) == e.logs[n])
    && forall n :: n in files && n !in e.logs ==> n < e.manifest.floor || ReplayedEntries(files[n]) == []
  }

  /** The whole record made it to the log. */
  ghost predicate Complete(e: Engine, w: InFlight, base: Bytes, files: map<nat, Bytes>) {
    w.Writing? && e.logNumber in files && files[e.logNumber] == Append(e, w, base)
  }

  /** The run the disk stands for: with the write in flight exactly if its record is complete. */
  ghost function Survivors(run: seq<Action>, w: InFlight, base: Bytes, files: map<nat, Bytes>): seq<Action>
    requires Legal(run)
  {
    if Complete(After(run), w, base, files) then run + [Write(w.key, w.slot)] else run
  }

  // ---- replaying the files ------------------------------------------------------------------------------

  /** Logs that are empty, or below where replay starts, change nothing. */
  lemma {:induction false} ReplayIgnoresEmpty(
    mem: seq<Entry>, logs: map<nat, seq<Entry>>, logs': map<nat, seq<Entry>>, lo: nat, hi: nat, hi': nat)
    requires hi <= hi' && forall n :: n in logs ==> n <= hi
    requires forall n :: n in logs && n >= lo ==> n in logs' && logs'[n] == logs[n]
    requires forall n :: n in logs' && n >= lo && n !in logs ==> logs'[n] == []
    ensures Replay(mem, logs', lo, hi') == Replay(mem, logs, lo, hi)
    decreases hi' + 1 - lo
  {
    if lo <= hi' {
      ReplayIgnoresEmpty(if lo in logs' then ReplayLog(mem, logs'[lo]) else mem, logs, logs', lo + 1, hi, hi');
    }
  }

  /** The current log replays to its records, or to those and the one in flight. */
  lemma {:induction false} CurrentReplays(e: Engine, w: InFlight, base: Bytes, files: map<nat, Bytes>)
    requires LogsLeft(e, w, base, files)
    ensures ReplayedEntries(files[e.logNumber])
            == e.logs[e.logNumber] + if Complete(e, w, base, files) then [RecordOf(e, w)] else []
  {
    hide Wal.Encode, EncodePayload, ApplyLog;
    var log := e.logs[e.logNumber];
    if w.Writing? {
      CrashedAppendReplays(base, log, RecordOf(e, w), files[e.logNumber]);
    } else {
      assert files[e.logNumber] == base;
    }
    assert log + [] == log;
  }

  /** The engine the disk stands for. */
  ghost function Survivor(e: Engine, w: InFlight, base: Bytes, files: map<nat, Bytes>): Engine
    requires LogsLeft(e, w, base, files)
  {
    if Complete(e, w, base, files) then Apply(e, Write(w.key, w.slot)) else e
  }

  lemma {:induction false} DiskReplays(e: Engine, w: InFlight, base: Bytes, files: map<nat, Bytes>, last: nat, n: nat)
    requires LogsLeft(e, w, base, files) && e.logNumber <= last && forall m :: m in e.logs ==> m <= e.logNumber
    ensures Recovered(e.(logs := DiskLogs(files), logNumber := last), n) == Recovered(Survivor(e, w, base, files), n)
  {
    hide Wal.Encode, ReplayedEntries, Closed, Recordable;
    var e' := Survivor(e, w, base, files);
    CurrentReplays(e, w, base, files);
    var log := e.logs[e.logNumber];
    assert log + [] == log;
    ReplayIgnoresEmpty([], e'.logs, DiskLogs(files), e.manifest.floor, e.logNumber, last);
  }

  lemma {:induction false} SurvivorsRun(run: seq<Action>, w: InFlight, base: Bytes, files: map<nat, Bytes>)
    requires Legal(run) && SafePublications(run) && LogsLeft(After(run), w, base, files)
    ensures var run' := Survivors(run, w, base, files);
            Legal(run') && SafePublications(run') && After(run') == Survivor(After(run), w, base, files)
  {
    hide Apply, Append, Closed;
    if Complete(After(run), w, base, files) {
      var run' := run + [Write(w.key, w.slot)];
      assert Init(run') == run && Last(run') == Write(w.key, w.slot);
    }
  }

  lemma {:induction false} RunLeavesGoodDisk(run: seq<Action>)
    requires Legal(run)
    ensures var e := After(run);
            && VersionOk(e.manifest.version) && UniqueAcross(e.manifest.version)
            && e.manifest.floor <= e.logNumber && forall n :: n in e.logs ==> n <= e.logNumber
  {
    hide Bounded, Represents, JobInv, Recency, L0Ok, LevelOk, UniqueAcross, LogsApart;
    RunKeepsInv(run);
  }

  /** The store answers every latest read as the run does. */
  ghost predicate Answers(s: Store, run: seq<Action>) {
    Readable(s) && forall k :: Get(s, k, MAX_SEQ) == Latest(run, k)
  }

  lemma {:induction false} RecoveredAnswers(run: seq<Action>, n: nat)
    requires Legal(run) && SafePublications(run)
    ensures Answers(Recovered(After(run), n), run)
  {
    hide Get, Latest, Legal, SafePublications, Recovered, After;
    RecoveryRestoresView(run, n, []);
    forall k ensures Get(Recovered(After(run), n), k, MAX_SEQ) == Latest(run, k) {
      RecoveryRestoresView(run, n, k);
    }
  }

  /**
   * The process dies anywhere in a run whose publications are safe, perhaps inside the append of a
   * write. Opening what it left succeeds, and the store answers every read as the run does, with
   * the write in flight for all keys or for none: exactly if its record is complete. Every
   * replayed log is left cut where its entries end, if anything in it was refused.
   */
  method OpenAfterCrash(
    bytes: Bytes, tables: map<nat, seq<Entry>>, files: map<nat, Bytes>, last: nat,
    ghost run: seq<Action>, ghost w: InFlight, ghost base: Bytes, ghost vlogs: seq<nat>)
    returns (o: Option<Store>, kept: map<nat, Bytes>)
    requires TablesOk(tables) && forall n :: n in files ==> n <= last
    requires Legal(run) && SafePublications(run)
    requires LogsLeft(After(run), w, base, files) && Stored(After(run).manifest, vlogs, bytes, tables)
    ensures o.Some? && Answers(o.value, Survivors(run, w, base, files)) && o.value.snapshots == []
    ensures |o.value.version.levels| == LEVELS && IsNextSeq(All(o.value), o.value.nextSeq)
    ensures kept == map n | n in files && n >= After(run).manifest.floor :: OpenedFile(files[n])
  {
    hide LogsLeft, Stored, VersionOk, UniqueAcross, Answers, IsNextSeq, Survivor, Survivors, Legal, SafePublications,
      After,
      OpenedFile;
    ghost var e := After(run);
    RunLeavesGoodDisk(run);
    CurrentIsOnDisk(e, w, base, files);
    ghost var left := e.(logs := DiskLogs(files), logNumber := last);
    o, kept := Open(bytes, tables, files, last, left, vlogs);
    DiskReplays(e, w, base, files, last, o.value.nextSeq);
    SurvivorsRun(run, w, base, files);
    RecoveredAnswers(Survivors(run, w, base, files), o.value.nextSeq);
  }

  lemma {:induction false} CurrentIsOnDisk(e: Engine, w: InFlight, base: Bytes, files: map<nat, Bytes>)
    requires LogsLeft(e, w, base, files)
    ensures e.logNumber in files
  {
  }
}
