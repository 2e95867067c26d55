/**
 * The storage engine as a state machine: store, background job, write-ahead logs and published
 * MANIFEST. Each action is what the source does under one hold of its mutex.
 */
module Engine {
  import opened Bytes
  import opened Keys
  import opened Entries
  import opened Versions
  import opened Lsm
  import opened LsmSteps
  import opened Picking
  import opened Install
  import opened Recovery

  /** The background thread's compaction: inputs chosen, then floor captured and merging. */
  datatype Job =
    | NoJob
    | Picked(source: nat, a: seq<File>, b: seq<File>)
    | Merging(source: nat, a: seq<File>, b: seq<File>, floor: nat)

  /** What a MANIFEST names: the tables, and the lowest log to replay. */
  datatype Manifest = Manifest(version: Version, floor: nat)

  datatype Engine = Engine(
    store: Store, job: Job, logNumber: nat, immLog: nat, immTable: nat, nextFile: nat,
    logs: map<nat, seq<Entry>>, manifest: Manifest)

  datatype Action =
    | Write(key: Key, slot: Slot)
    | Rotate
    | FlushInstall(size: nat)
    | FlushDone
    | Pick(source: nat, a: seq<File>, b: seq<File>)
    | CaptureFloor
    | Install(outs: seq<File>, next: nat)
    | Publish
    | TakeSnapshot
    | ReleaseSnapshot(i: nat)
    | CrashAndOpen(nextSeq: nat, nextFile: nat)

  const EMPTY: Version := Version([], [[], [], [], [], [], []])

  /** A fresh directory: nothing published, log 1 open. */
  const INIT: Engine :=
    Engine(Store([], None, false, EMPTY, 1, []), NoJob, 1, 0, 0, 2, map[1 := []], Manifest(EMPTY, 1))

  const NO_VIEW: View := View(map[], [])

  // ---- numbers --------------------------------------------------------------------------------------

  /** Level `i` of a version, L0 included. */
  function Run(v: Version, i: nat): seq<File>
    requires i <= |v.levels|
  {
    if i == 0 then v.l0 else v.levels[i - 1]
  }

  ghost predicate InVersion(v: Version, f: File) {
    exists i :: 0 <= i <= |v.levels| && f in Run(v, i)
  }

  /** No table number is used in two levels. */
  ghost predicate UniqueAcross(v: Version) {
    forall i, j, f, g :: 0 <= i < j <= |v.levels| && f in Run(v, i) && g in Run(v, j) ==> f.number != g.number
  }

  /** `SmallestSnapshotSeq`: the lowest live read point; without one, the highest number there is. */
  function Lowest(points: seq<nat>): (r: nat)
    ensures forall i :: 0 <= i < |points| ==> r <= points[i]
    ensures if points == [] then r == 0xFFFF_FFFF_FFFF_FFFF else r in points
  {
    if points == [] then MAX_SEQ
    else if |points| == 1 then points[0]
    else
      assert points == [points[0]] + points[1..];
      var rest := Lowest(points[1..]);
      if points[0] < rest then points[0] else rest
  }

  /** The floor a compaction captures protects every live snapshot. */
  lemma {:induction false} LowestIsSafe(s: Store, a: seq<File>, b: seq<File>)
    ensures SafeFloor(s, a, b, Lowest(s.snapshots))
  {
  }

  // ---- durability -------------------------------------------------------------------------------------

  /** Records that only the logs hold: the memtable's, and the immutable memtable's before its install. */
  ghost function Unflushed(s: Store): set<Entry> {
    Elems(s.mem) + Elems(Pending(s))
  }

  /** The logs a crash would replay hold exactly the records no published table holds. */
  ghost predicate Covered(e: Engine) {
    LogElems(e.logs, e.manifest.floor) == Unflushed(e.store)
  }

  /** No log below the current one, among those still replayed, holds a record. */
  ghost predicate OlderLogsEmpty(e: Engine) {
    forall n :: n in e.logs && e.manifest.floor <= n < e.logNumber ==> e.logs[n] == []
  }

  /** `WriteManifest`: the current version, with the current log as replay floor. */
  function Published(e: Engine): Engine {
    e.(manifest := Manifest(e.store.version, e.logNumber))
  }

  // ---- steps ------------------------------------------------------------------------------------------

  ghost predicate FreshOutputs(e: Engine, outs: seq<File>, next: nat) {
    && next >= e.nextFile
    && forall g :: g in outs ==>
        && g.number < next
        && (e.store.imm.Some? ==> g.number != e.immTable)
        && forall i, f :: 0 <= i <= |e.store.version.levels| && f in Run(e.store.version, i) ==> f.number != g.number
  }

  ghost predicate Enabled(e: Engine, a: Action) {
    match a
    case Write(_, _) => e.store.nextSeq < SEQ_LIMIT
    case Rotate => e.store.imm.None? && e.store.mem != []
    case FlushInstall(_) => e.store.imm.Some? && !e.store.installed && e.job.NoJob?
    case FlushDone => e.store.installed
    case Pick(source, a, b) => e.job.NoJob? && e.store.imm.None? && JobOk(e.store.version, source, a, b)
    case CaptureFloor => e.job.Picked?
    case Install(outs, next) =>
      && e.job.Merging? && e.job.source < LEVELS == |e.store.version.levels|
      && FilesOk(e.store.version.levels[e.job.source]) && FilesOk(outs)
      && Outputs(e.job.a, e.job.b, e.job.floor, e.job.source + 1 == LEVELS, outs)
      && FreshOutputs(e, outs, next)
    case Publish => true
    case TakeSnapshot => e.store.nextSeq >= 1
    case ReleaseSnapshot(i) => i < |e.store.snapshots|
    case CrashAndOpen(nextSeq, nextFile) =>
      && |e.manifest.version.levels| == LEVELS
      && IsNextSeq(All(Recovered(e, nextSeq)), nextSeq)
      && nextFile > e.logNumber && forall f :: InVersion(e.manifest.version, f) ==> f.number < nextFile
  }

  /** The store rebuilt from what is on disk. */
  function Recovered(e: Engine, nextSeq: nat): Store {
    Store(Replay([], e.logs, e.manifest.floor, e.logNumber), None, false, e.manifest.version, nextSeq, [])
  }

  function LiveLogs(e: Engine): map<nat, seq<Entry>> {
    map n | n in e.logs && n >= e.manifest.floor :: e.logs[n]
  }

  ghost function Apply(e: Engine, a: Action): Engine
    requires Enabled(e, a)
  {
    match a
    case Write(k, slot) =>
      var entry := Entry(k, e.store.nextSeq, slot);
      e.(store := LsmSteps.Write(e.store, k, slot),
         logs := e.logs[e.logNumber := (if e.logNumber in e.logs then e.logs[e.logNumber] else []) + [entry]])
    case Rotate =>
      e.(store := LsmSteps.Rotate(e.store), immLog := e.logNumber, immTable := e.nextFile + 1,
         logNumber := e.nextFile, nextFile := e.nextFile + 2, logs := e.logs[e.nextFile := []])
    case FlushInstall(size) =>
      Published(e.(store := LsmSteps.FlushInstall(e.store, e.immTable, size)))
    case FlushDone =>
      e.(store := LsmSteps.FlushDone(e.store), logs := e.logs - {e.immLog})
    case Pick(source, a, b) =>
      e.(job := Picked(source, a, b))
    case CaptureFloor =>
      e.(job := Merging(e.job.source, e.job.a, e.job.b, Lowest(e.store.snapshots)))
    case Install(outs, next) =>
      Published(e.(store := Installed(e.store, e.job.source, e.job.a, e.job.b, outs), job := NoJob, nextFile := next))
    case Publish => Published(e)
    case TakeSnapshot => e.(store := LsmSteps.TakeSnapshot(e.store))
    case ReleaseSnapshot(i) => e.(store := LsmSteps.ReleaseSnapshot(e.store, i))
    case CrashAndOpen(nextSeq, nextFile) =>
      e.(store := Recovered(e, nextSeq), job := NoJob, immLog := 0, immTable := 0, nextFile := nextFile,
        logs := LiveLogs(e))
  }

  /** The same action on the specification; background work does not show. */
  ghost function ViewApply(w: View, a: Action): View {
    match a
    case Write(k, slot) => ViewWrite(w, k, slot)
    case TakeSnapshot => ViewSnapshot(w)
    case ReleaseSnapshot(i) => if i < |w.frozen| then ViewRelease(w, i) else w
    case CrashAndOpen(_, _) => View(w.now, [])
    case _ => w
  }

  // ---- invariant --------------------------------------------------------------------------------------

  ghost predicate JobInv(s: Store, job: Job) {
    match job
    case NoJob => true
    case Picked(source, a, b) => !s.installed && JobOk(s.version, source, a, b)
    case Merging(source, a, b, floor) => !s.installed && JobOk(s.version, source, a, b) && SafeFloor(s, a, b, floor)
  }

  ghost predicate NumbersInv(e: Engine) {
    && UniqueAcross(e.store.version)
    && (forall f :: InVersion(e.store.version, f) ==> f.number < e.nextFile)
    && e.logNumber < e.nextFile
    && (e.store.imm.Some? && !e.store.installed ==>
        && e.immTable < e.nextFile
        && (forall f :: InVersion(e.store.version, f) ==> f.number != e.immTable)
        && forall i :: 0 <= i < |e.store.version.l0| ==> e.store.version.l0[i].number < e.immTable)
  }

  /** Each logged record sits in one log only and carries a sequence number already assigned. */
  ghost predicate LogsApart(logs: map<nat, seq<Entry>>, next: nat) {
    && (forall n, x :: n in logs && x in logs[n] ==> x.seqno < next)
    && forall n, m, x :: n in logs && m in logs && x in logs[n] && x in logs[m] ==> n == m
  }

  ghost predicate DiskInv(e: Engine) {
    && LogsApart(e.logs, e.store.nextSeq)
    && e.manifest.version == e.store.version
    && e.manifest.floor <= e.logNumber && e.logNumber in e.logs
    && (forall n :: n in e.logs ==> n <= e.logNumber)
    && Elems(e.logs[e.logNumber]) <= Elems(e.store.mem)
    && (e.store.imm.Some? ==> Elems(e.store.mem) == Elems(e.logs[e.logNumber]) && e.immLog < e.logNumber)
    && (e.store.installed ==> e.manifest.floor == e.logNumber)
  }

  ghost predicate EngineInv(e: Engine, w: View) {
    Inv(e.store, w) && JobInv(e.store, e.job) && NumbersInv(e) && DiskInv(e)
  }
}
