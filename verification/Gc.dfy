/**
 * The engine with separated values and value-log garbage collection, as a state machine. A pass
 * rotates to a fresh generation, visits the entries of all older ones, rewrites the live ones and
 * retires the old files; user writes, snapshots and background work interleave with its steps.
 */
module Gc {
  import opened Bytes
  import opened Keys
  import opened Entries
  import opened Lsm
  import opened Engine
  import opened VLog
  import opened Values

  datatype Pass = Idle | Scanning(retired: seq<nat>, at: nat, pos: nat, rewritten: nat)

  datatype Sys = Sys(
    engine: Engine, logs: Logs, current: nat, pass: Pass, gcFloor: nat, gcSize: nat, threshold: nat)

  datatype Step =
    | PutValue(key: Key, value: Bytes)
    | Delete(key: Key)
    | Internal(action: Action)
    | GcStart(retired: seq<nat>)
    | GcScan
    | GcNext
    | GcRetire
    | GcAbandon
    | Crash(nextSeq: nat, nextFile: nat, inflight: Record, written: nat)

  /** A fresh directory with separation on: generation 1 open and empty. */
  function Fresh(gcSize: nat, threshold: nat): Sys {
    Sys(INIT, map[1 := []], 1, Idle, 0, gcSize, threshold)
  }

  // ---- writing and reading ------------------------------------------------------------------------------

  /** The lengths and offsets of the write fit their fields. */
  ghost predicate CanWrite(s: Sys, k: Key, v: Bytes) {
    && s.current in s.logs && PointerOk(PointerTo(s.logs, s.current, v)) && EntryOk(Record(k, v))
    && s.engine.store.nextSeq < SEQ_LIMIT
  }

  ghost function Written(s: Sys, k: Key, v: Bytes): Sys
    requires CanWrite(s, k, v)
  {
    s.(engine := Apply(s.engine, Action.Write(k, Put(SlotFor(s.logs, s.current, s.threshold, v)))),
       logs := LogsFor(s.logs, s.current, s.threshold, k, v))
  }

  /** A read at point `r`. */
  function Read(s: Sys, k: Key, r: nat): Reading
    requires Readable(s.engine.store)
  {
    match Get(s.engine.store, k, r)
    case None => NotFound
    case Some(slot) => Resolve(s.logs, slot)
  }

  // ---- the pass -----------------------------------------------------------------------------------------

  ghost predicate Generations(logs: Logs, gens: seq<nat>) {
    && (forall i, j :: 0 <= i < j < |gens| ==> gens[i] < gens[j])
    && forall g :: g in gens <==> g in logs
  }

  /** The entries `ScanEntries` finds in a generation. */
  function Visits(logs: Logs, g: nat): seq<Located>
    requires g in logs
  {
    Scan(logs[g], 0)
  }

  /** The visited entry is what the latest version of its key points at. */
  predicate IsLive(s: Sys, g: nat, l: Located)
    requires Readable(s.engine.store)
  {
    var slot := Get(s.engine.store, l.entry.key, MAX_SEQ);
    && slot.Some? && DecodePointer(slot.value).Some?
    && var p := DecodePointer(slot.value).value; p.vlog == g && p.offset == l.offset
  }

  predicate MayVisit(s: Sys) {
    && s.pass.Scanning? && s.pass.at < |s.pass.retired| && s.pass.retired[s.pass.at] in s.logs
    && Readable(s.engine.store)
  }

  /** The generation being visited, and the entry the pass is at. */
  function Visiting(s: Sys): nat
    requires MayVisit(s)
  {
    s.pass.retired[s.pass.at]
  }

  predicate AtEntry(s: Sys) {
    MayVisit(s) && s.pass.pos < |Visits(s.logs, Visiting(s))|
  }

  function EntryAtHand(s: Sys): Located
    requires AtEntry(s)
  {
    Visits(s.logs, Visiting(s))[s.pass.pos]
  }

  ghost function Visited(s: Sys): Sys
    requires AtEntry(s)
    requires var e := EntryAtHand(s).entry; IsLive(s, Visiting(s), EntryAtHand(s)) ==> CanWrite(s, e.key, e.value)
  {
    var e, next := EntryAtHand(s).entry, s.pass.(pos := s.pass.pos + 1);
    if IsLive(s, Visiting(s), EntryAtHand(s)) then
      Written(s, e.key, e.value).(pass := next.(rewritten := s.pass.rewritten + |e.value|))
    else s.(pass := next)
  }

  // ---- when a pass may retire ---------------------------------------------------------------------------

  /** The pointer the latest version of `k` holds, if any. */
  function LatestPointer(s: Sys, k: Key): Option<Pointer>
    requires Readable(s.engine.store)
  {
    var slot := Get(s.engine.store, k, MAX_SEQ);
    if slot.None? then None else DecodePointer(slot.value)
  }

  /**
   * Every latest pointer into one of the generations selects an offset that scanning the generation
   * visits. Behind a torn tail or a damaged entry this fails.
   */
  ghost predicate Collectable(s: Sys, gens: seq<nat>) {
    && Readable(s.engine.store)
    && forall k :: LatestPointer(s, k).Some? ==> PointerIn(s.logs, gens, LatestPointer(s, k).value)
  }

  ghost predicate PointerIn(logs: Logs, gens: seq<nat>, p: Pointer) {
    p.vlog in gens && p.vlog in logs ==> InScan(logs[p.vlog], p.offset)
  }

  /** The same on the tree's map of slots. */
  ghost predicate AllScanned(logs: Logs, gens: seq<nat>, now: map<Key, Bytes>) {
    forall k :: k in now && DecodePointer(now[k]).Some? ==> PointerIn(logs, gens, DecodePointer(now[k]).value)
  }

  // ---- steps --------------------------------------------------------------------------------------------

  ghost predicate CanStep(s: Sys, a: Step) {
    match a
    case PutValue(k, v) => CanWrite(s, k, v)
    case Delete(k) => s.engine.store.nextSeq < SEQ_LIMIT
    case Internal(a) => !a.Write? && !a.Publish? && !a.CrashAndOpen? && Enabled(s.engine, a)
    case GcStart(retired) => s.pass.Idle? && s.engine.store.snapshots == [] && Generations(s.logs, retired)
    case GcScan =>
      AtEntry(s) && var l := EntryAtHand(s); IsLive(s, Visiting(s), l) ==> CanWrite(s, l.entry.key, l.entry.value)
    case GcNext => MayVisit(s) && s.pass.pos == |Visits(s.logs, Visiting(s))|
    case GcRetire => s.pass.Scanning? && s.pass.at == |s.pass.retired| && s.engine.store.snapshots == []
    case GcAbandon => s.pass.Scanning? && s.pass.at == |s.pass.retired| && s.engine.store.snapshots != []
    case Crash(nextSeq, nextFile, inflight, written) =>
      && Enabled(s.engine, CrashAndOpen(nextSeq, nextFile)) && Covered(s.engine)
      && s.current in s.logs && (forall g :: g in s.logs ==> g < nextFile)
      && EntryOk(inflight) && written <= inflight.Size()
  }

  /** What a crash leaves of the entry being appended: any part of it, whole or torn, or nothing. */
  function Torn(inflight: Record, written: nat): Bytes
    requires written <= inflight.Size()
  {
    EncodeEntry(inflight)[..written]
  }

  ghost function Stepped(s: Sys, a: Step): Sys
    requires CanStep(s, a)
  {
    match a
    case PutValue(k, v) => Written(s, k, v)
    case Delete(k) => s.(engine := Apply(s.engine, Action.Write(k, Tombstone)))
    case Internal(a) => s.(engine := Apply(s.engine, a))
    case GcStart(retired) => Rotated(s, retired)
    case GcScan => Visited(s)
    case GcNext => s.(pass := s.pass.(at := s.pass.at + 1, pos := 0))
    case GcRetire => Retired(s)
    case GcAbandon => s.(pass := Idle)
    case Crash(nextSeq, nextFile, inflight, written) =>
      s.(engine := Apply(s.engine, CrashAndOpen(nextSeq, nextFile)), pass := Idle, gcFloor := 0,
         logs := Appended(s.logs, s.current, Torn(inflight, written)))
  }

  function Rotated(s: Sys, retired: seq<nat>): Sys {
    var gen := s.engine.nextFile;
    s.(engine := Published(s.engine.(nextFile := gen + 1)), logs := s.logs[gen := []], current := gen,
       pass := Scanning(retired, 0, 0, 0))
  }

  function Retired(s: Sys): Sys
    requires s.pass.Scanning?
  {
    s.(engine := Published(s.engine), pass := Idle, gcFloor := 2 * s.pass.rewritten,
       logs := map g | g in s.logs && g !in s.pass.retired :: s.logs[g])
  }

  /** The same step as the user sees it: collection is invisible. */
  function UserAction(a: Step): Action {
    match a
    case PutValue(k, v) => Action.Write(k, Put(v))
    case Delete(k) => Action.Write(k, Tombstone)
    case Internal(a) => a
    case Crash(nextSeq, nextFile, _, _) => CrashAndOpen(nextSeq, nextFile)
    case _ => Publish
  }

  // ---- invariant ----------------------------------------------------------------------------------------

  ghost predicate GensOk(s: Sys) {
    s.current in s.logs && s.current < s.engine.nextFile && forall g :: g in s.logs ==> g <= s.current
  }

  /** The pass is done with the entry that `p` selects. */
  ghost predicate Passed(logs: Logs, pass: Pass, p: Pointer)
    requires pass.Scanning?
  {
    p.vlog in logs && exists i: nat, j: nat ::
      && i < |pass.retired| && pass.retired[i] == p.vlog
      && j < |Visits(logs, p.vlog)| && Visits(logs, p.vlog)[j].offset == p.offset
      && (i < pass.at || (i == pass.at && j < pass.pos))
  }

  ghost predicate NonePassed(logs: Logs, pass: Pass, now: map<Key, Bytes>)
    requires pass.Scanning?
  {
    forall k :: k in now && DecodePointer(now[k]).Some? ==> !Passed(logs, pass, DecodePointer(now[k]).value)
  }

  ghost predicate PassOk(s: Sys, now: map<Key, Bytes>) {
    s.pass.Scanning? ==>
      && (forall i, j :: 0 <= i < j < |s.pass.retired| ==> s.pass.retired[i] < s.pass.retired[j])
      && (forall g :: g in s.logs <==> g in s.pass.retired || g == s.current)
      && s.current !in s.pass.retired
      && s.pass.at <= |s.pass.retired|
      && NonePassed(s.logs, s.pass, now)
  }

  /** `w` is the tree's view of slots, `u` the user's view of values. */
  ghost predicate SysInv(s: Sys, w: View, u: View) {
    && EngineInv(s.engine, w)
    && GensOk(s)
    && Agree(s.logs, w.now, u.now) && AllAgree(s.logs, w.frozen, u.frozen)
    && PassOk(s, w.now)
  }
}
