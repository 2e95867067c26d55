/** When a collection pass may retire the old generations, and what it loses otherwise. */
module GcSafety {
  import opened Seqs
  import opened Bytes
  import opened Keys
  import opened Entries
  import opened Lsm
  import opened Engine
  import R = EngineRuns
  import opened VLog
  import opened Values
  import opened Gc
  import opened GcSteps
  import opened GcRuns

  // ---- the exact condition ------------------------------------------------------------------------------

  /** Every latest read gives the same in both states. */
  ghost predicate SameReads(s: Sys, s': Sys) {
    && Readable(s.engine.store) && Readable(s'.engine.store)
    && forall k :: Read(s', k, MAX_SEQ) == Read(s, k, MAX_SEQ)
  }

  /**
   * At the end of a pass, whatever its generations hold and whatever ran in between: retiring them
   * keeps every latest read if and only if every latest pointer into them was visited. A key for
   * which this fails can be read before and not after.
   */
  lemma {:induction false} RetirementIsSafeIff(s: Sys, w: View, u: View)
    requires SysInv(s, w, u) && CanStep(s, GcRetire)
    ensures SameReads(s, Retired(s)) <==> Collectable(s, s.pass.retired)
    ensures !Collectable(s, s.pass.retired) ==>
              exists k :: k in u.now && Read(s, k, MAX_SEQ) == Value(u.now[k]) && Read(Retired(s), k, MAX_SEQ) == Failed
  {
    hide SysInv, Read, Collectable, CanStep, Retired;
    StaysReadable(s, w, u);
    if Collectable(s, s.pass.retired) {
      RetireKeepsInv(s, w, u);
      forall k ensures Read(Retired(s), k, MAX_SEQ) == Read(s, k, MAX_SEQ) {
        ReadAnswersSpec(s, w, u, k);
        ReadAnswersSpec(Retired(s), w, u, k);
      }
    } else {
      var k := LostKey(s, w, u);
      ReadAnswersSpec(s, w, u, k);
    }
  }

  lemma {:induction false} StaysReadable(s: Sys, w: View, u: View)
    requires SysInv(s, w, u) && CanStep(s, GcRetire)
    ensures Readable(s.engine.store) && Readable(Retired(s).engine.store) && s.pass.Scanning?
  {
    hide JobInv, NumbersInv, DiskInv, Bounded, Represents, Recency, Agree, AllAgree, PassOk;
  }

  lemma {:induction false} LostKey(s: Sys, w: View, u: View) returns (k: Key)
    requires SysInv(s, w, u) && CanStep(s, GcRetire) && !Collectable(s, s.pass.retired)
    ensures k in u.now && Readable(Retired(s).engine.store) && Read(Retired(s), k, MAX_SEQ) == Failed
  {
    hide JobInv, NumbersInv, DiskInv, Bounded, Represents, Recency, PassOk, DecodePointer, InScan, Holds;
    StaysReadable(s, w, u);
    k :| LatestPointer(s, k).Some? && !PointerIn(s.logs, s.pass.retired, LatestPointer(s, k).value);
    GetAnswersSpec(s.engine.store, w, k);
  }

  /** In every life so far safe, the next retirement is safe exactly under that condition. */
  lemma {:induction false} NextRetirementIsSafeIff(l: Life)
    requires Possible(l) && SafeRetirements(l) && CanStep(After(l), GcRetire)
    ensures SameReads(After(l), Retired(After(l))) <==> Collectable(After(l), After(l).pass.retired)
  {
    hide SysInv, Collectable, CanStep, Retired, SameReads, SafeRetirements;
    var w := LifeKeepsInv(l);
    RetirementIsSafeIff(After(l), w, R.ViewAfter(UserRun(l.steps)));
  }

  // ---- a condition to check before the pass ----------------------------------------------------------------

  /** Writes never add a pointer into the generations being collected. */
  lemma {:induction false} WriteKeepsCollectable(s: Sys, w: View, u: View, gens: seq<nat>, k: Key, v: Bytes)
    requires SysInv(s, w, u) && CanWrite(s, k, v) && s.current !in gens && AllScanned(s.logs, gens, w.now)
    ensures AllScanned(LogsFor(s.logs, s.current, s.threshold, k, v), gens,
                       w.now[k := SlotFor(s.logs, s.current, s.threshold, v)])
  {
    hide SysInv, DecodePointer, EncodePointer, InScan, EncodeEntry, EntryOk;
    var logs, slot := LogsFor(s.logs, s.current, s.threshold, k, v), SlotFor(s.logs, s.current, s.threshold, v);
    NotSeparatedIsInline(s, v);
    var now' := w.now[k := slot];
    forall k' | k' in now' && DecodePointer(now'[k']).Some?
      ensures PointerIn(logs, gens, DecodePointer(now'[k']).value)
    {
    }
  }

  /** While a pass runs, what was collectable stays collectable. */
  lemma {:induction false} StepKeepsCollectable(s: Sys, w: View, u: View, a: Step)
    requires SysInv(s, w, u) && CanStep(s, a) && s.pass.Scanning? && Stepped(s, a).pass.Scanning?
    requires AllScanned(s.logs, s.pass.retired, w.now)
    ensures Stepped(s, a).pass.retired == s.pass.retired
    ensures AllScanned(Stepped(s, a).logs, s.pass.retired, SlotView(s, w, a).now)
  {
    hide EngineInv, Agree, AllAgree, NonePassed, Apply, PointerIn, DecodePointer, Enabled, Covered, PointerOk, EntryOk,
      SlotFor, LogsFor, IsLive, Scan, EncodeEntry;
    match a
    case PutValue(k, v) => WriteKeepsCollectable(s, w, u, s.pass.retired, k, v);
    case GcScan =>
      var e := EntryAtHand(s).entry;
      if IsLive(s, Visiting(s), EntryAtHand(s)) {
        WriteKeepsCollectable(s, w, u, s.pass.retired, e.key, e.value);
      }
    case _ =>
  }

  lemma {:induction false} StartKeepsCollectable(s: Sys, w: View, u: View, retired: seq<nat>)
    requires SysInv(s, w, u) && CanStep(s, GcStart(retired))
    ensures AllScanned(Rotated(s, retired).logs, retired, w.now) <==> AllScanned(s.logs, retired, w.now)
  {
    hide EngineInv, Agree, AllAgree, DecodePointer, InScan;
    var logs, now := Rotated(s, retired).logs, w.now;
    forall k | k in now && DecodePointer(now[k]).Some?
      ensures PointerIn(logs, retired, DecodePointer(now[k]).value) <==>
                PointerIn(s.logs, retired, DecodePointer(now[k]).value)
    {
    }
  }

  /** Every pass in the life starts on generations that are collectable. */
  ghost predicate SafeStarts(l: Life)
    requires Possible(l)
    decreases |l.steps|
  {
    l.steps != [] ==>
      && SafeStarts(Earlier(l))
      && (Last(l.steps).GcStart? ==> Collectable(After(Earlier(l)), Last(l.steps).retired))
  }

  /** A running pass is over generations that are collectable. */
  ghost predicate PassIsSafe(s: Sys, w: View) {
    s.pass.Scanning? ==> AllScanned(s.logs, s.pass.retired, w.now)
  }

  lemma {:induction false} StepKeepsPassSafe(s: Sys, w: View, u: View, a: Step)
    requires SysInv(s, w, u) && CanStep(s, a) && PassIsSafe(s, w)
    requires a.GcStart? ==> Collectable(s, a.retired)
    ensures Safe(s, a) && PassIsSafe(Stepped(s, a), SlotView(s, w, a))
  {
    hide SysInv, AllScanned, Collectable, SlotView;
    if s.pass.Scanning? { CollectableIsAllScanned(s, w, u, s.pass.retired); }
    if a.GcStart? {
      CollectableIsAllScanned(s, w, u, a.retired);
      StartKeepsCollectable(s, w, u, a.retired);
      StartView(s, w, a);
    } else if s.pass.Scanning? && Stepped(s, a).pass.Scanning? {
      StepKeepsCollectable(s, w, u, a);
    }
  }

  lemma {:induction false} StartView(s: Sys, w: View, a: Step)
    requires CanStep(s, a) && a.GcStart?
    ensures SlotView(s, w, a) == w
  {
    hide CanStep;
  }

  /** Checking before each pass is enough, whatever is written while it runs. */
  lemma {:induction false} SafeStartsSuffice(l: Life) returns (w: View)
    requires Possible(l) && SafeStarts(l)
    ensures SafeRetirements(l)
    ensures SysInv(After(l), w, R.ViewAfter(UserRun(l.steps))) && PassIsSafe(After(l), w)
    decreases |l.steps|
  {
    hide SysInv, CanStep, Stepped, SlotView, Safe, PassIsSafe, Collectable;
    if l.steps == [] {
      FreshInv(l.gcSize, l.threshold);
      w := NO_VIEW;
      FreshIsSafe(l);
    } else {
      var w0 := SafeStartsSuffice(Earlier(l));
      var s, u, a := After(Earlier(l)), R.ViewAfter(UserRun(Earlier(l).steps)), Last(l.steps);
      StepKeepsPassSafe(s, w0, u, a);
      StepKeepsSysInv(s, w0, u, a);
      w := SlotView(s, w0, a);
      assert Init(UserRun(l.steps)) == UserRun(Earlier(l).steps);
    }
  }

  lemma {:induction false} FreshIsSafe(l: Life)
    requires l.steps == []
    ensures PassIsSafe(After(l), NO_VIEW)
  {
  }

  // ---- lives without a torn value-log tail -----------------------------------------------------------------

  /** Scans come to the end of every generation and visit what every latest pointer selects. */
  ghost predicate Intact(logs: Logs, now: map<Key, Bytes>) {
    && (forall g :: g in logs ==> ScanEnd(logs[g], 0) == |logs[g]|)
    && forall k :: k in now && DecodePointer(now[k]).Some? ==> Scannable(logs, DecodePointer(now[k]).value)
  }

  ghost predicate Scannable(logs: Logs, p: Pointer) {
    p.vlog in logs ==> InScan(logs[p.vlog], p.offset)
  }

  /** An entry appended to an intact file is visited, and so are all others still. */
  lemma {:induction false} EntryKeepsScan(f: Bytes, e: Record, off: nat)
    requires EntryOk(e) && ScanEnd(f, 0) == |f|
    ensures var g := f + EncodeEntry(e);
            ScanEnd(g, 0) == |g| && InScan(g, |f|) && (InScan(f, off) ==> InScan(g, off))
  {
    hide Scan, EncodeEntry;
    AppendedIsScannedIff(f, e);
    var g := f + EncodeEntry(e);
    assert Scan(g, 0)[|Scan(g, 0)| - 1] == Located(e, |f|);
    if InScan(f, off) {
      var l :| l in Scan(f, 0) && l.offset == off;
      assert l in Scan(g, 0);
    }
  }

  lemma {:induction false} EntryKeepsIntact(logs: Logs, now: map<Key, Bytes>, g: nat, e: Record)
    requires Intact(logs, now) && g in logs && EntryOk(e)
    ensures Intact(Appended(logs, g, EncodeEntry(e)), now)
    ensures InScan(Appended(logs, g, EncodeEntry(e))[g], |logs[g]|)
  {
    hide InScan, ScanEnd, EncodeEntry, EntryOk, DecodePointer;
    var logs' := Appended(logs, g, EncodeEntry(e));
    EntryKeepsScan(logs[g], e, 0);
    forall k | k in now && DecodePointer(now[k]).Some? ensures Scannable(logs', DecodePointer(now[k]).value) {
      EntryKeepsScan(logs[g], e, DecodePointer(now[k]).value.offset);
    }
  }

  lemma {:induction false} WriteKeepsIntact(s: Sys, now: map<Key, Bytes>, k: Key, v: Bytes)
    requires Intact(s.logs, now) && CanWrite(s, k, v)
    ensures Intact(LogsFor(s.logs, s.current, s.threshold, k, v), now[k := SlotFor(s.logs, s.current, s.threshold, v)])
  {
    hide InScan, ScanEnd, EncodeEntry, EntryOk, DecodePointer, EncodePointer;
    NotSeparatedIsInline(s, v);
    EntryKeepsIntact(s.logs, now, s.current, Record(k, v));
  }

  /** A crash leaves the entry in flight whole or not at all. */
  predicate Whole(a: Step) {
    a.Crash? ==> a.written == 0 || a.written == a.inflight.Size()
  }

  lemma {:induction false} NewGenerationKeepsIntact(
    logs: Logs, now: map<Key, Bytes>, user: map<Key, Bytes>, g: nat)
    requires Intact(logs, now) && Agree(logs, now, user) && g !in logs
    ensures Intact(logs[g := []], now)
  {
    hide Scan, InScan, DecodePointer, Selects;
    EmptyIsIntact();
    forall k | k in now && DecodePointer(now[k]).Some? ensures Scannable(logs[g := []], DecodePointer(now[k]).value) {
      assert Holds(logs, k, now[k], user[k]);
    }
  }

  lemma {:induction false} StepKeepsIntact(s: Sys, w: View, u: View, a: Step)
    requires SysInv(s, w, u) && CanStep(s, a) && Whole(a) && Intact(s.logs, w.now)
    ensures Intact(Stepped(s, a).logs, SlotView(s, w, a).now)
  {
    hide EngineInv, Agree, AllAgree, PassOk, Apply, InScan, DecodePointer, Enabled, Covered, PointerOk, EntryOk,
      SlotFor, LogsFor, IsLive, Scan, EncodeEntry;
    match a
    case PutValue(k, v) => WriteKeepsIntact(s, w.now, k, v);
    case GcScan =>
      var e := EntryAtHand(s).entry;
      if IsLive(s, Visiting(s), EntryAtHand(s)) { WriteKeepsIntact(s, w.now, e.key, e.value); }
    case GcStart(_) => NewGenerationKeepsIntact(s.logs, w.now, u.now, s.engine.nextFile);
    case Crash(_, _, inflight, written) =>
      var g := s.current;
      if written == 0 {
        assert s.logs[g] + Torn(inflight, 0) == s.logs[g];
        assert Appended(s.logs, g, Torn(inflight, 0)) == s.logs;
      } else {
        assert Torn(inflight, written) == EncodeEntry(inflight);
        EntryKeepsIntact(s.logs, w.now, g, inflight);
      }
    case _ =>
  }

  lemma {:induction false} IntactIsSafe(s: Sys, w: View, u: View, a: Step)
    requires SysInv(s, w, u) && Intact(s.logs, w.now)
    ensures Safe(s, a)
  {
    hide SysInv, Collectable, DecodePointer, InScan;
    if s.pass.Scanning? { CollectableIsAllScanned(s, w, u, s.pass.retired); }
  }

  /** No crash of the life tears a value-log entry. */
  predicate Untorn(l: Life) {
    forall i :: 0 <= i < |l.steps| ==> Whole(l.steps[i])
  }

  /** Without torn appends every retirement is safe, so every read of such a life is right. */
  lemma {:induction false} UntornLivesAreSafe(l: Life) returns (w: View)
    requires Possible(l) && Untorn(l)
    ensures SafeRetirements(l)
    ensures SysInv(After(l), w, R.ViewAfter(UserRun(l.steps))) && Intact(After(l).logs, w.now)
    decreases |l.steps|
  {
    hide SysInv, CanStep, Stepped, SlotView, Safe, Intact;
    if l.steps == [] {
      FreshInv(l.gcSize, l.threshold);
      w := NO_VIEW;
      assert Intact(map[1 := []], NO_VIEW.now) by { EmptyIsIntact(); }
    } else {
      var w0 := UntornLivesAreSafe(Earlier(l));
      var s, u, a := After(Earlier(l)), R.ViewAfter(UserRun(Earlier(l).steps)), Last(l.steps);
      IntactIsSafe(s, w0, u, a);
      StepKeepsIntact(s, w0, u, a);
      StepKeepsSysInv(s, w0, u, a);
      w := SlotView(s, w0, a);
      assert Init(UserRun(l.steps)) == UserRun(Earlier(l).steps);
    }
  }

  lemma {:induction false} EmptyIsIntact()
    ensures ScanEnd([], 0) == 0 && Intact(map[1 := []], NO_VIEW.now)
  {
  }
}
