/** Every step of the system with value-log collection keeps its invariant. */
module GcSteps {
  import opened Bytes
  import opened Keys
  import opened Entries
  import opened Lsm
  import opened LsmSteps
  import opened Engine
  import opened EngineSteps
  import opened EngineRuns
  import opened VLog
  import opened Values
  import opened Gc

  // ---- entries and pointers -----------------------------------------------------------------------------

  /** A pointer stored under `k` that a visit comes to selects an entry written for `k`. */
  lemma {:induction false} PointerNamesItsKey(logs: Logs, k: Key, slot: Bytes, v: Bytes, l: Located)
    requires Holds(logs, k, slot, v) && DecodePointer(slot).Some?
    requires var p := DecodePointer(slot).value; l in Visits(logs, p.vlog) && l.offset == p.offset
    ensures l.entry == Record(k, v)
  {
    hide DecodePointer, Scan, EncodeEntry, EntryOk;
    ScannedIsStored(logs[DecodePointer(slot).value.vlog], l, Record(k, v));
  }

  // ---- writes -------------------------------------------------------------------------------------------

  lemma {:induction false} WriteKeepsAgree(
    logs: Logs, raw: map<Key, Bytes>, user: map<Key, Bytes>, k: Key, slot: Bytes, v: Bytes)
    requires Agree(logs, raw, user) && Holds(logs, k, slot, v)
    ensures Agree(logs, raw[k := slot], user[k := v])
  {
    hide Holds;
  }

  lemma {:induction false} SeparatedWriteAgrees(s: Sys, w: View, u: View, k: Key, v: Bytes)
    requires SysInv(s, w, u) && CanWrite(s, k, v)
    ensures var slot, logs := SlotFor(s.logs, s.current, s.threshold, v), LogsFor(s.logs, s.current, s.threshold, k, v);
            Agree(logs, w.now[k := slot], u.now[k := v]) && AllAgree(logs, w.frozen, u.frozen)
  {
    hide EngineInv, Holds, PassOk, PointerOk, EncodeEntry, EntryOk;
    if Separates(v, s.threshold) {
      AppendKeepsAgree(s.logs, s.current, EncodeEntry(Record(k, v)), w.now, u.now);
      AppendKeepsAllAgree(s.logs, s.current, EncodeEntry(Record(k, v)), w.frozen, u.frozen);
    }
    SlotHolds(s.logs, s.current, s.threshold, k, v);
    WriteKeepsAgree(LogsFor(s.logs, s.current, s.threshold, k, v), w.now, u.now, k,
                    SlotFor(s.logs, s.current, s.threshold, v), v);
  }

  /** Appending to the current generation passes nothing over. */
  lemma {:induction false} WriteKeepsUnpassed(s: Sys, now: map<Key, Bytes>, k: Key, v: Bytes)
    requires s.pass.Scanning? && s.current in s.logs && s.current !in s.pass.retired
    requires NonePassed(s.logs, s.pass, now) && PointerOk(PointerTo(s.logs, s.current, v))
    ensures NonePassed(LogsFor(s.logs, s.current, s.threshold, k, v), s.pass,
                       now[k := SlotFor(s.logs, s.current, s.threshold, v)])
  {
    hide DecodePointer, EncodePointer, Scan, EncodeEntry;
    var logs, slot := LogsFor(s.logs, s.current, s.threshold, k, v), SlotFor(s.logs, s.current, s.threshold, v);
    PointerIffSeparated(s.logs, s.current, s.threshold, k, v);
    PointerRoundTrip(PointerTo(s.logs, s.current, v));
    var now' := now[k := slot];
    forall k' | k' in now' && DecodePointer(now'[k']).Some?
      ensures !Passed(logs, s.pass, DecodePointer(now'[k']).value)
    {
      var p := DecodePointer(now'[k']).value;
      if k' == k { NotSeparatedIsInline(s, v); }
      if Passed(logs, s.pass, p) { PassedBefore(s.logs, logs, s.pass, p); }
    }
  }

  /** Bytes appended elsewhere pass nothing. */
  lemma {:induction false} PassedBefore(logs: Logs, logs': Logs, pass: Pass, p: Pointer)
    requires pass.Scanning? && Passed(logs', pass, p)
    requires forall g :: g in pass.retired && g in logs' ==> g in logs && logs[g] == logs'[g]
    ensures p.vlog in pass.retired && Passed(logs, pass, p)
  {
    hide Scan;
    var i: nat, j: nat :|
      && i < |pass.retired| && pass.retired[i] == p.vlog
      && j < |Visits(logs', p.vlog)| && Visits(logs', p.vlog)[j].offset == p.offset
      && (i < pass.at || (i == pass.at && j < pass.pos));
    assert Visits(logs, p.vlog) == Visits(logs', p.vlog);
  }

  lemma {:induction false} NotSeparatedIsInline(s: Sys, v: Bytes)
    requires s.current in s.logs && PointerOk(PointerTo(s.logs, s.current, v))
    ensures var o := DecodePointer(SlotFor(s.logs, s.current, s.threshold, v));
            o.Some? ==> o.value == PointerTo(s.logs, s.current, v)
  {
    PointerRoundTrip(PointerTo(s.logs, s.current, v));
  }

  lemma {:induction false} WrittenKeepsInv(s: Sys, w: View, u: View, k: Key, v: Bytes)
    requires SysInv(s, w, u) && CanWrite(s, k, v)
    ensures var slot := SlotFor(s.logs, s.current, s.threshold, v);
            SysInv(Written(s, k, v), ViewWrite(w, k, Put(slot)), ViewWrite(u, k, Put(v)))
  {
    hide EngineInv, Agree, AllAgree, NonePassed, PointerOk, SlotFor, PointerTo, EntryOk, EncodeEntry, Apply;
    var slot := SlotFor(s.logs, s.current, s.threshold, v);
    WriteKeepsFile(s.engine, k, Put(slot));
    SeparatedWriteAgrees(s, w, u, k, v);
    WriteStep(s.engine, w, k, Put(slot));
    if s.pass.Scanning? { WriteKeepsUnpassed(s, w.now, k, v); }
  }

  lemma {:induction false} WriteKeepsFile(e: Engine, k: Key, slot: Slot)
    requires Enabled(e, Action.Write(k, slot))
    ensures Apply(e, Action.Write(k, slot)).nextFile == e.nextFile
  {
  }

  // ---- the pass -----------------------------------------------------------------------------------------

  /** With the entry at hand dead, or just rewritten, the pass may step over it. */
  lemma {:induction false} MayPassOver(
    logs: Logs, pass: Pass, now: map<Key, Bytes>, user: map<Key, Bytes>, l: Located, rewritten: nat)
    requires pass.Scanning? && pass.at < |pass.retired| && NonePassed(logs, pass, now)
    requires var g := pass.retired[pass.at]; g in logs && pass.pos < |Visits(logs, g)| && l == Visits(logs, g)[pass.pos]
    requires Agree(logs, now, user)
    requires l.entry.key in now && DecodePointer(now[l.entry.key]).Some? ==>
               var p := DecodePointer(now[l.entry.key]).value; p.vlog != pass.retired[pass.at] || p.offset != l.offset
    ensures NonePassed(logs, pass.(pos := pass.pos + 1, rewritten := rewritten), now)
  {
    hide Holds, Scan, DecodePointer;
    var g := pass.retired[pass.at];
    forall k | k in now && DecodePointer(now[k]).Some?
      ensures !Passed(logs, pass.(pos := pass.pos + 1, rewritten := rewritten), DecodePointer(now[k]).value)
    {
      var p := DecodePointer(now[k]).value;
      if p.vlog == g && p.offset == l.offset {
        PointerNamesItsKey(logs, k, now[k], user[k], l);
      }
    }
  }

  /** The tree's view after the visit. */
  ghost function VisitView(s: Sys, w: View): View
    requires AtEntry(s)
  {
    if IsLive(s, Visiting(s), EntryAtHand(s)) && s.current in s.logs then
      ViewWrite(w, EntryAtHand(s).entry.key, Put(SlotFor(s.logs, s.current, s.threshold, EntryAtHand(s).entry.value)))
    else w
  }

  /** A live entry holds the value the user has under its key, so rewriting it changes nothing. */
  lemma {:induction false} RewriteIsInvisible(s: Sys, w: View, u: View)
    requires SysInv(s, w, u) && AtEntry(s) && IsLive(s, Visiting(s), EntryAtHand(s))
    ensures var e := EntryAtHand(s).entry; ViewWrite(u, e.key, Put(e.value)) == u
  {
    hide JobInv, NumbersInv, DiskInv, Shape, Bounded, Represents, Holds, Scan, DecodePointer, NonePassed;
    var e := EntryAtHand(s).entry;
    GetAnswersSpec(s.engine.store, w, e.key);
    PointerNamesItsKey(s.logs, e.key, w.now[e.key], u.now[e.key], EntryAtHand(s));
    assert u.now[e.key := e.value] == u.now;
  }

  lemma {:induction false} DeadVisitKeepsInv(s: Sys, w: View, u: View)
    requires SysInv(s, w, u) && AtEntry(s) && !IsLive(s, Visiting(s), EntryAtHand(s))
    ensures SysInv(s.(pass := s.pass.(pos := s.pass.pos + 1)), w, u)
  {
    hide JobInv, NumbersInv, DiskInv, Shape, Bounded, Represents, Agree, AllAgree, Scan, DecodePointer, NonePassed;
    GetAnswersSpec(s.engine.store, w, EntryAtHand(s).entry.key);
    MayPassOver(s.logs, s.pass, w.now, u.now, EntryAtHand(s), s.pass.rewritten);
  }

  lemma {:induction false} LiveVisitKeepsInv(s: Sys, w: View, u: View)
    requires SysInv(s, w, u) && CanStep(s, GcScan) && IsLive(s, Visiting(s), EntryAtHand(s))
    ensures SysInv(Visited(s), VisitView(s, w), u)
  {
    hide EngineInv, Agree, AllAgree, Scan, DecodePointer, NonePassed, PointerOk, Apply, IsLive, SlotFor, PointerTo,
      EntryOk;
    var g, e := Visiting(s), EntryAtHand(s).entry;
    WrittenKeepsInv(s, w, u, e.key, e.value);
    RewriteIsInvisible(s, w, u);
    var s', w' := Written(s, e.key, e.value), VisitView(s, w);
    NotSeparatedIsInline(s, e.value);
    assert PointerTo(s.logs, s.current, e.value).vlog != g by { PointerGen(s, e.value); }
    assert s'.logs[g] == s.logs[g];
    MayPassOver(s'.logs, s'.pass, w'.now, u.now, EntryAtHand(s), s.pass.rewritten + |e.value|);
  }

  lemma {:induction false} PointerGen(s: Sys, v: Bytes)
    requires s.current in s.logs
    ensures PointerTo(s.logs, s.current, v).vlog == s.current
  {
  }

  lemma {:induction false} NextKeepsInv(s: Sys, w: View, u: View)
    requires SysInv(s, w, u) && CanStep(s, GcNext)
    ensures SysInv(Stepped(s, GcNext), w, u)
  {
    hide EngineInv, Agree, AllAgree, Scan, DecodePointer;
    var pass' := s.pass.(at := s.pass.at + 1, pos := 0);
    forall p | Passed(s.logs, pass', p) ensures Passed(s.logs, s.pass, p) {
      var i: nat, j: nat :|
        && i < |pass'.retired| && pass'.retired[i] == p.vlog
        && j < |Visits(s.logs, p.vlog)| && Visits(s.logs, p.vlog)[j].offset == p.offset
        && (i < pass'.at || (i == pass'.at && j < pass'.pos));
      assert i < s.pass.at || (i == s.pass.at && j < s.pass.pos);
    }
  }

  // ---- retirement ---------------------------------------------------------------------------------------

  /** Once every entry is visited, a latest pointer into a retired generation selects nothing visited. */
  lemma {:induction false} NothingVisitedPointsBack(s: Sys, w: View, u: View, k: Key)
    requires SysInv(s, w, u) && s.pass.Scanning? && s.pass.at == |s.pass.retired| && k in w.now
    requires DecodePointer(w.now[k]).Some? && PointerIn(s.logs, s.pass.retired, DecodePointer(w.now[k]).value)
    ensures DecodePointer(w.now[k]).value.vlog !in s.pass.retired
  {
    hide EngineInv, Scan, DecodePointer, EncodeEntry;
    var p := DecodePointer(w.now[k]).value;
    assert Holds(s.logs, k, w.now[k], u.now[k]);
    if p.vlog in s.pass.retired { VisitedIsPassed(s.logs, s.pass, p); }
  }

  lemma {:induction false} VisitedIsPassed(logs: Logs, pass: Pass, p: Pointer)
    requires pass.Scanning? && pass.at == |pass.retired| && p.vlog in pass.retired && p.vlog in logs
    requires InScan(logs[p.vlog], p.offset)
    ensures Passed(logs, pass, p)
  {
    hide Scan;
    var l :| l in Visits(logs, p.vlog) && l.offset == p.offset;
    var j :| 0 <= j < |Visits(logs, p.vlog)| && Visits(logs, p.vlog)[j] == l;
    var i :| 0 <= i < |pass.retired| && pass.retired[i] == p.vlog;
  }

  lemma {:induction false} RetireKeepsAgree(s: Sys, w: View, u: View)
    requires SysInv(s, w, u) && s.pass.Scanning? && s.pass.at == |s.pass.retired|
    requires AllScanned(s.logs, s.pass.retired, w.now)
    ensures Agree(Retired(s).logs, w.now, u.now)
  {
    hide EngineInv, DecodePointer, PointerIn, Selects;
    var logs := Retired(s).logs;
    forall k | k in w.now ensures Holds(logs, k, w.now[k], u.now[k]) {
      assert Holds(s.logs, k, w.now[k], u.now[k]);
      if DecodePointer(w.now[k]).Some? {
        NothingVisitedPointsBack(s, w, u, k);
        var p := DecodePointer(w.now[k]).value;
        assert logs[p.vlog] == s.logs[p.vlog];
      }
    }
  }

  /** The condition on reads is the condition on the map of slots. */
  lemma {:induction false} CollectableIsAllScanned(s: Sys, w: View, u: View, gens: seq<nat>)
    requires SysInv(s, w, u)
    ensures Collectable(s, gens) <==> AllScanned(s.logs, gens, w.now)
  {
    hide JobInv, NumbersInv, DiskInv, Bounded, Represents, Recency, Agree, AllAgree, PassOk, DecodePointer, PointerIn;
    forall k ensures LatestPointer(s, k) == if k in w.now then DecodePointer(w.now[k]) else None {
      GetAnswersSpec(s.engine.store, w, k);
    }
  }

  lemma {:induction false} RetireKeepsInv(s: Sys, w: View, u: View)
    requires SysInv(s, w, u) && CanStep(s, GcRetire) && Collectable(s, s.pass.retired)
    ensures SysInv(Retired(s), w, u)
  {
    hide Inv, JobInv, NumbersInv, DiskInv, Agree, NonePassed, Collectable, AllScanned;
    CollectableIsAllScanned(s, w, u, s.pass.retired);
    RetireKeepsAgree(s, w, u);
    SnapshotsMatch(s.engine.store, w);
    PublishStep(s.engine, w);
  }

  lemma {:induction false} BumpKeepsInv(e: Engine, w: View)
    requires EngineInv(e, w)
    ensures EngineInv(e.(nextFile := e.nextFile + 1), w)
  {
    hide Inv, JobInv, LogsApart;
    assert forall f :: InVersion(e.store.version, f) ==> f.number < e.nextFile + 1;
  }

  lemma {:induction false} NewGenerationKeepsAgree(logs: Logs, g: nat, raw: map<Key, Bytes>, user: map<Key, Bytes>)
    requires g !in logs && Agree(logs, raw, user)
    ensures Agree(logs[g := []], raw, user)
  {
    hide DecodePointer, Selects;
    forall k | k in raw ensures Holds(logs[g := []], k, raw[k], user[k]) {
      assert Holds(logs, k, raw[k], user[k]);
      if DecodePointer(raw[k]).Some? {
        assert logs[g := []][DecodePointer(raw[k]).value.vlog] == logs[DecodePointer(raw[k]).value.vlog];
      }
    }
  }

  lemma {:induction false} StartKeepsInv(s: Sys, w: View, u: View, retired: seq<nat>)
    requires SysInv(s, w, u) && CanStep(s, GcStart(retired))
    ensures SysInv(Rotated(s, retired), w, u)
  {
    hide Inv, JobInv, NumbersInv, DiskInv, Agree, Scan, DecodePointer;
    SnapshotsMatch(s.engine.store, w);
    NewGenerationKeepsAgree(s.logs, s.engine.nextFile, w.now, u.now);
    BumpKeepsInv(s.engine, w);
    PublishStep(s.engine.(nextFile := s.engine.nextFile + 1), w);
  }

  // ---- everything else ----------------------------------------------------------------------------------

  lemma {:induction false} DeleteKeepsInv(s: Sys, w: View, u: View, k: Key)
    requires SysInv(s, w, u) && CanStep(s, Delete(k))
    ensures SysInv(Stepped(s, Delete(k)), ViewWrite(w, k, Tombstone), ViewWrite(u, k, Tombstone))
  {
    hide Inv, JobInv, NumbersInv, DiskInv, Holds, Scan, DecodePointer;
    WriteStep(s.engine, w, k, Tombstone);
  }

  lemma {:induction false} InternalKeepsInv(s: Sys, w: View, u: View, a: Action)
    requires SysInv(s, w, u) && CanStep(s, Internal(a))
    ensures SysInv(Stepped(s, Internal(a)), ViewApply(w, a), ViewApply(u, a))
  {
    hide EngineInv, Agree, NonePassed, JobInv;
    StepKeepsInv(s.engine, w, a);
  }

  lemma {:induction false} CrashKeepsInv(
    s: Sys, w: View, u: View, nextSeq: nat, nextFile: nat, inflight: Record, written: nat)
    requires SysInv(s, w, u) && CanStep(s, Crash(nextSeq, nextFile, inflight, written))
    ensures SysInv(Stepped(s, Crash(nextSeq, nextFile, inflight, written)), View(w.now, []), View(u.now, []))
  {
    hide EngineInv, Agree, NonePassed, EntryOk, Covered, EncodeEntry;
    StepKeepsInv(s.engine, w, CrashAndOpen(nextSeq, nextFile));
    AppendKeepsAgree(s.logs, s.current, Torn(inflight, written), w.now, u.now);
  }
}
