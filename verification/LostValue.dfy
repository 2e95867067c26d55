/** A life in which a torn value-log append, survived by Open, makes a later collection lose a live value. */
module LostValue {
  import opened Seqs
  import opened Bytes
  import opened Keys
  import opened Entries
  import opened Lsm
  import opened Engine
  import EngineSteps
  import R = EngineRuns
  import opened VLog
  import opened Values
  import opened Gc
  import opened GcSteps
  import opened GcRuns

  /**
   * The process dies after one byte of its first value; reopened, it stores `v` under `k` behind
   * that byte; then a collection pass runs to its end with nothing else going on.
   */
  function Steps(inflight: Record, k: Key, v: Bytes): seq<Step> {
    [Crash(1, 2, inflight, 1), PutValue(k, v), GcStart([1]), GcNext, GcRetire]
  }

  /** The pair fits its fields, is separated, and its key is not too short for its value. */
  predicate Fits(k: Key, v: Bytes, threshold: nat) {
    && EntryOk(Record(k, v)) && |v| >= threshold
    && 0 < |k| < 0x100_0000 && |k| + |v| + 1 < 256 * |k|
  }

  lemma {:induction false} Extend(l: Life, a: Step)
    requires Possible(l) && CanStep(After(l), a)
    ensures var l' := l.(steps := l.steps + [a]); Possible(l') && After(l') == Stepped(After(l), a)
  {
    hide CanStep, Stepped;
    var l' := l.(steps := l.steps + [a]);
    assert Init(l'.steps) == l.steps;
    assert Earlier(l') == l;
  }

  // ---- the states of the life -------------------------------------------------------------------------------

  function Reopened(gcSize: nat, threshold: nat, x: byte): Sys {
    Fresh(gcSize, threshold).(logs := map[1 := [x]])
  }

  lemma {:induction false} EmptyReopens()
    ensures Enabled(INIT, CrashAndOpen(1, 2)) && Covered(INIT) && Apply(INIT, CrashAndOpen(1, 2)) == INIT
  {
    hide EngineInv, Covered;
    EngineSteps.InitInv();
    EngineSteps.InitStore(INIT.store);
    EngineSteps.InitNumbers();
    assert Recovered(INIT, 1) == INIT.store;
    assert LiveLogs(INIT) == map[1 := []];
  }

  lemma {:induction false} CrashHappens(gcSize: nat, threshold: nat, inflight: Record)
    requires EntryOk(inflight)
    ensures var s, a := Fresh(gcSize, threshold), Crash(1, 2, inflight, 1);
            CanStep(s, a) && Stepped(s, a) == Reopened(gcSize, threshold, EncodeEntry(inflight)[0])
  {
    hide Enabled, Apply, Covered, EncodeEntry, EntryOk;
    EmptyReopens();
    assert Torn(inflight, 1) == [EncodeEntry(inflight)[0]];
    assert [] + Torn(inflight, 1) == Torn(inflight, 1);
  }

  /** After the Put: the tree's slot for `k` points behind the leftover byte. */
  ghost predicate PutDone(s: Sys, w: View, u: View, x: byte, k: Key, v: Bytes) {
    && SysInv(s, w, u) && s.logs == map[1 := [x] + EncodeEntry(Record(k, v))] && s.pass.Idle?
    && s.engine.store.snapshots == []
    && k in w.now && DecodePointer(w.now[k]) == Some(Pointer(1, 1, |v|))
  }

  lemma {:induction false} PutHappens(s: Sys, x: byte, k: Key, v: Bytes)
    requires s == Reopened(s.gcSize, s.threshold, x) && Fits(k, v, s.threshold)
    ensures var a := PutValue(k, v);
            && CanStep(s, a) && Stepped(s, a).logs == map[1 := [x] + EncodeEntry(Record(k, v))]
            && Stepped(s, a).pass.Idle? && Stepped(s, a).engine.store.snapshots == []
            && SlotView(s, NO_VIEW, a).now == map[k := SlotFor(s.logs, 1, s.threshold, v)]
            && DecodePointer(SlotFor(s.logs, 1, s.threshold, v)) == Some(Pointer(1, 1, |v|))
  {
    hide EncodeEntry, DecodePointer, EncodePointer;
    PointerRoundTrip(Pointer(1, 1, |v|));
  }

  lemma {:induction false} UpToPut(l: Life, inflight: Record, k: Key, v: Bytes) returns (w: View, u: View)
    requires l.steps == [Crash(1, 2, inflight, 1), PutValue(k, v)] && EntryOk(inflight) && Fits(k, v, l.threshold)
    ensures Possible(l) && PutDone(After(l), w, u, EncodeEntry(inflight)[0], k, v)
  {
    hide SysInv, Stepped, CanStep, SlotView, EncodeEntry, EntryOk, DecodePointer, SlotFor, Fits;
    var s, x, a, b := Fresh(l.gcSize, l.threshold), EncodeEntry(inflight)[0], Crash(1, 2, inflight, 1), PutValue(k, v);
    FreshInv(l.gcSize, l.threshold);
    CrashHappens(l.gcSize, l.threshold, inflight);
    StepKeepsSysInv(s, NO_VIEW, NO_VIEW, a);
    assert SlotView(s, NO_VIEW, a) == NO_VIEW by { CrashView(s, a); }
    var s' := Stepped(s, a);
    PutHappens(s', x, k, v);
    StepKeepsSysInv(s', NO_VIEW, NO_VIEW, b);
    w, u := SlotView(s', NO_VIEW, b), ViewApply(NO_VIEW, UserAction(b));
    Extend(l.(steps := []), a);
    assert [] + [a] == [a] && [a] + [b] == l.steps;
    Extend(l.(steps := [a]), b);
  }

  lemma {:induction false} CrashView(s: Sys, a: Step)
    requires CanStep(s, a) && a.Crash?
    ensures SlotView(s, NO_VIEW, a) == NO_VIEW
  {
    hide CanStep;
  }

  /** The pass over generation 1: its scan finds nothing, so it is over at once. */
  lemma {:induction false} UpToRetire(s: Sys, w: View, u: View, x: byte, k: Key, v: Bytes)
    requires PutDone(s, w, u, x, k, v) && Fits(k, v, 0)
    ensures CanStep(s, GcStart([1])) && CanStep(Stepped(s, GcStart([1])), GcNext)
    ensures var s' := Stepped(Stepped(s, GcStart([1])), GcNext);
            s'.pass.Scanning? && s'.pass.retired == [1] && CanStep(s', GcRetire) && SysInv(s', w, u)
  {
    hide EngineInv, Agree, AllAgree, NonePassed, EncodeEntry, Scan, DecodePointer;
    assert Generations(s.logs, [1]);
    var s' := Rotated(s, [1]);
    StartKeepsInv(s, w, u, [1]);
    TornTailScansNothing(x, Record(k, v));
    IsReadable(s', w, u);
    NextKeepsInv(s', w, u);
  }

  lemma {:induction false} IsReadable(s: Sys, w: View, u: View)
    requires SysInv(s, w, u)
    ensures Readable(s.engine.store)
  {
    hide JobInv, NumbersInv, DiskInv, Bounded, Represents, Recency, Agree, AllAgree, PassOk;
  }

  lemma {:induction false} AfterRetire(s: Sys, w: View, u: View, k: Key)
    requires SysInv(s, w, u) && s.pass.Scanning? && s.pass.retired == [1]
    requires k in w.now && DecodePointer(w.now[k]).Some? && DecodePointer(w.now[k]).value.vlog == 1
    ensures Readable(Retired(s).engine.store) && Read(Retired(s), k, MAX_SEQ) == Failed
  {
    hide JobInv, NumbersInv, DiskInv, Bounded, Represents, Recency, Agree, AllAgree, PassOk, DecodePointer;
    GetAnswersSpec(s.engine.store, w, k);
  }

  lemma {:induction false} LatestPut(inflight: Record, k: Key, v: Bytes)
    ensures R.Latest(UserRun(Steps(inflight, k, v)), k) == Some(v)
  {
    var t := Steps(inflight, k, v);
    assert t[..5] == t && Init(t) == t[..4] && Init(t[..4]) == t[..3] && Init(t[..3]) == t[..2];
    UserSnoc(t[..4], GcRetire);
    UserSnoc(t[..3], GcNext);
    UserSnoc(t[..2], GcStart([1]));
    UserSnoc(t[..1], PutValue(k, v));
    assert t[..2] == t[..1] + [PutValue(k, v)] && t[..3] == t[..2] + [GcStart([1])];
    assert t[..4] == t[..3] + [GcNext] && t == t[..4] + [GcRetire];
  }

  lemma {:induction false} UserSnoc(t: seq<Step>, a: Step)
    ensures UserRun(t + [a]) == UserRun(t) + [UserAction(a)]
    ensures forall k :: R.LastWrite(UserRun(t + [a]), k)
              == if UserAction(a).Write?
                && UserAction(a).key == k then Some(UserAction(a).slot) else R.LastWrite(UserRun(t), k)
  {
    assert Init(t + [a]) == t;
    var run := UserRun(t);
    assert Init(run + [UserAction(a)]) == run;
  }

  /**
   * The value was acknowledged, it is what the user put last, and after the pass reading it fails:
   * the retired file held it, but no scan could see it.
   */
  lemma {:induction false} TornTailLosesLiveValue(gcSize: nat, threshold: nat, inflight: Record, k: Key, v: Bytes)
    requires EntryOk(inflight) && Fits(k, v, threshold)
    ensures var l := Life(gcSize, threshold, Steps(inflight, k, v));
            && Possible(l) && R.Latest(UserRun(l.steps), k) == Some(v)
            && Readable(After(l).engine.store) && Read(After(l), k, MAX_SEQ) == Failed
  {
    hide SysInv, CanStep, EncodeEntry, EntryOk, DecodePointer, Readable, Read;
    var l := Life(gcSize, threshold, [Crash(1, 2, inflight, 1), PutValue(k, v)]);
    var w, u := UpToPut(l, inflight, k, v);
    UpToRetire(After(l), w, u, EncodeEntry(inflight)[0], k, v);
    Extend(l, GcStart([1]));
    var l' := l.(steps := l.steps + [GcStart([1])]);
    Extend(l', GcNext);
    l' := l'.(steps := l'.steps + [GcNext]);
    AfterRetire(After(l'), w, u, k);
    Extend(l', GcRetire);
    assert l'.steps + [GcRetire] == Steps(inflight, k, v);
    LatestPut(inflight, k, v);
  }
}
