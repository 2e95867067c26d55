/** Theorems over whole runs of the engine with separated values and value-log collection. */
module GcRuns {
  import opened Seqs
  import opened Bytes
  import opened Keys
  import opened Entries
  import opened Lsm
  import opened LsmSteps
  import opened Engine
  import R = EngineRuns
  import opened VLog
  import opened Values
  import opened Gc
  import opened GcSteps

  /** A database life: its options, then its steps from a fresh directory. */
  datatype Life = Life(gcSize: nat, threshold: nat, steps: seq<Step>)

  function Earlier(l: Life): Life
    requires l.steps != []
  {
    l.(steps := Init(l.steps))
  }

  ghost predicate Possible(l: Life)
    decreases |l.steps|, 0
  {
    l.steps != [] ==> Possible(Earlier(l)) && CanStep(After(Earlier(l)), Last(l.steps))
  }

  ghost function After(l: Life): Sys
    requires Possible(l)
    decreases |l.steps|, 1
  {
    if l.steps == [] then Fresh(l.gcSize, l.threshold) else Stepped(After(Earlier(l)), Last(l.steps))
  }

  /** Every retirement in the life finds its generations collectable. */
  ghost predicate SafeRetirements(l: Life)
    requires Possible(l)
    decreases |l.steps|
  {
    l.steps != [] ==> SafeRetirements(Earlier(l)) && Safe(After(Earlier(l)), Last(l.steps))
  }

  ghost predicate Safe(s: Sys, a: Step) {
    a.GcRetire? && s.pass.Scanning? ==> Collectable(s, s.pass.retired)
  }

  /** The run as the user sees it. */
  function UserRun(steps: seq<Step>): (r: seq<Action>)
    ensures |r| == |steps|
  {
    if steps == [] then [] else UserRun(Init(steps)) + [UserAction(Last(steps))]
  }

  /** The tree's view after one step. */
  ghost function SlotView(s: Sys, w: View, a: Step): View
    requires CanStep(s, a)
  {
    match a
    case PutValue(k, v) => ViewWrite(w, k, Put(SlotFor(s.logs, s.current, s.threshold, v)))
    case GcScan => VisitView(s, w)
    case _ => ViewApply(w, UserAction(a))
  }

  lemma {:induction false} StepKeepsSysInv(s: Sys, w: View, u: View, a: Step)
    requires SysInv(s, w, u) && CanStep(s, a) && Safe(s, a)
    ensures SysInv(Stepped(s, a), SlotView(s, w, a), ViewApply(u, UserAction(a)))
  {
    hide SysInv, Written, CanWrite, Apply, Visited, Rotated, Retired, Enabled, Covered, Collectable, EntryOk;
    match a
    case PutValue(k, v) => WrittenKeepsInv(s, w, u, k, v);
    case Delete(k) => DeleteKeepsInv(s, w, u, k);
    case Internal(a) => InternalKeepsInv(s, w, u, a);
    case GcStart(retired) => StartKeepsInv(s, w, u, retired);
    case GcScan => ScanKeepsInv(s, w, u);
    case GcNext => NextKeepsInv(s, w, u);
    case GcRetire => RetireKeepsInv(s, w, u);
    case GcAbandon => AbandonKeepsInv(s, w, u);
    case Crash(nextSeq, nextFile, inflight, written) =>
      CrashKeepsInv(s, w, u, nextSeq, nextFile, inflight, written);
  }

  lemma {:induction false} ScanKeepsInv(s: Sys, w: View, u: View)
    requires SysInv(s, w, u) && CanStep(s, GcScan)
    ensures SysInv(Visited(s), VisitView(s, w), u)
  {
    hide SysInv, Written, CanWrite, IsLive, Visits;
    if IsLive(s, Visiting(s), EntryAtHand(s)) { LiveVisitKeepsInv(s, w, u); } else { DeadVisitKeepsInv(s, w, u); }
  }

  lemma {:induction false} AbandonKeepsInv(s: Sys, w: View, u: View)
    requires SysInv(s, w, u)
    ensures SysInv(s.(pass := Idle), w, u)
  {
    hide EngineInv, Agree;
  }

  lemma {:induction false} FreshInv(gcSize: nat, threshold: nat)
    ensures SysInv(Fresh(gcSize, threshold), NO_VIEW, NO_VIEW)
  {
    hide EngineInv;
    EngineStart();
  }

  lemma {:induction false} EngineStart()
    ensures EngineInv(INIT, NO_VIEW)
  {
    hide EngineInv;
    R.RunKeepsInv([]);
  }

  lemma {:induction false} LifeKeepsInv(l: Life) returns (w: View)
    requires Possible(l) && SafeRetirements(l)
    ensures SysInv(After(l), w, R.ViewAfter(UserRun(l.steps)))
    decreases |l.steps|
  {
    hide SysInv, CanStep, Stepped, SlotView, Safe;
    if l.steps == [] {
      FreshInv(l.gcSize, l.threshold);
      w := NO_VIEW;
    } else {
      var w0 := LifeKeepsInv(Earlier(l));
      StepKeepsSysInv(After(Earlier(l)), w0, R.ViewAfter(UserRun(Earlier(l).steps)), Last(l.steps));
      w := SlotView(After(Earlier(l)), w0, Last(l.steps));
      assert Init(UserRun(l.steps)) == UserRun(Earlier(l).steps);
    }
  }

  function Expected(o: Option<Bytes>): Reading {
    if o.None? then NotFound else Value(o.value)
  }

  lemma {:induction false} ReadAnswersSpec(s: Sys, w: View, u: View, k: Key)
    requires SysInv(s, w, u)
    ensures Readable(s.engine.store) && |s.engine.store.snapshots| == |u.frozen|
    ensures Read(s, k, MAX_SEQ) == Expected(Find(u.now, k))
    ensures forall i :: 0 <= i < |u.frozen| ==>
              Read(s, k, s.engine.store.snapshots[i]) == Expected(Find(u.frozen[i], k))
  {
    hide JobInv, NumbersInv, DiskInv, Resolve, Holds, PassOk, Recency, Bounded, ReadsAs;
    var st := s.engine.store;
    GetAnswersSpec(st, w, k);
    if k in w.now { HoldsResolves(s.logs, k, w.now[k], u.now[k]); }
    forall i | 0 <= i < |u.frozen| ensures Read(s, k, st.snapshots[i]) == Expected(Find(u.frozen[i], k)) {
      assert Agree(s.logs, w.frozen[i], u.frozen[i]);
      if k in w.frozen[i] { HoldsResolves(s.logs, k, w.frozen[i][k], u.frozen[i][k]); }
    }
  }

  /**
   * In every life of the database, collection passes and torn appends interleaved with everything
   * else: as long as retirements are safe, a latest read returns the value of the newest Put byte
   * for byte, a read at a live snapshot returns the newest value from before the snapshot, and
   * neither ever fails to resolve.
   */
  lemma {:induction false} ReadsReturnWhatWasPut(l: Life, k: Key)
    requires Possible(l) && SafeRetirements(l)
    ensures var s, run := After(l), UserRun(l.steps);
            && Readable(s.engine.store) && |s.engine.store.snapshots| == R.LiveSnapshots(run)
            && Read(s, k, MAX_SEQ) == Expected(R.Latest(run, k))
            && forall i :: 0 <= i < R.LiveSnapshots(run) ==>
                 Read(s, k, s.engine.store.snapshots[i]) == Expected(R.Latest(run[..R.TakenAt(run, i)], k))
  {
    hide SysInv, Read;
    var s, run := After(l), UserRun(l.steps);
    var w := LifeKeepsInv(l);
    ReadAnswersSpec(s, w, R.ViewAfter(run), k);
    R.ViewIsLatest(run, k);
    R.FrozenCount(run);
    forall i | 0 <= i < R.LiveSnapshots(run)
      ensures Read(s, k, s.engine.store.snapshots[i]) == Expected(R.Latest(run[..R.TakenAt(run, i)], k))
    {
      R.FrozenIsPast(run, i);
      R.ViewIsLatest(run[..R.TakenAt(run, i)], k);
    }
  }

  /** An entry a running pass is done with is never again what the latest version of a key points at. */
  lemma {:induction false} ScannedEntriesStayDead(l: Life, k: Key, p: Pointer)
    requires Possible(l) && SafeRetirements(l)
    requires After(l).pass.Scanning? && Passed(After(l).logs, After(l).pass, p)
    ensures Readable(After(l).engine.store)
    ensures var o := Get(After(l).engine.store, k, MAX_SEQ); o.Some? ==> DecodePointer(o.value) != Some(p)
  {
    hide JobInv, NumbersInv, DiskInv, Agree, Passed, Recency, Bounded, Represents, DecodePointer;
    var w := LifeKeepsInv(l);
    GetAnswersSpec(After(l).engine.store, w, k);
  }
}
