/** One undisturbed collection pass over the value logs, and when it leaves another one to be done. */
module GcPass {
  import opened Bytes
  import opened Keys
  import opened Entries
  import opened Versions
  import opened Lsm
  import E = Engine
  import opened VLog
  import opened Values
  import opened Gc
  import opened GcSteps
  import opened GcRuns
  import opened GcSafety
  import opened Lookups
  import opened Database
  import Lru

  /** What of the rewritten entries lands in the fresh generation. */
  function Separated(es: seq<Record>, threshold: nat): seq<Record> {
    if es == [] then []
    else
      var last := es[|es| - 1];
      Separated(es[..|es| - 1], threshold) + if Separates(last.value, threshold) then [last] else []
  }

  function ValueBytes(es: seq<Record>): nat {
    if es == [] then 0 else ValueBytes(es[..|es| - 1]) + |es[|es| - 1].value|
  }

  function OverheadBytes(es: seq<Record>): nat {
    if es == [] then 0 else OverheadBytes(es[..|es| - 1]) + ENTRY_HEADER + |es[|es| - 1].key|
  }

  function FileBytes(es: seq<Record>): nat {
    |FileOf(es)|
  }

  lemma {:induction false} FileOfSnoc(es: seq<Record>, e: Record)
    ensures FileOf(es + [e]) == FileOf(es) + EncodeEntry(e)
  {
    hide EncodeEntry;
    assert (es + [e])[..|es|] == es;
  }

  lemma {:induction false} SeparatedSize(es: seq<Record>, threshold: nat)
    ensures FileBytes(Separated(es, threshold)) <= OverheadBytes(es) + ValueBytes(es)
    ensures (forall i :: 0 <= i < |es| ==> Separates(es[i].value, threshold)) ==>
              FileBytes(Separated(es, threshold)) == OverheadBytes(es) + ValueBytes(es)
  {
    hide EncodeEntry, FileOf, Separates;
    if es == [] {
      EmptyFile();
    } else {
      var init, last := es[..|es| - 1], es[|es| - 1];
      SeparatedSize(init, threshold);
      FileOfSnoc(Separated(init, threshold), last);
      assert Separated(init, threshold) + [] == Separated(init, threshold);
      assert forall i :: 0 <= i < |init| ==> init[i] == es[i];
    }
  }

  lemma {:induction false} EmptyFile()
    ensures FileOf([]) == []
  {
  }

  /** `VlogGcNeeded`. */
  predicate Needed(s: Sys)
    requires s.current in s.logs
  {
    && s.engine.store.snapshots == []
    && (|s.logs| > 1 || |s.logs[s.current]| >= if s.gcSize > s.gcFloor then s.gcSize else s.gcFloor)
  }

  /** What a pass that rewrote `live` leaves behind. */
  predicate Collected(s: Sys, live: seq<Record>) {
    s.logs == map[s.current := FileOf(Separated(live, s.threshold))] && s.gcFloor == 2 * ValueBytes(live)
  }

  /**
   * The anti-livelock bound. A pass is not followed by another one when the rewritten values outweigh
   * their keys and headers, or when all that was rewritten stays below the trigger; if all of it is
   * separated again, only then.
   */
  lemma {:induction false} NoLivelock(s: Sys, live: seq<Record>)
    requires Collected(s, live) && s.engine.store.snapshots == []
    ensures OverheadBytes(live) < ValueBytes(live) || OverheadBytes(live) + ValueBytes(live) < s.gcSize ==> !Needed(s)
    ensures (forall i :: 0 <= i < |live| ==> Separates(live[i].value, s.threshold)) ==>
              (!Needed(s) <==>
                OverheadBytes(live) < ValueBytes(live) || OverheadBytes(live) + ValueBytes(live) < s.gcSize)
  {
    hide FileOf, OverheadBytes, ValueBytes, Separates;
    SeparatedSize(live, s.threshold);
    assert |s.logs| == 1;
  }

  /**
   * Whether a pass is due: never with separation off, no value log open or a snapshot alive;
   * otherwise when a generation is left over or the current one has reached both thresholds. On an
   * idle database the pass can then start.
   */
  method VlogGcNeeded(db: Db, separation: bool) returns (b: bool)
    ensures b <==> && separation && db.current in db.vlogs && db.snapshots == []
                   && (|| |db.vlogs| > 1
                       || (|db.vlogs[db.current]| >= db.gcSize && |db.vlogs[db.current]| >= db.gcFloor))
    ensures b <==> separation && db.current in db.vlogs && Needed(db.State())
    ensures b && db.pass.Idle? ==> exists retired :: CanStep(db.State(), GcStart(retired))
  {
    if !separation || db.current !in db.vlogs { return false; }
    if db.snapshots != [] { return false; }
    ghost var retired := OrderExists(db.vlogs.Keys);
    assert db.pass.Idle? ==> CanStep(db.State(), GcStart(retired));
    if |db.vlogs| > 1 { return true; }
    var trigger := if db.gcSize > db.gcFloor then db.gcSize else db.gcFloor;
    b := |db.vlogs[db.current]| >= trigger;
  }

  // ---- the generations to collect -------------------------------------------------------------------------

  function Place(gens: seq<nat>, g: nat): (r: seq<nat>)
    ensures forall x :: x in r <==> x in gens || x == g
  {
    if gens == [] || g <= gens[0] then [g] + gens else [gens[0]] + Place(gens[1..], g)
  }

  ghost predicate Ascending(gens: seq<nat>) {
    forall i, j :: 0 <= i < j < |gens| ==> gens[i] < gens[j]
  }

  lemma {:induction false} PlaceAscends(gens: seq<nat>, g: nat)
    requires Ascending(gens) && g !in gens
    ensures Ascending(Place(gens, g))
  {
    if gens != [] && g > gens[0] {
      PlaceAscends(gens[1..], g);
      var rest := Place(gens[1..], g);
      forall j | 0 <= j < |rest| ensures gens[0] < rest[j] { assert rest[j] in rest; }
    }
  }

  lemma {:induction false} OrderExists(keys: set<nat>) returns (gens: seq<nat>)
    ensures Ascending(gens) && forall g :: g in gens <==> g in keys
    decreases |keys|
  {
    if keys == {} {
      gens := [];
    } else {
      var k :| k in keys;
      var rest := OrderExists(keys - {k});
      PlaceAscends(rest, k);
      gens := Place(rest, k);
    }
  }

  /** The generations in the order the map holds them. */
  method InOrder(logs: Logs) returns (gens: seq<nat>)
    ensures Generations(logs, gens)
  {
    gens := [];
    var left := logs.Keys;
    while left != {}
      invariant left <= logs.Keys && Ascending(gens)
      invariant forall g :: g in gens <==> g in logs && g !in left
      decreases |left|
    {
      var g :| g in left;
      PlaceAscends(gens, g);
      gens := Place(gens, g);
      left := left - {g};
    }
  }

  // ---- the pass -------------------------------------------------------------------------------------------

  /** Step 1: rotate to a fresh generation and publish it. */
  method Begin(db: Db, ghost retired: seq<nat>)
    requires db.Valid() && CanStep(db.State(), GcStart(retired))
    modifies db`nextFile, db`vlogs, db`current, db`manifest, db`pass
    ensures db.Valid() && db.State() == Rotated(old(db.State()), retired)
  {
    hide SysInv, db.CacheOk, Stepped, CanStep;
    ghost var s := db.State();
    StartKeepsInv(s, db.raw, db.user, retired);
    db.CacheHasShards();
    NewGenerationKeepsCache(db);
    var gen := db.nextFile;
    db.nextFile := gen + 1;
    db.vlogs := db.vlogs[gen := []];
    db.current := gen;
    db.manifest := E.Manifest(db.version, db.logNumber);
    db.pass := Scanning(retired, 0, 0, 0);
  }

  lemma {:induction false} NewGenerationKeepsCache(db: Db)
    requires db.cache.shards != [] && db.CacheOk(db.vlogs, db.nextFile)
    ensures db.CacheOk(db.vlogs[db.nextFile := []], db.nextFile + 1)
  {
    hide DecodePointer;
  }

  /**
   * Step 3: drop the old generations, set the floor for the next pass and publish. If a latest
   * pointer into them was not visited, what it points at is lost.
   */
  method End(db: Db, retired: seq<nat>, rewritten: nat)
    requires db.Valid() && CanStep(db.State(), GcRetire)
    requires db.pass.Scanning? && db.pass.retired == retired && db.pass.rewritten == rewritten
    modifies db`vlogs, db`gcFloor, db`manifest, db`pass
    ensures db.State() == Retired(old(db.State()))
    ensures old(AllScanned(db.vlogs, retired, db.raw.now)) ==> db.Valid()
    ensures !old(AllScanned(db.vlogs, retired, db.raw.now)) ==> LosesReads(db.State(), db.user)
  {
    hide SysInv, db.CacheOk, Stepped, CanStep, AllScanned, LosesReads;
    EndFacts(db.State(), db.raw, db.user);
    db.CacheHasShards();
    RetireKeepsCache(db);
    db.vlogs := map g | g in db.vlogs && g !in retired :: db.vlogs[g];
    db.gcFloor := 2 * rewritten;
    db.manifest := E.Manifest(db.version, db.logNumber);
    db.pass := Idle;
  }

  /** Some key the user has can no longer be read. */
  ghost predicate LosesReads(s: Sys, u: View) {
    Readable(s.engine.store) && exists k :: k in u.now && Read(s, k, MAX_SEQ) == Failed
  }

  lemma {:induction false} EndFacts(s: Sys, w: View, u: View)
    requires SysInv(s, w, u) && CanStep(s, GcRetire)
    ensures if AllScanned(s.logs, s.pass.retired, w.now) then SysInv(Retired(s), w, u) else LosesReads(Retired(s), u)
  {
    hide SysInv, CanStep, AllScanned, Collectable, Retired, Read;
    StaysReadable(s, w, u);
    CollectableIsAllScanned(s, w, u, s.pass.retired);
    if AllScanned(s.logs, s.pass.retired, w.now) {
      RetireKeepsInv(s, w, u);
    } else {
      RetirementIsSafeIff(s, w, u);
    }
  }

  lemma {:induction false} RetireKeepsCache(db: Db)
    requires db.cache.shards != [] && db.CacheOk(db.vlogs, db.nextFile) && db.pass.Scanning?
    ensures db.CacheOk(Retired(db.State()).logs, db.nextFile)
  {
    hide DecodePointer;
  }

  /** The pass is at entry `l` of generation `g` and can rewrite it if need be. */
  ghost predicate Facing(s: Sys, g: nat, l: Located) {
    CanStep(s, GcScan) && AtEntry(s) && l == EntryAtHand(s) && g == Visiting(s)
  }

  ghost predicate LiveAt(s: Sys, g: nat, l: Located) {
    Readable(s.engine.store) && IsLive(s, g, l)
  }

  /** The visit of one entry: rewrite it if it is live. */
  method Visit(db: Db, g: nat, l: Located, rewritten: nat) returns (wrote: bool, rewritten': nat)
    requires db.Valid() && Facing(db.State(), g, l) && db.pass.Scanning? && rewritten == db.pass.rewritten
    modifies db
    ensures db.Valid() && db.user == old(db.user) && db.snapshots == old(db.snapshots)
    ensures wrote == LiveAt(old(db.State()), g, l)
    ensures rewritten' == rewritten + if wrote then |l.entry.value| else 0
    ensures db.pass == old(db.pass).(pos := old(db.pass).pos + 1, rewritten := rewritten')
    ensures old(db.current) in old(db.vlogs) && db.current == old(db.current) && db.gcFloor == old(db.gcFloor)
    ensures db.vlogs == if wrote then LogsFor(old(db.vlogs), db.current, db.threshold, l.entry.key, l.entry.value)
              else old(db.vlogs)
    ensures db.nextSeq == old(db.nextSeq) + if wrote then 1 else 0
    ensures AllScanned(db.vlogs, db.pass.retired, db.raw.now) <==>
              old(AllScanned(db.vlogs, db.pass.retired, db.raw.now))
    ensures wrote ==> l.entry.key in db.user.now && db.user.now[l.entry.key] == l.entry.value
  {
    hide SysInv, db.CacheOk, Stepped, Visits, DecodePointer, Lookup, SlotFor, LogsFor, Written, CanWrite, AllScanned;
    ghost var s := db.State();
    LogIsOpen(s, db.raw, db.user);
    ScanKeepsInv(s, db.raw, db.user);
    VersionIsGood(s, db.raw, db.user);
    var o := LookupIn(db.mem, db.imm, db.version, l.entry.key, MAX_SEQ);
    wrote, rewritten' := false, rewritten;
    if o.Some? && o.value.slot.Put? {
      var p := DecodePointer(o.value.slot.value);
      wrote := p.Some? && p.value.vlog == g && p.value.offset == l.offset;
    }
    if wrote {
      RewriteIsInvisible(s, db.raw, db.user);
      RewriteKeepsScanned(s, db.raw, db.user);
      db.WriteValue(l.entry.key, l.entry.value);
      rewritten' := rewritten + |l.entry.value|;
    }
    db.pass := s.pass.(pos := s.pass.pos + 1, rewritten := rewritten');
  }

  /** A rewritten entry was visited, so its rewriting changes nothing about what is not visited. */
  lemma {:induction false} RewriteKeepsScanned(s: Sys, w: View, u: View)
    requires SysInv(s, w, u) && CanStep(s, GcScan) && IsLive(s, Visiting(s), EntryAtHand(s))
    ensures var e := EntryAtHand(s).entry;
            && CanWrite(s, e.key, e.value)
            && (AllScanned(LogsFor(s.logs, s.current, s.threshold, e.key, e.value), s.pass.retired,
                           w.now[e.key := SlotFor(s.logs, s.current, s.threshold, e.value)])
                <==> AllScanned(s.logs, s.pass.retired, w.now))
  {
    hide E.JobInv, E.NumbersInv, E.DiskInv, Bounded, Represents, Recency, Agree, AllAgree, NonePassed, DecodePointer,
      Scan,
      EncodeEntry, EntryOk, PointerOk, SlotFor, EncodePointer;
    var l := EntryAtHand(s);
    var e := l.entry;
    var slot, logs := SlotFor(s.logs, s.current, s.threshold, e.value),
      LogsFor(s.logs, s.current, s.threshold, e.key, e.value);
    GetAnswersSpec(s.engine.store, w, e.key);
    if AllScanned(s.logs, s.pass.retired, w.now) {
      WriteKeepsCollectable(s, w, u, s.pass.retired, e.key, e.value);
    }
    if AllScanned(logs, s.pass.retired, w.now[e.key := slot]) {
      forall k | k in w.now && DecodePointer(w.now[k]).Some?
        ensures PointerIn(s.logs, s.pass.retired, DecodePointer(w.now[k]).value)
      {
        if k == e.key {
          assert l in Visits(s.logs, Visiting(s));
        } else {
          assert k in w.now[e.key := slot] && w.now[e.key := slot][k] == w.now[k];
        }
      }
    }
  }

  /** Entries that scans visit, and bytes, in the listed generations. */
  function Count(logs: Logs, gens: seq<nat>): nat {
    if gens == [] then 0 else (if gens[0] in logs then |Visits(logs, gens[0])| else 0) + Count(logs, gens[1..])
  }

  function Volume(logs: Logs, gens: seq<nat>): nat {
    if gens == [] then 0 else (if gens[0] in logs then |logs[gens[0]]| else 0) + Volume(logs, gens[1..])
  }

  /** Sequence numbers and file offsets suffice to rewrite everything. */
  ghost predicate HasRoom(logs: Logs, nextSeq: nat, nextFile: nat) {
    forall gens :: Generations(logs, gens) ==>
      nextFile < U64 && nextSeq + Count(logs, gens) <= SEQ_LIMIT && Volume(logs, gens) < U64
  }

  /** Each rewritten entry holds what the user has under its key. */
  ghost predicate Current(live: seq<Record>, now: map<Key, Bytes>) {
    forall i :: 0 <= i < |live| ==> live[i].key in now && now[live[i].key] == live[i].value
  }

  /** Where a pass over `logs` stands after rewriting `live`; `ok` if scans visit every latest pointer. */
  ghost predicate Stands(
    db: Db, logs: Logs, retired: seq<nat>, at: nat, pos: nat, live: seq<Record>, user: View, ok: bool)
    reads db, db.cache.shards
  {
    && db.Valid() && db.user == user && db.snapshots == []
    && db.pass == Scanning(retired, at, pos, ValueBytes(live)) && at <= |retired|
    && (forall g :: g in retired ==> g in logs && g in db.vlogs && db.vlogs[g] == logs[g] && g != db.current)
    && db.current < U64 && db.current in db.vlogs && db.vlogs[db.current] == FileOf(Separated(live, db.threshold))
    && Current(live, user.now)
    && ok == AllScanned(db.vlogs, retired, db.raw.now)
  }

  /** Room for `count` more entries of `volume` bytes. */
  ghost predicate Spare(db: Db, count: nat, volume: nat)
    reads db`nextSeq, db`current, db`vlogs
  {
    db.nextSeq + count <= SEQ_LIMIT && db.current in db.vlogs && |db.vlogs[db.current]| + volume < U64
  }

  lemma {:induction false} SpareForLess(db: Db, count: nat, volume: nat, less: nat)
    requires Spare(db, count, volume) && less <= volume
    ensures Spare(db, count, less)
  {
  }

  lemma {:induction false} FacesEntry(s: Sys, w: View, u: View)
    requires SysInv(s, w, u) && s.pass.Scanning? && s.pass.at < |s.pass.retired|
    requires var g := s.pass.retired[s.pass.at]; g in s.logs && s.pass.pos < |Visits(s.logs, g)|
    requires s.current in s.logs && s.current < U64 && |s.logs[s.current]| < U64 && s.engine.store.nextSeq < SEQ_LIMIT
    ensures var g := s.pass.retired[s.pass.at]; Facing(s, g, Visits(s.logs, g)[s.pass.pos])
  {
    hide E.JobInv, E.NumbersInv, E.DiskInv, Bounded, Represents, Recency, Agree, AllAgree, NonePassed, Scan, IsLive;
    var g := s.pass.retired[s.pass.at];
    ScannedEntry(s.logs[g], 0, Visits(s.logs, g)[s.pass.pos]);
  }

  /** What a visit does to the two records of progress. */
  lemma {:induction false} VisitAdds(live: seq<Record>, e: Record, threshold: nat)
    ensures Separated(live + [e], threshold) == Separated(live, threshold) + if Separates(e.value, threshold)
              then [e] else []
    ensures ValueBytes(live + [e]) == ValueBytes(live) + |e.value|
  {
    assert (live + [e])[..|live|] == live;
  }

  method VisitAndDrain(
    db: Db, ghost logs: Logs, retired: seq<nat>, at: nat, ghost pos: nat, l: Located, rewritten: nat,
    ghost live: seq<Record>, ghost user: View, ghost ok: bool, ghost count: nat, ghost volume: nat)
    returns (rewritten': nat, ghost live': seq<Record>)
    requires Stands(db, logs, retired, at, pos, live, user, ok) && at < |retired| && pos < |Visits(logs, retired[at])|
    requires l == Visits(logs, retired[at])[pos] && rewritten == ValueBytes(live)
    requires Spare(db, count + 1, volume + l.entry.Size())
    modifies db
    ensures Stands(db, logs, retired, at, pos + 1, live', user, ok)
    ensures rewritten' == ValueBytes(live') && Spare(db, count, volume) && db.current == old(db.current) && db.imm.None?
  {
    hide SysInv, db.CacheOk, Lru.Cache.Valid, Facing, LiveAt, Scan, EncodeEntry, FileOf, ValueBytes, Separated,
      AllScanned;
    FacesEntry(db.State(), db.raw, db.user);
    VisitAdds(live, l.entry, db.threshold);
    FileOfSnoc(Separated(live, db.threshold), l.entry);
    var wrote;
    wrote, rewritten' := Visit(db, retired[at], l, rewritten);
    live' := if wrote then live + [l.entry] else live;
    assert Separated(live, db.threshold) + [] == Separated(live, db.threshold);
    if db.imm.Some? { db.FlushImm(); }
  }

  function BytesFrom(found: seq<Located>, pos: nat): nat
    requires pos <= |found|
    decreases |found| - pos
  {
    if pos == |found| then 0 else found[pos].entry.Size() + BytesFrom(found, pos + 1)
  }

  /** What a scan visits is no more than the file. */
  lemma {:induction false} ScannedBytes(f: Bytes, off: nat, found: seq<Located>, pos: nat)
    requires pos <= |found| && found[pos..] == Scan(f, off) && off <= |f|
    ensures off + BytesFrom(found, pos) <= |f|
    decreases |found| - pos
  {
    hide Scan;
    if pos < |found| {
      FirstScanned(f, off);
      assert found[pos..][1..] == found[pos + 1..];
      assert found[pos] == found[pos..][0];
      ScannedBytes(f, off + found[pos].entry.Size(), found, pos + 1);
    }
  }

  /** Step 2 for one generation: every entry its scan visits, in file order. */
  method VisitGeneration(
    db: Db, ghost logs: Logs, retired: seq<nat>, at: nat, rewritten: nat,
    ghost live: seq<Record>, ghost user: View, ghost ok: bool, ghost count: nat, ghost volume: nat)
    returns (rewritten': nat, ghost live': seq<Record>)
    requires Stands(db, logs, retired, at, 0, live, user, ok) && at < |retired| && rewritten == ValueBytes(live)
    requires Spare(db, count + |Visits(logs, retired[at])|, volume + |logs[retired[at]]|)
    modifies db
    ensures Stands(db, logs, retired, at + 1, 0, live', user, ok)
    ensures rewritten' == ValueBytes(live') && Spare(db, count, volume) && db.current == old(db.current)
  {
    hide SysInv, db.CacheOk, Lru.Cache.Valid, ValueBytes, Separated, FileOf, Scan, AllScanned, Spare, Current;
    var found := Visits(db.vlogs, retired[at]);
    assert found[0..] == found;
    ScannedBytes(logs[retired[at]], 0, found, 0);
    SpareForLess(db, count + |found|, volume + |logs[retired[at]]|, volume + BytesFrom(found, 0));
    rewritten', live' := rewritten, live;
    for pos: nat := 0 to |found|
      invariant Stands(db, logs, retired, at, pos, live', user, ok) && rewritten' == ValueBytes(live')
      invariant Spare(db, count + |found| - pos, volume + BytesFrom(found, pos)) && db.current == old(db.current)
    {
      rewritten', live' := VisitAndDrain(db, logs, retired, at, pos, found[pos], rewritten', live', user, ok,
                                         count + |found| - pos - 1, volume + BytesFrom(found, pos + 1));
    }
    MayAdvance(db.State(), db.raw, db.user);
    assert volume + BytesFrom(found, |found|) == volume;
    Advance(db);
  }

  lemma {:induction false} MayAdvance(s: Sys, w: View, u: View)
    requires SysInv(s, w, u) && s.pass.Scanning? && s.pass.at < |s.pass.retired|
    requires s.pass.retired[s.pass.at] in s.logs && s.pass.pos == |Visits(s.logs, s.pass.retired[s.pass.at])|
    ensures CanStep(s, GcNext)
  {
    hide E.JobInv, E.NumbersInv, E.DiskInv, Bounded, Represents, Recency, Agree, AllAgree, NonePassed, Scan;
  }

  /** The scan of one generation is over: on to the next. */
  ghost method Advance(db: Db)
    requires db.Valid() && CanStep(db.State(), GcNext) && db.pass.Scanning?
    modifies db`pass
    ensures db.Valid() && db.pass == old(db.pass).(at := old(db.pass).at + 1, pos := 0)
  {
    hide SysInv, db.CacheOk, CanStep;
    NextKeepsInv(db.State(), db.raw, db.user);
    db.CacheHasShards();
    db.pass := db.pass.(at := db.pass.at + 1, pos := 0);
  }

  /**
   * A pass with nothing else going on, over files of arbitrary bytes. It leaves one generation, which
   * holds the rewritten entries and nothing else; each of those is what the user has under its key.
   * It keeps the user's view if and only if, before it, scans visit what every latest pointer
   * selects; otherwise some key the user has can no longer be read. With a snapshot alive, and only
   * then, it does nothing.
   */
  method RunVlogGC(db: Db) returns (ghost live: seq<Record>)
    requires db.Valid() && db.pass.Idle? && HasRoom(db.vlogs, db.nextSeq, db.nextFile)
    modifies db
    ensures db.pass.Idle? && db.user == old(db.user) && db.snapshots == old(db.snapshots)
    ensures db.snapshots != [] ==> db.Valid()
    ensures db.State() == old(db.State()) <==> db.snapshots != []
    ensures db.snapshots == [] ==> Collected(db.State(), live) && Current(live, db.user.now)
    ensures db.snapshots == [] && old(EverythingScanned(db.State())) ==> db.Valid()
    ensures db.snapshots == [] && !old(EverythingScanned(db.State())) ==> LosesReads(db.State(), db.user)
  {
    hide SysInv, db.CacheOk, Lru.Cache.Valid, ValueBytes, Separated, FileOf, Spare, Count, Volume, HasRoom, AllScanned,
      EverythingScanned, LosesReads, Collected, Current, Stands;
    live := [];
    if db.snapshots != [] { return; }
    ghost var logs, user, ok := db.vlogs, db.user, EverythingScanned(db.State());
    LogIsOpen(db.State(), db.raw, db.user);
    var retired := Prepare(db);
    var rewritten := 0;
    for at: nat := 0 to |retired|
      invariant Stands(db, logs, retired, at, 0, live, user, ok) && rewritten == ValueBytes(live)
      invariant Spare(db, Count(logs, retired[at..]), Volume(logs, retired[at..]))
    {
      RestOf(logs, retired, at);
      rewritten, live := VisitGeneration(db, logs, retired, at, rewritten, live, user, ok,
                                         Count(logs, retired[at + 1..]), Volume(logs, retired[at + 1..]));
    }
    StandsElsewhere(db, logs, retired, |retired|, live, user, ok, old(db.current));
    Finish(db, logs, retired, rewritten, live, user, ok);
  }

  lemma {:induction false} StandsElsewhere(
    db: Db, logs: Logs, retired: seq<nat>, at: nat, live: seq<Record>, user: View, ok: bool, g: nat)
    requires Stands(db, logs, retired, at, 0, live, user, ok) && g in retired
    ensures db.current != g
  {
    hide SysInv, db.CacheOk, Lru.Cache.Valid, ValueBytes, Separated, FileOf, AllScanned, Current;
  }

  /** The background thread's turn: a pass that is due never ends where it began. */
  method CollectIfNeeded(db: Db, separation: bool) returns (ran: bool, ghost live: seq<Record>)
    requires db.Valid() && db.pass.Idle? && HasRoom(db.vlogs, db.nextSeq, db.nextFile)
    modifies db
    ensures ran == old(separation && db.current in db.vlogs && Needed(db.State()))
    ensures db.State() == old(db.State()) <==> !ran
    ensures ran ==> Collected(db.State(), live) && Current(live, db.user.now) && db.user == old(db.user)
  {
    hide SysInv, db.CacheOk, Lru.Cache.Valid, HasRoom, Collected, Current, EverythingScanned, LosesReads;
    live := [];
    ran := VlogGcNeeded(db, separation);
    if ran { live := RunVlogGC(db); }
  }

  method Finish(
    db: Db, ghost logs: Logs, retired: seq<nat>, rewritten: nat, ghost live: seq<Record>, ghost user: View,
    ghost ok: bool)
    requires Stands(db, logs, retired, |retired|, 0, live, user, ok) && rewritten == ValueBytes(live)
    modifies db`vlogs, db`gcFloor, db`manifest, db`pass
    ensures db.pass.Idle? && db.user == user && db.snapshots == []
    ensures Collected(db.State(), live) && Current(live, user.now)
    ensures if ok then db.Valid() else LosesReads(db.State(), db.user)
  {
    hide SysInv, db.CacheOk, Lru.Cache.Valid, ValueBytes, Separated, FileOf, AllScanned, LosesReads;
    RetireFacts(db.State(), db.raw, db.user);
    End(db, retired, rewritten);
  }

  /** Every latest pointer selects an offset that scanning its generation visits. */
  ghost predicate EverythingScanned(s: Sys) {
    && Readable(s.engine.store)
    && forall k :: LatestPointer(s, k).Some? ==> Scannable(s.logs, LatestPointer(s, k).value)
  }

  lemma {:induction false} EverythingIsAllGenerations(s: Sys, gens: seq<nat>)
    requires Generations(s.logs, gens)
    ensures EverythingScanned(s) <==> Collectable(s, gens)
  {
    hide InScan, LatestPointer;
  }

  method Prepare(db: Db) returns (retired: seq<nat>)
    requires db.Valid() && db.pass.Idle? && HasRoom(db.vlogs, db.nextSeq, db.nextFile) && db.snapshots == []
    modifies db`nextFile, db`vlogs, db`current, db`manifest, db`pass
    ensures Stands(db, old(db.vlogs), retired, 0, 0, [], old(db.user), old(EverythingScanned(db.State())))
    ensures ValueBytes([]) == 0 && forall g :: g in retired <==> g in old(db.vlogs)
    ensures Spare(db, Count(old(db.vlogs), retired[0..]), Volume(old(db.vlogs), retired[0..]))
  {
    hide SysInv, db.CacheOk, Lru.Cache.Valid, Count, Volume, Spare, EverythingScanned, AllScanned, Collectable;
    retired := InOrder(db.vlogs);
    assert retired[0..] == retired;
    ghost var s := db.State();
    StartFacts(s, db.raw, db.user, retired);
    EverythingIsAllGenerations(s, retired);
    CollectableIsAllScanned(s, db.raw, db.user, retired);
    StartKeepsCollectable(s, db.raw, db.user, retired);
    ghost var count, volume := Count(db.vlogs, retired), Volume(db.vlogs, retired);
    Begin(db, retired);
    AtStart(db, count, volume);
  }

  lemma {:induction false} AtStart(db: Db, count: nat, volume: nat)
    requires db.current in db.vlogs && db.vlogs[db.current] == [] && db.nextSeq + count <= SEQ_LIMIT && volume < U64
    ensures Spare(db, count, volume)
  {
  }

  lemma {:induction false} RestOf(logs: Logs, retired: seq<nat>, at: nat)
    requires at < |retired| && retired[at] in logs
    ensures Count(logs, retired[at..]) == Count(logs, retired[at + 1..]) + |Visits(logs, retired[at])|
    ensures Volume(logs, retired[at..]) == Volume(logs, retired[at + 1..]) + |logs[retired[at]]|
  {
    hide Scan;
    assert retired[at..][1..] == retired[at + 1..];
  }

  lemma {:induction false} StartFacts(s: Sys, w: View, u: View, retired: seq<nat>)
    requires SysInv(s, w, u) && Generations(s.logs, retired)
    ensures forall g :: g in retired ==> g in s.logs && g != s.engine.nextFile
  {
    hide E.EngineInv, Agree, AllAgree, PassOk;
  }

  /** At the end only the current generation is not retired. */
  lemma {:induction false} RetireFacts(s: Sys, w: View, u: View)
    requires SysInv(s, w, u) && s.pass.Scanning?
    ensures s.current in s.logs && Retired(s).logs == map[s.current := s.logs[s.current]]
  {
    hide E.EngineInv, Agree, AllAgree, NonePassed;
  }
}
