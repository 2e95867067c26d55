/** The database object: its fields, and its operations one at a time. */
module Database {
  import opened Bytes
  import opened Keys
  import opened Entries
  import opened Versions
  import opened Lsm
  import opened LsmSteps
  import E = Engine
  import opened VLog
  import opened Values
  import opened Gc
  import opened GcSteps
  import opened GcRuns
  import opened Lookups
  import Lru
  import Scanning

  class Db {
    var mem: seq<Entry>
    var imm: Option<seq<Entry>>
    var installed: bool
    var version: Version
    var nextSeq: nat
    var snapshots: seq<nat>
    var logNumber: nat
    var immLog: nat
    var immTable: nat
    var nextFile: nat
    var logs: map<nat, seq<Entry>>
    var manifest: E.Manifest
    var vlogs: Logs
    var current: nat
    var gcFloor: nat
    const gcSize: nat
    const threshold: nat
    const writeBuffer: nat
    const memSize: seq<Entry> -> nat
    const fileSize: seq<Entry> -> nat
    const cache: Lru.Cache
    ghost var pass: Pass
    ghost var raw: View
    ghost var user: View

    ghost function Engine(): E.Engine
      reads this
    {
      E.Engine(Store(mem, imm, installed, version, nextSeq, snapshots), E.NoJob, logNumber, immLog, immTable, nextFile,
        logs, manifest)
    }

    ghost function State(): Sys
      reads this
    {
      Sys(Engine(), vlogs, current, pass, gcFloor, gcSize, threshold)
    }

    /** The state is one the system can reach, and it stands for the user's map and frozen maps. */
    ghost predicate Valid()
      reads this, cache.shards
    {
      && SysInv(State(), raw, user) && !installed
      && memSize([]) < writeBuffer
      && cache.Valid() && CacheOk(vlogs, nextFile)
    }

    ghost predicate CacheOk(logs: Logs, next: nat)
      reads cache.shards
      requires cache.shards != []
    {
      forall slot, v :: cache.Holds(slot, v) ==> CachedOk(logs, slot, v, next)
    }

    /** A fresh directory. */
    constructor (gcSize: nat, threshold: nat, writeBuffer: nat, memSize: seq<Entry> -> nat, fileSize: seq<Entry> -> nat,
                 hash: Bytes -> nat)
      requires memSize([]) < writeBuffer
      ensures Valid() && user == View(map[], []) && pass.Idle? && fresh(cache) && fresh(cache.shards)
      ensures this.gcSize == gcSize && this.threshold == if threshold < 64 then 64 else threshold
      ensures this.writeBuffer == writeBuffer && this.memSize == memSize && this.fileSize == fileSize
    {
      hide SysInv;
      mem, imm, installed, version, nextSeq, snapshots := [], None, false, E.EMPTY, 1, [];
      logNumber, immLog, immTable, nextFile, logs, manifest := 1, 0, 0, 2, map[1 := []], E.Manifest(E.EMPTY, 1);
      vlogs, current, gcFloor := map[1 := []], 1, 0;
      this.gcSize, this.threshold := gcSize, if threshold < MIN_THRESHOLD then MIN_THRESHOLD else threshold;
      this.writeBuffer, this.memSize, this.fileSize := writeBuffer, memSize, fileSize;
      cache := new Lru.Cache(16, 0x200_0000, hash);
      pass, raw, user := Idle, E.NO_VIEW, E.NO_VIEW;
      FreshInv(gcSize, if threshold < MIN_THRESHOLD then MIN_THRESHOLD else threshold);
    }

    // ---- reads ----------------------------------------------------------------------------------------

    /** The slot is inline or points into a generation that is still there. */
    predicate Alive(slot: Bytes)
      reads this`vlogs
    {
      DecodePointer(slot).Some? ==> DecodePointer(slot).value.vlog in vlogs
    }

    /**
     * A slot's value, through the cache. A pointer into a generation that is gone fails, unless the
     * cache still answers for it.
     */
    method MaybeResolvePointer(slot: Bytes) returns (r: Reading)
      requires Valid()
      modifies cache.shards
      ensures Valid()
      ensures Alive(slot) ==> r == Resolve(vlogs, slot)
      ensures !Alive(slot) && r.Value? ==> cache.shards != [] && old(cache.Holds(slot, r.bytes))
      ensures !Alive(slot) && !r.Value? ==> r == Failed && cache.shards != [] && forall v :: !old(cache.Holds(slot, v))
    {
      hide SysInv, DecodePointer, ReadValue, Lru.Cache.Valid;
      var o := DecodePointer(slot);
      if o.None? { return Value(slot); }
      CacheHasShards();
      var hit := cache.Get(slot);
      if hit.Some? { return Value(hit.value); }
      if o.value.vlog !in vlogs { return Failed; }
      GenerationIsOld(State(), raw, user, o.value.vlog);
      match ReadValue(vlogs[o.value.vlog], o.value.offset, o.value.size) {
        case Found(v) =>
          cache.Put(slot, v);
          r := Value(v);
        case _ => r := Failed;
      }
    }

    lemma {:induction false} CacheHasShards()
      requires cache.Valid()
      ensures cache.shards != []
    {
    }

    /** A read of the latest state or of a live snapshot returns what the user's map there holds. */
    method Get(k: Key, at: Option<nat>) returns (r: Reading)
      requires Valid() && (at.Some? ==> at.value < |snapshots|)
      modifies cache.shards
      ensures Valid() && |user.frozen| == |snapshots|
      ensures var m := if at.None? then user.now else user.frozen[at.value];
              r == if k in m then Value(m[k]) else NotFound
    {
      hide SysInv, Resolve, Lookup, FirstHit, Lru.Cache.Valid, CacheOk;
      var point := if at.None? then MAX_SEQ else snapshots[at.value];
      ReadAnswersSpec(State(), raw, user, k);
      VersionIsGood(State(), raw, user);
      SlotIsLive(State(), raw, user, k, if at.None? then -1 else at.value);
      var o := LookupIn(mem, imm, version, k, point);
      if o.None? || o.value.slot.Tombstone? { return NotFound; }
      r := MaybeResolvePointer(o.value.slot.value);
    }

    /** In key order, exactly the pairs in [begin, end) that the user's map holds at the read point. */
    method Scan(begin: Key, end: Key, at: Option<nat>) returns (out: seq<(Key, Bytes)>)
      requires Valid() && (at.Some? ==> at.value < |snapshots|)
      modifies cache.shards
      ensures Valid() && |user.frozen| == |snapshots| && Scanning.KeysAscend(out)
      ensures var m := if at.None? then user.now else user.frozen[at.value];
              forall k, v :: (k, v) in out <==> !Less(k, begin) && Less(k, end) && k in m && m[k] == v
    {
      hide SysInv, Resolve, Lru.Cache.Valid, CacheOk, Scanning.KeysAscend, Lsm.Get, Less;
      CountsMatch(State(), raw, user);
      ghost var m := if at.None? then user.now else user.frozen[at.value];
      var store := Store(mem, imm, installed, version, nextSeq, snapshots);
      var point := if at.None? then MAX_SEQ else snapshots[at.value];
      StoreHasShape(State(), raw, user);
      var found := Scanning.Scan(store, begin, end, point);
      out := [];
      for i := 0 to |found|
        invariant Valid() && |out| == i
        invariant forall j :: 0 <= j < i ==> out[j].0 == found[j].0 && out[j].0 in m && m[out[j].0] == out[j].1
      {
        assert found[i] in found;
        FoundResolves(State(), raw, user, found[i].0, if at.None? then -1 else at.value, found[i].1);
        var r := MaybeResolvePointer(found[i].1);
        out := out + [(found[i].0, r.bytes)];
      }
      SameKeysAscend(found, out);
      ScanIsExact(State(), raw, user, begin, end, if at.None? then -1 else at.value, found, out);
    }

    // ---- writes ---------------------------------------------------------------------------------------

    /** The second half of `WriteEntry`: the log record, then the memtable. */
    method WriteSlot(k: Key, slot: Slot)
      requires logNumber in logs && nextSeq < SEQ_LIMIT
      modifies this`mem, this`logs, this`nextSeq
      ensures Engine() == E.Apply(old(Engine()), E.Action.Write(k, slot)) && nextSeq == old(nextSeq) + 1
    {
      hide Insert;
      var e := Entry(k, nextSeq, slot);
      logs := logs[logNumber := logs[logNumber] + [e]];
      mem := Insert(mem, e);
      nextSeq := nextSeq + 1;
    }

    /** The first half: a separated value goes to the value log and leaves a pointer. */
    method Separate(k: Key, v: Bytes) returns (stored: Bytes)
      requires current in vlogs && cache.shards != [] && CacheOk(vlogs, nextFile)
      modifies this`vlogs
      ensures stored == SlotFor(old(vlogs), current, threshold, v)
      ensures vlogs == LogsFor(old(vlogs), current, threshold, k, v) && CacheOk(vlogs, nextFile)
    {
      hide EncodePointer, EncodeEntry, CacheOk;
      stored := v;
      if |v| >= threshold || PointerShaped(v) {
        var offset := |vlogs[current]|;
        AppendKeepsCache(k, v);
        vlogs := vlogs[current := vlogs[current] + EncodeEntry(Record(k, v))];
        stored := EncodePointer(Pointer(current, offset, |v|));
      }
    }

    /** `WriteEntry` for a value. */
    method WriteValue(k: Key, v: Bytes)
      requires Valid() && CanWrite(State(), k, v)
      modifies this
      ensures Valid() && State() == Written(old(State()), k, v)
      ensures user == ViewWrite(old(user), k, Slot.Put(v))
      ensures raw == ViewWrite(old(raw), k, Slot.Put(SlotFor(old(vlogs), current, threshold, v)))
      ensures vlogs == LogsFor(old(vlogs), current, threshold, k, v) && nextSeq == old(nextSeq) + 1
      ensures snapshots == old(snapshots) && current == old(current) && gcFloor == old(gcFloor) && pass == old(pass)
    {
      hide SysInv, CacheOk, E.Apply, Lru.Cache.Valid, PointerOk, EntryOk, SlotFor, LogsFor;
      ghost var s := State();
      WrittenKeepsInv(s, raw, user, k, v);
      LogIsOpen(s, raw, user);
      CacheHasShards();
      var stored := Separate(k, v);
      WriteSlot(k, Slot.Put(stored));
      raw, user := ViewWrite(raw, k, Slot.Put(stored)), ViewWrite(user, k, Slot.Put(v));
    }

    method WriteTombstone(k: Key)
      requires Valid() && nextSeq < SEQ_LIMIT
      modifies this
      ensures Valid() && State() == old(State()).(engine := Engine())
      ensures user == ViewWrite(old(user), k, Tombstone)
    {
      hide SysInv, CacheOk, E.Apply, Lru.Cache.Valid;
      ghost var s := State();
      DeleteKeepsInv(s, raw, user, k);
      LogIsOpen(s, raw, user);
      CacheHasShards();
      WriteSlot(k, Tombstone);
      raw, user := ViewWrite(raw, k, Tombstone), ViewWrite(user, k, Tombstone);
    }

    /** Freezes the memtable and opens the next log. */
    method SwitchLog()
      requires imm.None? && mem != []
      modifies this`mem, this`imm, this`installed, this`immLog, this`immTable, this`nextFile, this`logNumber, this`logs
      ensures Engine() == E.Apply(old(Engine()), E.Rotate)
    {
      hide E.Apply, E.Enabled;
      RotateIs(Engine());
      var newLog := nextFile;
      nextFile := nextFile + 1;
      immLog := logNumber;
      immTable := nextFile;
      nextFile := nextFile + 1;
      imm, installed := Some(mem), false;
      mem := [];
      logNumber := newLog;
      logs := logs[newLog := []];
    }

    method RotateForFlush()
      requires Valid() && imm.None? && mem != []
      modifies this
      ensures Valid() && user == old(user)
      ensures State() == old(State()).(engine := E.Apply(old(Engine()), E.Rotate))
    {
      hide SysInv, CacheOk, Lru.Cache.Valid;
      ghost var s := State();
      InternalKeepsInv(s, raw, user, E.Rotate);
      CacheHasShards();
      LaterNumbersKeepCache(nextFile + 2);
      SwitchLog();
    }

    /** `FlushImmMemTable`: the frozen memtable becomes the newest L0 table and its log is dropped. */
    method FlushImm()
      requires Valid() && imm.Some?
      modifies this
      ensures Valid() && user == old(user) && raw == old(raw) && imm.None?
      ensures version
                == old(version).(l0 := [File(old(immTable), old(imm).value, fileSize(old(imm).value))]
                + old(version).l0)
      ensures mem == old(mem) && logs == old(logs) - {old(immLog)} && manifest == E.Manifest(version, old(logNumber))
      ensures State() == old(State()).(engine := Engine()) && nextSeq == old(nextSeq) && snapshots == old(snapshots)
    {
      hide SysInv, CachedOk, Lru.Cache.Valid;
      CacheHasShards();
      InstallFlushed();
      DropFlushed();
    }

    method InstallFlushed()
      requires SysInv(State(), raw, user) && imm.Some? && !installed
      modifies this`version, this`installed, this`manifest
      ensures SysInv(State(), raw, user) && installed
      ensures State() == old(State()).(engine := E.Apply(old(Engine()), E.FlushInstall(fileSize(imm.value))))
    {
      hide SysInv;
      ghost var s := State();
      InternalKeepsInv(s, raw, user, E.FlushInstall(fileSize(imm.value)));
      version := version.(l0 := [File(immTable, imm.value, fileSize(imm.value))] + version.l0);
      manifest := E.Manifest(version, logNumber);
      installed := true;
    }

    method DropFlushed()
      requires SysInv(State(), raw, user) && installed
      modifies this`imm, this`installed, this`logs
      ensures SysInv(State(), raw, user) && !installed && imm.None?
      ensures State() == old(State()).(engine := E.Apply(old(Engine()), E.FlushDone))
    {
      hide SysInv;
      ghost var s := State();
      InternalKeepsInv(s, raw, user, E.FlushDone);
      logs := logs - {immLog};
      imm, installed := None, false;
    }

    /** A pending flush is waited for; a full memtable is rotated out first. */
    method MakeRoom()
      requires Valid()
      modifies this
      ensures Valid() && user == old(user)
      ensures State() == old(State()).(engine := Engine()) && nextSeq == old(nextSeq) && snapshots == old(snapshots)
      ensures if memSize(old(mem)) >= writeBuffer then mem == [] && imm == Some(old(mem))
              else mem == old(mem) && imm.None?
    {
      hide SysInv, CachedOk, Lru.Cache.Valid, CacheOk;
      if imm.Some? { FlushImm(); }
      if memSize(mem) >= writeBuffer { RotateForFlush(); }
    }

    method Put(k: Key, v: Bytes)
      requires Valid() && CanWrite(State(), k, v)
      modifies this
      ensures Valid() && user == old(user).(now := old(user).now[k := v])
    {
      hide SysInv, Lru.Cache.Valid, CacheOk, E.Apply, PointerOk, EntryOk, SlotFor, LogsFor;
      MakeRoom();
      WriteValue(k, v);
    }

    method Delete(k: Key)
      requires Valid() && nextSeq < SEQ_LIMIT
      modifies this
      ensures Valid() && user == old(user).(now := old(user).now - {k})
    {
      hide SysInv, Lru.Cache.Valid, CacheOk, E.Apply;
      MakeRoom();
      WriteTombstone(k);
    }

    // ---- snapshots ------------------------------------------------------------------------------------

    /** Freezes the user's map as it stands. */
    method GetSnapshot() returns (i: nat)
      requires Valid()
      modifies this`snapshots, this`raw, this`user
      ensures Valid() && i < |snapshots| == |user.frozen|
                && user == old(user).(frozen := old(user).frozen + [old(user).now])
      ensures user.frozen[i] == user.now
    {
      hide SysInv, CachedOk, Lru.Cache.Valid;
      ghost var s := State();
      CountsMatch(s, raw, user);
      InternalKeepsInv(s, raw, user, E.TakeSnapshot);
      CacheHasShards();
      i := |snapshots|;
      snapshots := snapshots + [nextSeq - 1];
      raw, user := ViewSnapshot(raw), ViewSnapshot(user);
    }

    method ReleaseSnapshot(i: nat)
      requires Valid() && i < |snapshots|
      modifies this`snapshots, this`raw, this`user
      ensures Valid() && |snapshots| == |user.frozen|
      ensures i < |old(user).frozen|
      ensures user == old(user).(frozen := old(user).frozen[..i] + old(user).frozen[i + 1..])
    {
      hide SysInv, CachedOk, Lru.Cache.Valid;
      ghost var s := State();
      CountsMatch(s, raw, user);
      InternalKeepsInv(s, raw, user, E.ReleaseSnapshot(i));
      CacheHasShards();
      snapshots := snapshots[..i] + snapshots[i + 1..];
      raw, user := ViewRelease(raw, i), ViewRelease(user, i);
    }

    /** The lowest live read point, which a compaction takes as its floor. */
    method SmallestSnapshotSeq() returns (smallest: nat)
      requires Valid()
      ensures smallest == E.Lowest(snapshots)
      ensures snapshots == [] ==> smallest == 0xFFFF_FFFF_FFFF_FFFF
      ensures snapshots != [] ==> smallest in snapshots && forall i :: 0 <= i < |snapshots| ==> smallest <= snapshots[i]
    {
      hide SysInv, CacheOk, Lru.Cache.Valid, E.Lowest;
      PointsAreNumbers(State(), raw, user);
      smallest := MAX_SEQ;
      for i := 0 to |snapshots|
        invariant if i == 0 then smallest == MAX_SEQ else smallest in snapshots[..i]
        invariant forall j :: 0 <= j < i ==> smallest <= snapshots[j]
      {
        if snapshots[i] < smallest { smallest := snapshots[i]; }
      }
    }

    lemma {:induction false} LaterNumbersKeepCache(next: nat)
      requires cache.shards != [] && CacheOk(vlogs, nextFile) && next >= nextFile
      ensures CacheOk(vlogs, next)
    {
      hide DecodePointer, Resolve;
    }

    lemma {:induction false} AppendKeepsCache(k: Key, v: Bytes)
      requires cache.shards != [] && CacheOk(vlogs, nextFile) && current in vlogs
      ensures CacheOk(Appended(vlogs, current, EncodeEntry(Record(k, v))), nextFile)
    {
      hide CachedOk, Appended, EncodeEntry;
      var logs := Appended(vlogs, current, EncodeEntry(Record(k, v)));
      forall slot, x | cache.Holds(slot, x) ensures CachedOk(logs, slot, x, nextFile) {
        AppendKeepsCached(vlogs, current, EncodeEntry(Record(k, v)), slot, x, nextFile);
      }
    }
  }

  // ---- what the invariant gives ---------------------------------------------------------------------------

  lemma {:induction false} GenerationIsOld(s: Sys, w: View, u: View, g: nat)
    requires SysInv(s, w, u) && g in s.logs
    ensures g < s.engine.nextFile
  {
    hide E.EngineInv, Agree, AllAgree, PassOk;
  }

  lemma {:induction false} LogIsOpen(s: Sys, w: View, u: View)
    requires SysInv(s, w, u)
    ensures s.engine.logNumber in s.engine.logs && s.current in s.logs
  {
    hide Inv, E.JobInv, E.NumbersInv, Agree, AllAgree, PassOk;
  }

  lemma {:induction false} RotateIs(e: E.Engine)
    requires e.store.imm.None? && e.store.mem != []
    ensures E.Enabled(e, E.Rotate)
    ensures E.Apply(e, E.Rotate)
            == e.(store := e.store.(mem := [], imm := Some(e.store.mem), installed := false), immLog := e.logNumber,
                  immTable := e.nextFile + 1, logNumber := e.nextFile, nextFile := e.nextFile + 2,
                  logs := e.logs[e.nextFile := []])
  {
  }

  lemma {:induction false} StoreHasShape(s: Sys, w: View, u: View)
    requires SysInv(s, w, u)
    ensures Shape(s.engine.store) && Readable(s.engine.store)
  {
    hide E.JobInv, E.NumbersInv, E.DiskInv, Agree, AllAgree, PassOk, Bounded, Represents, Recency;
  }

  /** Read point `i`, or the latest one for -1: the user's map there. */
  ghost function MapAt(u: View, i: int): map<Key, Bytes>
    requires -1 <= i < |u.frozen|
  {
    if i == -1 then u.now else u.frozen[i]
  }

  function PointAt(s: Store, i: int): nat
    requires -1 <= i < |s.snapshots|
  {
    if i == -1 then MAX_SEQ else s.snapshots[i]
  }

  lemma {:induction false} FoundResolves(s: Sys, w: View, u: View, k: Key, i: int, slot: Bytes)
    requires SysInv(s, w, u) && Readable(s.engine.store) && -1 <= i < |s.engine.store.snapshots|
    requires Get(s.engine.store, k, PointAt(s.engine.store, i)) == Some(slot)
    ensures i < |u.frozen| && k in MapAt(u, i) && Resolve(s.logs, slot) == Value(MapAt(u, i)[k])
    ensures DecodePointer(slot).Some? ==> DecodePointer(slot).value.vlog in s.logs
  {
    hide SysInv, Resolve, DecodePointer, Get;
    SlotIsLive(s, w, u, k, i);
    CountsMatch(s, w, u);
    ReadAnswersSpec(s, w, u, k);
  }

  lemma {:induction false} ScanCovers(s: Sys, w: View, u: View, k: Key, i: int)
    requires SysInv(s, w, u) && Readable(s.engine.store) && -1 <= i < |s.engine.store.snapshots|
    ensures i < |u.frozen| && (k in MapAt(u, i) ==> Get(s.engine.store, k, PointAt(s.engine.store, i)).Some?)
  {
    hide SysInv, Resolve, Get;
    CountsMatch(s, w, u);
    ReadAnswersSpec(s, w, u, k);
  }

  /** The slots found, resolved one by one, are exactly the user's pairs in the range. */
  lemma {:induction false} ScanIsExact(
    s: Sys, w: View, u: View, begin: Key, end: Key, i: int, found: seq<(Key, Bytes)>, out: seq<(Key, Bytes)>)
    requires SysInv(s, w, u) && Readable(s.engine.store) && -1 <= i < |s.engine.store.snapshots| == |u.frozen|
    requires forall k, x :: (k, x) in found <==>
               Scanning.InRange(k, begin, end) && Get(s.engine.store, k, PointAt(s.engine.store, i)) == Some(x)
    requires |out| == |found|
    requires forall j :: 0 <= j < |out| ==>
               out[j].0 == found[j].0 && out[j].0 in MapAt(u, i) && MapAt(u, i)[out[j].0] == out[j].1
    ensures forall k, v :: (k, v) in out <==> Scanning.InRange(k, begin, end) && k in MapAt(u, i) && MapAt(u, i)[k] == v
  {
    hide SysInv, Get, Scanning.InRange;
    forall k, v ensures (k, v) in out <==> Scanning.InRange(k, begin, end) && k in MapAt(u, i) && MapAt(u, i)[k] == v {
      ScanCovers(s, w, u, k, i);
      if (k, v) in out {
        var j :| 0 <= j < |out| && out[j] == (k, v);
        assert (k, found[j].1) in found;
      }
      if Scanning.InRange(k, begin, end) && k in MapAt(u, i) && MapAt(u, i)[k] == v {
        var slot := Get(s.engine.store, k, PointAt(s.engine.store, i)).value;
        assert (k, slot) in found;
        var j :| 0 <= j < |found| && found[j] == (k, slot);
        assert out[j] == (k, v);
      }
    }
  }

  lemma {:induction false} SameKeysAscend(a: seq<(Key, Bytes)>, b: seq<(Key, Bytes)>)
    requires |a| == |b| && Scanning.KeysAscend(a) && forall i :: 0 <= i < |a| ==> a[i].0 == b[i].0
    ensures Scanning.KeysAscend(b)
  {
    hide Less;
  }

  lemma {:induction false} PointsAreNumbers(s: Sys, w: View, u: View)
    requires SysInv(s, w, u)
    ensures forall i :: 0 <= i < |s.engine.store.snapshots| ==> s.engine.store.snapshots[i] < MAX_SEQ
  {
    hide E.JobInv, E.NumbersInv, E.DiskInv, Represents, Recency, Agree, AllAgree, PassOk;
  }

  lemma {:induction false} CountsMatch(s: Sys, w: View, u: View)
    requires SysInv(s, w, u)
    ensures |s.engine.store.snapshots| == |w.frozen| == |u.frozen| && s.engine.store.nextSeq >= 1
  {
    hide E.JobInv, E.NumbersInv, E.DiskInv, Agree, PassOk, Shape, ReadsAs;
  }

  lemma {:induction false} VersionIsGood(s: Sys, w: View, u: View)
    requires SysInv(s, w, u)
    ensures VersionOk(s.engine.store.version)
  {
    hide E.JobInv, E.NumbersInv, E.DiskInv, Agree, AllAgree, PassOk, Bounded, Represents, L0Ok, LevelOk, Recency;
  }

  /** Whatever a read finds points into a live generation. */
  lemma {:induction false} SlotIsLive(s: Sys, w: View, u: View, k: Key, i: int)
    requires SysInv(s, w, u) && Readable(s.engine.store) && -1 <= i < |s.engine.store.snapshots|
    ensures var o := Get(s.engine.store, k, if i == -1 then MAX_SEQ else s.engine.store.snapshots[i]);
            o.Some? && DecodePointer(o.value).Some? ==> DecodePointer(o.value).value.vlog in s.logs
  {
    hide E.JobInv, E.NumbersInv, E.DiskInv, PassOk, Bounded, Recency, ReadsAs, DecodePointer;
    GetAnswersSpec(s.engine.store, w, k);
    if i >= 0 { assert Agree(s.logs, w.frozen[i], u.frozen[i]); }
  }
}
