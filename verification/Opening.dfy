/** Publishing and opening as the loops that do them. */
module Opening {
  import opened Seqs
  import opened Bytes
  import opened Entries
  import opened Versions
  import opened Install
  import opened Lsm
  import opened Recovery
  import E = Engine
  import Wal
  import WalIo
  import WalRecords
  import opened Manifest
  import opened Publishing

  // ---- publishing -----------------------------------------------------------------------------------------

  /** What the MANIFEST of a version says. */
  function ContentsOf(v: Version, vlogs: seq<nat>, logNumber: nat): Contents
    requires forall i :: 0 <= i < |InOrder(v)| ==> InOrder(v)[i].file.entries != []
  {
    Contents(Metas(InOrder(v)), vlogs, logNumber)
  }

  method AppendRecords(w: WalIo.Writer, records: seq<Bytes>)
    requires w.fileOffset == |w.file|
    modifies w
    ensures w.file == old(w.file) + Wal.EncodeAll(records, |old(w.file)|) && w.fileOffset == |w.file|
  {
    hide Wal.Encode;
    for i := 0 to |records|
      invariant w.file == old(w.file) + Wal.EncodeAll(records[..i], |old(w.file)|) && w.fileOffset == |w.file|
    {
      WalRecords.EncodeAllConcat(records[..i], [records[i]], |old(w.file)|);
      assert records[..i + 1] == records[..i] + [records[i]];
      WalRecords.OneRecord(records[i], |w.file|);
      w.AddRecord(records[i]);
    }
    assert records[..|records|] == records;
  }

  /** Every table of the version, level by level. */
  method Collect(v: Version) returns (refs: seq<Placed>)
    ensures refs == PlacedFrom(v, 0)
  {
    hide PlacedIn, PlacedFrom, E.Run;
    refs := [];
    for i: nat := 0 to |v.levels| + 1
      invariant refs + PlacedFrom(v, i) == PlacedFrom(v, 0)
    {
      PlacedStep(v, i);
      Regroup(refs, PlacedIn(E.Run(v, i), i), PlacedFrom(v, i + 1));
      refs := refs + PlacedIn(E.Run(v, i), i);
    }
    NothingPlaced(v);
  }

  lemma {:induction false} PlacedStep(v: Version, i: nat)
    requires i <= |v.levels|
    ensures PlacedFrom(v, i) == PlacedIn(E.Run(v, i), i) + PlacedFrom(v, i + 1)
  {
  }

  lemma {:induction false} NothingPlaced(v: Version)
    ensures PlacedFrom(v, |v.levels| + 1) == []
  {
  }

  /** `WriteManifest`: every table by number, every value log, then the replay floor. */
  method WriteManifest(v: Version, vlogs: seq<nat>, logNumber: nat) returns (bytes: Bytes)
    requires forall i :: 0 <= i < |InOrder(v)| ==> InOrder(v)[i].file.entries != []
    ensures bytes == Wal.EncodeAll(Records(ContentsOf(v, vlogs, logNumber)), 0)
    ensures var c := ContentsOf(v, vlogs, logNumber);
            && AllDescribed(v, c.files) && c.vlogs == vlogs && c.logNumber == logNumber
            && (FilesFit(c.files, 0) && VlogsFit(vlogs, 0) && logNumber < U64 ==> Parse(bytes) == Some(c))
  {
    hide Wal.EncodeAll, SortPlaced, EncodeMeta, NumberRecord, PlacedFrom, FileRecords, VlogRecords, Metas, AllDescribed,
      FilesFit, VlogsFit, Parse;
    var refs := Collect(v);
    refs := SortPlaced(refs);
    assert refs == InOrder(v);
    var w := new WalIo.Writer([], 0);
    var records := FileRecords(Metas(refs));
    records := records + (VlogRecords(vlogs) + [NumberRecord(TAG_LOG, logNumber)]);
    AppendRecords(w, records);
    bytes := w.file;
    assert [] + Wal.EncodeAll(records, 0) == Wal.EncodeAll(records, 0);
    RecordsDescribe(v);
    ghost var c := ContentsOf(v, vlogs, logNumber);
    if FilesFit(c.files, 0) && VlogsFit(vlogs, 0) && logNumber < U64 { ManifestRoundTrip(c); }
  }

  // ---- opening --------------------------------------------------------------------------------------------

  method ParseManifest(f: Bytes) returns (o: Option<Contents>)
    ensures o == Parse(f)
  {
    hide ParseRecord, Wal.ReadAll;
    var records, end, clean := WalIo.ReplayFile(f);
    if !clean { return None; }
    var p := START;
    for i := 0 to |records|
      invariant ParseRecords(p, records[i..]) == ParseRecords(START, records)
    {
      assert records[i..][1..] == records[i + 1..];
      var next := ParseRecord(p, records[i]);
      if next.None? { return None; }
      p := next.value;
    }
    if p.log.None? { return None; }
    o := Some(Contents(p.files, p.vlogs, p.log.value));
  }

  /** Sorts the named tables into levels; a table that cannot be opened fails the whole. */
  method AssembleVersion(metas: seq<FileMeta>, tables: map<nat, seq<Entry>>) returns (o: Option<Version>)
    requires Distributed(metas, tables) && forall i :: 0 <= i < |metas| ==> metas[i].level < MAX_LEVELS
    ensures o == if (forall i :: 0 <= i < |metas| ==> metas[i].number in tables)
              then Some(Rebuilt(metas, tables)) else None
  {
    hide SortDesc, SortFiles, FilesOk, AtLevel;
    var ok, l0, levels := Distribute(metas, tables);
    if !ok { return None; }
    l0 := SortDesc(l0);
    var sorted: seq<seq<File>> := [];
    for l := 0 to LEVELS
      invariant |sorted| == l && forall j :: 0 <= j < l ==> sorted[j] == SortFiles(AtLevel(metas, tables, j + 1))
    {
      assert FilesOk(AtLevel(metas, tables, l + 1));
      sorted := sorted + [SortFiles(levels[l])];
    }
    o := Some(Version(l0, sorted));
    assert sorted == Rebuilt(metas, tables).levels;
  }

  method Distribute(metas: seq<FileMeta>, tables: map<nat, seq<Entry>>)
    returns (ok: bool, l0: seq<File>, levels: seq<seq<File>>)
    requires forall i :: 0 <= i < |metas| ==> metas[i].level < MAX_LEVELS
    ensures ok <==> forall i :: 0 <= i < |metas| ==> metas[i].number in tables
    ensures ok ==> l0 == AtLevel(metas, tables, 0) && |levels| == LEVELS
    ensures ok ==> forall l :: 0 <= l < LEVELS ==> levels[l] == AtLevel(metas, tables, l + 1)
  {
    hide AtLevel;
    l0, levels := [], [[], [], [], [], [], []];
    NoTables(tables);
    for i: nat := 0 to |metas|
      invariant |levels| == LEVELS && forall j :: 0 <= j < i ==> metas[j].number in tables
      invariant l0 == AtLevel(metas[..i], tables, 0)
      invariant forall l :: 0 <= l < LEVELS ==> levels[l] == AtLevel(metas[..i], tables, l + 1)
    {
      var m := metas[i];
      if m.number !in tables { return false, [], []; }
      forall l: nat ensures AtLevel(metas[..i + 1], tables, l) == AtLevel(metas[..i], tables, l) + At(m, tables, l) {
        assert metas[..i + 1] == metas[..i] + [m];
        AtLevelSnoc(metas[..i], m, tables, l);
      }
      var f := File(m.number, tables[m.number], m.size);
      if m.level == 0 {
        l0 := l0 + [f];
      } else {
        levels := levels[m.level - 1 := levels[m.level - 1] + [f]];
      }
    }
    assert metas[..|metas|] == metas;
    ok := true;
  }

  /** The table of `m`, if it belongs to the level. */
  function At(m: FileMeta, tables: map<nat, seq<Entry>>, level: nat): seq<File> {
    if m.level == level && m.number in tables then [File(m.number, tables[m.number], m.size)] else []
  }

  lemma {:induction false} NoTables(tables: map<nat, seq<Entry>>)
    ensures forall l :: AtLevel([], tables, l) == []
  {
  }

  lemma {:induction false} AtLevelSnoc(metas: seq<FileMeta>, m: FileMeta, tables: map<nat, seq<Entry>>, level: nat)
    ensures AtLevel(metas + [m], tables, level) == AtLevel(metas, tables, level) + At(m, tables, level)
  {
    var all := metas + [m];
    if metas == [] {
      assert all[1..] == [];
    } else {
      assert all[1..] == metas[1..] + [m];
      AtLevelSnoc(metas[1..], m, tables, level);
    }
  }

  // ---- replay ---------------------------------------------------------------------------------------------

  /** Every entry of `s` or an equivalent one is in `es`. */
  ghost predicate Covers(es: seq<Entry>, s: set<Entry>) {
    forall e :: e in s ==> exists x :: x in es && SameVersion(x, e)
  }

  lemma {:induction false} InsertCovers(es: seq<Entry>, e: Entry)
    ensures exists x :: x in Insert(es, e) && SameVersion(x, e)
  {
    hide Before;
    var r := Insert(es, e);
    if es == [] || Before(e, es[0]) {
      assert r[0] == e;
    } else if SameVersion(es[0], e) {
      assert r[0] == es[0];
    } else {
      InsertCovers(es[1..], e);
      assert r[1..] == Insert(es[1..], e);
      var x :| x in r[1..] && SameVersion(x, e);
      assert x in r;
    }
  }

  lemma {:induction false} ReplayLogCovers(mem: seq<Entry>, log: seq<Entry>)
    ensures Elems(mem) <= Elems(ReplayLog(mem, log)) <= Elems(mem) + Elems(log)
              && Covers(ReplayLog(mem, log), Elems(log))
    decreases |log|
  {
    hide SameVersion, Insert;
    if log != [] {
      InsertCovers(mem, log[0]);
      ReplayLogCovers(Insert(mem, log[0]), log[1..]);
      assert log == [log[0]] + log[1..];
      var x :| x in Insert(mem, log[0]) && SameVersion(x, log[0]);
      assert x in Elems(Insert(mem, log[0]));
    }
  }

  lemma {:induction false} ReplayCovers(mem: seq<Entry>, logs: map<nat, seq<Entry>>, lo: nat, hi: nat)
    requires forall n :: n in logs ==> n <= hi
    ensures Elems(mem) <= Elems(Replay(mem, logs, lo, hi)) <= Elems(mem) + LogElems(logs, lo)
    ensures Covers(Replay(mem, logs, lo, hi), LogElems(logs, lo))
    decreases hi + 1 - lo
  {
    hide SameVersion, ReplayLog, LogElems;
    if lo > hi {
      assert LogElems(logs, lo) == {};
    } else {
      LogElemsSplit(logs, lo);
      var mem' := if lo in logs then ReplayLog(mem, logs[lo]) else mem;
      if lo in logs { ReplayLogCovers(mem, logs[lo]); }
      ReplayCovers(mem', logs, lo + 1, hi);
      var r := Replay(mem, logs, lo, hi);
      assert r == Replay(mem', logs, lo + 1, hi);
      forall e | e in LogElems(logs, lo) ensures exists x :: x in r && SameVersion(x, e) {
        if e !in LogElems(logs, lo + 1) {
          var x :| x in mem' && SameVersion(x, e);
          assert x in Elems(r);
        }
      }
    }
  }

  /** `m` is the highest sequence number among `s`, or zero. */
  ghost predicate IsMaxSeq(s: set<Entry>, m: nat) {
    (forall e :: e in s ==> e.seqno <= m) && (m > 0 ==> exists e :: e in s && e.seqno == m)
  }

  /** What the log files replay to. */
  function DiskLogs(files: map<nat, Bytes>): map<nat, seq<Entry>> {
    map n | n in files :: WalRecords.ReplayedEntries(files[n])
  }

  /** One log file: the entries to apply, and the file cut where damage or a refused record starts. */
  method ReadLog(f: Bytes) returns (entries: seq<Entry>, kept: Bytes)
    ensures entries == WalRecords.ReplayedEntries(f) && kept == WalRecords.OpenedFile(f)
  {
    hide Wal.ReadRecord, WalRecords.ParsePayload;
    var reader := new WalIo.Reader(f);
    var appliedEnd: nat := 0;
    entries := [];
    while true
      invariant fresh(reader) && reader.file == f && reader.Valid()
      invariant appliedEnd == reader.lastGoodEnd == reader.Position() <= |f|
      invariant var rest := WalRecords.ApplyLog(f, appliedEnd);
                WalRecords.ApplyLog(f, 0) == WalRecords.Applied(entries + rest.entries, rest.end, rest.clean)
      decreases |f| - appliedEnd
    {
      var r, payload, cut := reader.ReadNext();
      if r == WalIo.AtEof { return entries, f; }
      if r == WalIo.Damaged { return entries, f[..cut]; }
      var o := WalRecords.ParsePayload(payload);
      if o.None? { return entries, f[..appliedEnd]; }
      entries, appliedEnd := entries + [o.value], reader.lastGoodEnd;
    }
  }

  /**
   * Replays every log from the floor on, oldest first, notes the highest sequence number and cuts
   * what cannot be replayed.
   */
  method ReplayLogs(files: map<nat, Bytes>, floor: nat, last: nat)
    returns (mem: seq<Entry>, maxSeq: nat, kept: map<nat, Bytes>)
    requires floor <= last && forall n :: n in files ==> n <= last
    ensures mem == Replay([], DiskLogs(files), floor, last) && IsMaxSeq(LogElems(DiskLogs(files), floor), maxSeq)
    ensures kept == map n | n in files && n >= floor :: WalRecords.OpenedFile(files[n])
  {
    hide Replay, LogElems, WalRecords.ReplayedEntries, WalRecords.OpenedFile, IsMaxSeq;
    ghost var logs := DiskLogs(files);
    mem, maxSeq, kept := [], 0, map[];
    ghost var done: set<Entry> := {};
    assert IsMaxSeq({}, 0) by { NothingIsMax(); }
    var n: nat := floor;
    while n <= last
      invariant floor <= n <= last + 1 && Replay(mem, logs, n, last) == Replay([], logs, floor, last)
      invariant done + LogElems(logs, n) == LogElems(logs, floor) && IsMaxSeq(done, maxSeq)
      invariant kept == map m | m in files && floor <= m < n :: WalRecords.OpenedFile(files[m])
    {
      LogElemsSplit(logs, n);
      ReplayStep(mem, logs, n, last);
      if n in files {
        var entries, file := ReadLog(files[n]);
        mem, maxSeq := ReplayOne(mem, entries, maxSeq, done);
        done := done + Elems(entries);
        kept := kept[n := file];
      }
      n := n + 1;
    }
    assert LogElems(logs, n) == {} by { NoLogsAbove(logs, n); }
    ReplayStep(mem, logs, n, last);
  }

  lemma {:induction false} ReplayStep(mem: seq<Entry>, logs: map<nat, seq<Entry>>, n: nat, last: nat)
    ensures Replay(mem, logs, n, last)
              == if n > last then mem else Replay(if n in logs then ReplayLog(mem, logs[n]) else mem, logs, n + 1, last)
  {
  }

  lemma {:induction false} NothingIsMax()
    ensures IsMaxSeq({}, 0)
  {
  }

  lemma {:induction false} NoLogsAbove(logs: map<nat, seq<Entry>>, n: nat)
    requires forall m :: m in logs ==> m < n
    ensures LogElems(logs, n) == {}
  {
  }

  method ReplayOne(mem: seq<Entry>, log: seq<Entry>, maxSeq: nat, ghost done: set<Entry>)
    returns (mem': seq<Entry>, maxSeq': nat)
    requires IsMaxSeq(done, maxSeq)
    ensures mem' == ReplayLog(mem, log) && IsMaxSeq(done + Elems(log), maxSeq')
  {
    hide Insert;
    mem', maxSeq' := mem, maxSeq;
    for i := 0 to |log|
      invariant ReplayLog(mem', log[i..]) == ReplayLog(mem, log)
      invariant IsMaxSeq(done + Elems(log[..i]), maxSeq')
    {
      assert log[i..][1..] == log[i + 1..];
      assert log[..i + 1] == log[..i] + [log[i]];
      MaxSeqGrows(done + Elems(log[..i]), log[i], maxSeq');
      assert done + Elems(log[..i + 1]) == (done + Elems(log[..i])) + {log[i]};
      mem' := Insert(mem', log[i]);
      if log[i].seqno > maxSeq' { maxSeq' := log[i].seqno; }
    }
    assert log[..|log|] == log;
  }

  lemma {:induction false} MaxSeqGrows(s: set<Entry>, e: Entry, m: nat)
    requires IsMaxSeq(s, m)
    ensures IsMaxSeq(s + {e}, if e.seqno > m then e.seqno else m)
  {
    if e.seqno <= m && m > 0 {
      var x :| x in s && x.seqno == m;
      assert x in s + {e};
    }
    assert e in s + {e};
  }

  /** Widens the highest sequence number by what the table records say. */
  method MaxOverRecords(metas: seq<FileMeta>, maxSeq: nat) returns (m: nat)
    ensures maxSeq <= m && forall i :: 0 <= i < |metas| ==> metas[i].largestSeq <= m
    ensures m == maxSeq || exists i :: 0 <= i < |metas| && metas[i].largestSeq == m
  {
    m := maxSeq;
    for i := 0 to |metas|
      invariant maxSeq <= m && forall j :: 0 <= j < i ==> metas[j].largestSeq <= m
      invariant m == maxSeq || exists j :: 0 <= j < i && metas[j].largestSeq == m
    {
      if metas[i].largestSeq > m { m := metas[i].largestSeq; }
    }
  }

  // ---- all of it --------------------------------------------------------------------------------------------

  ghost predicate TablesOk(tables: map<nat, seq<Entry>>) {
    forall n :: n in tables ==> tables[n] != [] && Sorted(tables[n])
  }

  lemma {:induction false} TablesDistribute(metas: seq<FileMeta>, tables: map<nat, seq<Entry>>, level: nat)
    requires TablesOk(tables)
    ensures FilesOk(AtLevel(metas, tables, level))
  {
    hide Sorted;
    if metas != [] { TablesDistribute(metas[1..], tables, level); }
  }

  lemma {:induction false} ParsedLevels(p: Parsed, rs: seq<Bytes>)
    requires forall i :: 0 <= i < |p.files| ==> p.files[i].level < MAX_LEVELS
    ensures ParseRecords(p, rs).Some? ==>
              forall i :: 0 <= i < |ParseRecords(p, rs).value.files| ==>
                ParseRecords(p, rs).value.files[i].level < MAX_LEVELS
    decreases |rs|
  {
    hide ParseMeta;
    if rs != [] && ParseRecord(p, rs[0]).Some? { ParsedLevels(ParseRecord(p, rs[0]).value, rs[1..]); }
  }

  /** The bytes are the published MANIFEST, and the disk holds the tables it names. */
  ghost predicate Stored(m: E.Manifest, vlogs: seq<nat>, bytes: Bytes, tables: map<nat, seq<Entry>>) {
    && OnDisk(m.version, tables)
         && (forall i :: 0 <= i < |InOrder(m.version)| ==> InOrder(m.version)[i].file.entries != [])
    && FilesFit(Metas(InOrder(m.version)), 0) && VlogsFit(vlogs, 0) && m.floor < U64
    && bytes == Wal.EncodeAll(Records(ContentsOf(m.version, vlogs, m.floor)), 0)
  }

  /** What a crashed engine left: a good version, published, and logs up to the current one. */
  ghost predicate Left(e: E.Engine, vlogs: seq<nat>, bytes: Bytes, tables: map<nat, seq<Entry>>) {
    && VersionOk(e.manifest.version) && E.UniqueAcross(e.manifest.version) && Stored(e.manifest, vlogs, bytes, tables)
    && e.manifest.floor <= e.logNumber && forall n :: n in e.logs ==> n <= e.logNumber
  }

  /** `DB::Open` rebuilds the store the crashed engine is to recover to, and the next sequence number. */
  method Open(
    bytes: Bytes, tables: map<nat, seq<Entry>>, files: map<nat, Bytes>, last: nat, ghost e: E.Engine,
    ghost vlogs: seq<nat>)
    returns (o: Option<Store>, kept: map<nat, Bytes>)
    requires TablesOk(tables) && forall n :: n in files ==> n <= last
    ensures Left(e, vlogs, bytes, tables) && DiskLogs(files) == e.logs && last == e.logNumber ==>
              && o.Some? && o.value == E.Recovered(e, o.value.nextSeq)
              && |o.value.version.levels| == LEVELS && IsNextSeq(All(o.value), o.value.nextSeq)
              && kept == map n | n in files && n >= e.manifest.floor :: WalRecords.OpenedFile(files[n])
  {
    hide VersionOk, E.UniqueAcross, OnDisk, InOrder, Metas, Wal.EncodeAll, Parse, Records, Rebuilt, Distributed,
      Sorted, AtLevel,
      Replay, LogElems, Groups, FilesFit, VlogsFit, IsMaxSeq, WalRecords.ReplayedEntries, WalRecords.OpenedFile;
    ghost var good := Left(e, vlogs, bytes, tables) && DiskLogs(files) == e.logs && last == e.logNumber;
    if good { OpensAsPublished(e, vlogs, bytes, tables); }
    kept := map[];
    var c := ParseManifest(bytes);
    if c.None? { return None, kept; }
    ParsedIsUsable(bytes, tables);
    var v := AssembleVersion(c.value.files, tables);
    if v.None? || |v.value.levels| != LEVELS { return None, kept; }
    var hi := if c.value.logNumber <= last then last else c.value.logNumber;
    ghost var logs := DiskLogs(files);
    var mem, maxSeq;
    mem, maxSeq, kept := ReplayLogs(files, c.value.logNumber, hi);
    var m := MaxOverRecords(c.value.files, maxSeq);
    o := Some(Store(mem, None, false, v.value, m + 1, []));
    ReplayCovers([], logs, c.value.logNumber, hi);
    if good {
      RecordsDescribe(e.manifest.version);
      NextAfterMax(o.value, LogElems(logs, c.value.logNumber), maxSeq, c.value.files, m);
    }
  }

  lemma {:induction false} ParsedIsUsable(f: Bytes, tables: map<nat, seq<Entry>>)
    requires Parse(f).Some? && TablesOk(tables)
    ensures Distributed(Parse(f).value.files, tables)
    ensures forall i :: 0 <= i < |Parse(f).value.files| ==> Parse(f).value.files[i].level < MAX_LEVELS
  {
    hide Wal.ReadAll, ParseRecord, Sorted, AtLevel;
    ParsedLevels(START, Wal.ReadAll(f, 0).records);
    forall l: nat | 1 <= l <= LEVELS ensures FilesOk(AtLevel(Parse(f).value.files, tables, l)) {
      TablesDistribute(Parse(f).value.files, tables, l);
    }
  }

  lemma {:induction false} OpensAsPublished(e: E.Engine, vlogs: seq<nat>, bytes: Bytes, tables: map<nat, seq<Entry>>)
    requires Left(e, vlogs, bytes, tables)
    ensures var v, metas := e.manifest.version, Metas(InOrder(e.manifest.version));
            && |v.levels| == LEVELS && Parse(bytes) == Some(Contents(metas, vlogs, e.manifest.floor))
            && Distributed(metas, tables) && Rebuilt(metas, tables) == v
            && forall i :: 0 <= i < |metas| ==> metas[i].number in tables
  {
    hide Wal.EncodeAll, Parse, Records, Rebuilt, Distributed, Sorted, L0Ok, LevelOk, SortPlaced, PlacedFrom;
    var v := e.manifest.version;
    ManifestRoundTrip(ContentsOf(v, vlogs, e.manifest.floor));
    OpenRebuildsVersion(v, tables);
    var ps := InOrder(v);
    MetasAt(ps);
    forall i | 0 <= i < |ps| ensures ps[i].file.number in tables {
      assert ps[i] in ps;
      PlacedMembers(v, 0, ps[i]);
      assert E.InVersion(v, ps[i].file);
    }
  }

  /** Every table of the version has a record that describes it, and every record describes a table. */
  ghost predicate AllDescribed(v: Version, metas: seq<FileMeta>) {
    && (forall i: nat, f :: i <= |v.levels| && f in E.Run(v, i) ==> exists m :: m in metas && Describes(m, f, i))
    && forall m :: m in metas ==>
         exists f :: m.level <= |v.levels| && f in E.Run(v, m.level) && Describes(m, f, m.level)
  }

  lemma {:induction false} RecordsDescribe(v: Version)
    requires forall i :: 0 <= i < |InOrder(v)| ==> InOrder(v)[i].file.entries != []
    ensures AllDescribed(v, Metas(InOrder(v)))
  {
    hide Describes, SortPlaced, PlacedFrom, Metas, MetaOf;
    var ps := InOrder(v);
    var metas := Metas(ps);
    MetasAt(ps);
    forall i: nat, f | i <= |v.levels| && f in E.Run(v, i) ensures exists m :: m in metas && Describes(m, f, i) {
      PlacedMembers(v, 0, Placed(f, i));
      var j :| 0 <= j < |ps| && ps[j] == Placed(f, i);
      assert metas[j] in metas && Describes(metas[j], f, i);
    }
    forall m | m in metas
      ensures exists f :: m.level <= |v.levels| && f in E.Run(v, m.level) && Describes(m, f, m.level)
    {
      var j :| 0 <= j < |ps| && metas[j] == m;
      PlacedMembers(v, 0, ps[j]);
      assert ps[j] in ps;
      DescribedLevel(m, ps[j].file, ps[j].level);
    }
  }

  lemma {:induction false} DescribedLevel(m: FileMeta, f: File, level: nat)
    requires Describes(m, f, level)
    ensures m.level == level
  {
  }

  /**
   * Parsing the published bytes yields the value logs and the floor, and one record for every table,
   * with its level, size, key range, sequence range and number of entries.
   */
  lemma {:induction false} ManifestDescribesVersion(
    m: E.Manifest, vlogs: seq<nat>, bytes: Bytes, tables: map<nat, seq<Entry>>)
    requires Stored(m, vlogs, bytes, tables)
    ensures var o := Parse(bytes); o.Some? && o.value.vlogs == vlogs && o.value.logNumber == m.floor
                                   && AllDescribed(m.version, o.value.files)
  {
    hide Wal.EncodeAll, Parse, Records, OnDisk, AllDescribed, InOrder, Metas, FilesFit, VlogsFit;
    ManifestRoundTrip(ContentsOf(m.version, vlogs, m.floor));
    RecordsDescribe(m.version);
  }

  /** One past the highest number in the logs and in the table records is the next sequence number. */
  lemma {:induction false} NextAfterMax(s: Store, records: set<Entry>, maxSeq: nat, metas: seq<FileMeta>, m: nat)
    requires |s.version.levels| == LEVELS && s.imm.None?
    requires Elems(s.mem) <= records && Covers(s.mem, records) && IsMaxSeq(records, maxSeq)
    requires AllDescribed(s.version, metas)
    requires maxSeq <= m && forall i :: 0 <= i < |metas| ==> metas[i].largestSeq <= m
    requires m == maxSeq || exists i :: 0 <= i < |metas| && metas[i].largestSeq == m
    ensures IsNextSeq(All(s), m + 1)
  {
    hide FileElems, Elems, AllDescribed;
    var g := Groups(s);
    forall e | e in All(s) ensures e.seqno <= m {
      var i :| 0 <= i < |g| && e in g[i];
      if i >= 2 {
        assert g[i] == FileElems(E.Run(s.version, i - 2));
        BelowRecord(s.version, metas, i - 2, e, m);
      }
    }
    if m > 0 {
      if m == maxSeq {
        var x :| x in records && x.seqno == m;
        var y :| y in s.mem && SameVersion(y, x);
        assert y in g[0];
      } else {
        var j :| 0 <= j < |metas| && metas[j].largestSeq == m;
        var i, x := LargestIsStored(s.version, metas, j);
        assert x in g[i + 2];
      }
    }
  }

  lemma {:induction false} BelowRecord(v: Version, metas: seq<FileMeta>, i: nat, e: Entry, m: nat)
    requires AllDescribed(v, metas) && i <= |v.levels| && e in FileElems(E.Run(v, i))
    requires forall i :: 0 <= i < |metas| ==> metas[i].largestSeq <= m
    ensures e.seqno <= m
  {
    hide AllDescribed, E.Run;
    var j :| 0 <= j < |E.Run(v, i)| && e in E.Run(v, i)[j].entries;
    var meta := RecordOf(v, metas, i, E.Run(v, i)[j]);
  }

  lemma {:induction false} RecordOf(v: Version, metas: seq<FileMeta>, i: nat, f: File) returns (m: FileMeta)
    requires AllDescribed(v, metas) && i <= |v.levels| && f in E.Run(v, i)
    ensures m in metas && Describes(m, f, i)
  {
    hide Describes, E.Run;
    m :| m in metas && Describes(m, f, i);
  }

  lemma {:induction false} LargestIsStored(v: Version, metas: seq<FileMeta>, j: nat) returns (i: nat, x: Entry)
    requires AllDescribed(v, metas) && j < |metas|
    ensures i <= |v.levels| && x in FileElems(E.Run(v, i)) && x.seqno == metas[j].largestSeq
  {
    var meta := metas[j];
    assert meta in metas;
    i := meta.level;
    var f :| f in E.Run(v, i) && Describes(meta, f, i);
    x :| x in f.entries && x.seqno == meta.largestSeq;
  }
}
