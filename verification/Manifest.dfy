/** The MANIFEST: one record per table, per live value log, and for the replay floor. */
module Manifest {
  import opened Bytes
  import opened Keys
  import opened Wal
  import opened WalReplay

  datatype FileMeta = FileMeta(
    number: nat, level: nat, smallestSeq: nat, largestSeq: nat, count: nat, size: nat, smallest: Key, largest: Key)

  const TAG_SST: byte := 1
  const TAG_LOG: byte := 2
  const TAG_VLOG: byte := 3
  const MAX_LEVELS: nat := 7
  const FIXED: nat := 49

  // ---- table records --------------------------------------------------------------------------------------

  function MetaHead(m: FileMeta): (s: Bytes)
    ensures |s| == FIXED - 4
  {
    [TAG_SST] + Fixed64(m.number) + Fixed32(m.level) + Fixed64(m.smallestSeq) + Fixed64(m.largestSeq)
      + Fixed64(m.count) + Fixed64(m.size)
  }

  function EncodeMeta(m: FileMeta): Bytes {
    MetaHead(m) + Fixed32(|m.smallest|) + m.smallest + Fixed32(|m.largest|) + m.largest
  }

  /** `ParseFileMetaRecord`: all lengths must add up to the record. */
  function ParseMeta(r: Bytes): Option<FileMeta> {
    if |r| < FIXED + 4 then None
    else
      var slen := GetFixed32(r, FIXED - 4);
      if FIXED + slen + 4 > |r| then None
      else
        var llen := GetFixed32(r, FIXED + slen);
        if FIXED + slen + 4 + llen != |r| then None
        else
          Some(FileMeta(GetFixed64(r, 1), GetFixed32(r, 9), GetFixed64(r, 13), GetFixed64(r, 21), GetFixed64(r, 29),
            GetFixed64(r, 37),
                        r[FIXED..FIXED + slen], r[FIXED + slen + 4..]))
  }

  predicate MetaFits(m: FileMeta) {
    && m.number < U64 && m.level < U32 && m.smallestSeq < U64 && m.largestSeq < U64 && m.count < U64 && m.size < U64
    && |m.smallest| < U32 && |m.largest| < U32
  }

  lemma {:induction false} HeadFields(r: Bytes, m: FileMeta)
    requires At(r, 0, MetaHead(m)) && MetaFits(m)
    ensures GetFixed64(r, 1) == m.number && GetFixed32(r, 9) == m.level && GetFixed64(r, 13) == m.smallestSeq
    ensures GetFixed64(r, 21) == m.largestSeq && GetFixed64(r, 29) == m.count && GetFixed64(r, 37) == m.size
              && r[0] == TAG_SST
  {
    hide Fixed32, Fixed64, FromLittleEndian;
    var a, b, c := [TAG_SST], Fixed64(m.number), Fixed32(m.level);
    var d, e, f, g := Fixed64(m.smallestSeq), Fixed64(m.largestSeq), Fixed64(m.count), Fixed64(m.size);
    AtSplit(r, 0, a + b + c + d + e + f, g);
    AtSplit(r, 0, a + b + c + d + e, f);
    AtSplit(r, 0, a + b + c + d, e);
    AtSplit(r, 0, a + b + c, d);
    AtSplit(r, 0, a + b, c);
    AtSplit(r, 0, a, b);
    assert r[0] == r[0..1][0];
  }

  lemma {:induction false} MetaRoundTrip(m: FileMeta)
    requires MetaFits(m)
    ensures ParseMeta(EncodeMeta(m)) == Some(m) && EncodeMeta(m) != [] && EncodeMeta(m)[0] == TAG_SST
  {
    hide Fixed32, FromLittleEndian, MetaHead;
    var r, h, a, b := EncodeMeta(m), MetaHead(m), Fixed32(|m.smallest|), Fixed32(|m.largest|);
    assert r[0..|r|] == h + a + m.smallest + b + m.largest;
    AtSplit(r, 0, h + a + m.smallest + b, m.largest);
    AtSplit(r, 0, h + a + m.smallest, b);
    AtSplit(r, 0, h + a, m.smallest);
    AtSplit(r, 0, h, a);
    HeadFields(r, m);
    assert r[FIXED + |m.smallest| + 4..] == r[FIXED + |m.smallest| + 4..|r|];
  }

  // ---- the whole file -------------------------------------------------------------------------------------

  datatype Contents = Contents(files: seq<FileMeta>, vlogs: seq<nat>, logNumber: nat)

  function NumberRecord(tag: byte, n: nat): (s: Bytes)
    ensures |s| == 9 && s[0] == tag
    ensures n < U64 ==> GetFixed64(s, 1) == n
  {
    var s := [tag] + Fixed64(n);
    assert s[1..9] == Fixed64(n);
    s
  }

  function FileRecords(files: seq<FileMeta>): seq<Bytes> {
    if files == [] then [] else [EncodeMeta(files[0])] + FileRecords(files[1..])
  }

  function VlogRecords(vlogs: seq<nat>): seq<Bytes> {
    if vlogs == [] then [] else [NumberRecord(TAG_VLOG, vlogs[0])] + VlogRecords(vlogs[1..])
  }

  /** What `WriteManifest` appends, in order. */
  function Records(c: Contents): seq<Bytes> {
    FileRecords(c.files) + (VlogRecords(c.vlogs) + [NumberRecord(TAG_LOG, c.logNumber)])
  }

  /** The parser's state between records; `log` is absent until the floor record is read. */
  datatype Parsed = Parsed(files: seq<FileMeta>, vlogs: seq<nat>, log: Option<nat>, lastFile: nat, lastVlog: nat)

  function ParseRecord(p: Parsed, r: Bytes): Option<Parsed> {
    if r == [] then None
    else if r[0] == TAG_SST then
      var o := ParseMeta(r);
      if o.None? || o.value.number <= p.lastFile || o.value.level >= MAX_LEVELS then None
      else Some(p.(files := p.files + [o.value], lastFile := o.value.number))
    else if r[0] == TAG_LOG then
      if |r| != 9 then None else Some(p.(log := Some(GetFixed64(r, 1))))
    else if r[0] == TAG_VLOG then
      if |r| != 9 || GetFixed64(r, 1) <= p.lastVlog then None
      else Some(p.(vlogs := p.vlogs + [GetFixed64(r, 1)], lastVlog := GetFixed64(r, 1)))
    else None
  }

  function ParseRecords(p: Parsed, rs: seq<Bytes>): Option<Parsed>
    decreases |rs|
  {
    if rs == [] then Some(p)
    else
      var o := ParseRecord(p, rs[0]);
      if o.None? then None else ParseRecords(o.value, rs[1..])
  }

  const START: Parsed := Parsed([], [], None, 0, 0)

  /** `ParseManifest`: damage anywhere, or no floor record, refuses the file. */
  function Parse(f: Bytes): Option<Contents> {
    var r := ReadAll(f, 0);
    if !r.clean then None
    else
      match ParseRecords(START, r.records)
      case Some(p) => if p.log.None? then None else Some(Contents(p.files, p.vlogs, p.log.value))
      case None => None
  }

  /** Numbers ascend from at least 1, as the parser demands. */
  ghost predicate FilesFit(files: seq<FileMeta>, above: nat) {
    && (forall i :: 0 <= i < |files| ==> MetaFits(files[i]) && files[i].level < MAX_LEVELS && files[i].number > above)
    && forall i, j :: 0 <= i < j < |files| ==> files[i].number < files[j].number
  }

  ghost predicate VlogsFit(vlogs: seq<nat>, above: nat) {
    && (forall i :: 0 <= i < |vlogs| ==> above < vlogs[i] < U64)
    && forall i, j :: 0 <= i < j < |vlogs| ==> vlogs[i] < vlogs[j]
  }

  function WithFiles(p: Parsed, files: seq<FileMeta>): Parsed
    decreases |files|
  {
    if files == [] then p else WithFiles(p.(files := p.files + [files[0]], lastFile := files[0].number), files[1..])
  }

  function WithVlogs(p: Parsed, vlogs: seq<nat>): Parsed
    decreases |vlogs|
  {
    if vlogs == [] then p else WithVlogs(p.(vlogs := p.vlogs + [vlogs[0]], lastVlog := vlogs[0]), vlogs[1..])
  }

  lemma {:induction false} ParseCons(p: Parsed, r: Bytes, rest: seq<Bytes>)
    requires ParseRecord(p, r).Some?
    ensures ParseRecords(p, [r] + rest) == ParseRecords(ParseRecord(p, r).value, rest)
  {
    hide ParseRecord;
    assert ([r] + rest)[1..] == rest;
  }

  lemma {:induction false} FileParses(p: Parsed, m: FileMeta)
    requires MetaFits(m) && m.level < MAX_LEVELS && m.number > p.lastFile
    ensures ParseRecord(p, EncodeMeta(m)) == Some(p.(files := p.files + [m], lastFile := m.number))
  {
    hide ParseMeta, EncodeMeta;
    MetaRoundTrip(m);
  }

  lemma {:induction false} FilesParse(p: Parsed, files: seq<FileMeta>, rest: seq<Bytes>)
    requires FilesFit(files, p.lastFile)
    ensures ParseRecords(p, FileRecords(files) + rest) == ParseRecords(WithFiles(p, files), rest)
    decreases |files|
  {
    hide ParseRecord, EncodeMeta;
    if files == [] {
      assert FileRecords(files) + rest == rest;
    } else {
      assert FileRecords(files) + rest == [EncodeMeta(files[0])] + (FileRecords(files[1..]) + rest);
      FileParses(p, files[0]);
      ParseCons(p, EncodeMeta(files[0]), FileRecords(files[1..]) + rest);
      FilesParse(p.(files := p.files + [files[0]], lastFile := files[0].number), files[1..], rest);
    }
  }

  lemma {:induction false} VlogsParse(p: Parsed, vlogs: seq<nat>, rest: seq<Bytes>)
    requires VlogsFit(vlogs, p.lastVlog)
    ensures ParseRecords(p, VlogRecords(vlogs) + rest) == ParseRecords(WithVlogs(p, vlogs), rest)
    decreases |vlogs|
  {
    hide ParseMeta, NumberRecord;
    if vlogs == [] {
      assert VlogRecords(vlogs) + rest == rest;
    } else {
      assert VlogRecords(vlogs) + rest == [NumberRecord(TAG_VLOG, vlogs[0])] + (VlogRecords(vlogs[1..]) + rest);
      ParseCons(p, NumberRecord(TAG_VLOG, vlogs[0]), VlogRecords(vlogs[1..]) + rest);
      VlogsParse(p.(vlogs := p.vlogs + [vlogs[0]], lastVlog := vlogs[0]), vlogs[1..], rest);
    }
  }

  lemma {:induction false} WithAll(p: Parsed, files: seq<FileMeta>, vlogs: seq<nat>)
    ensures WithFiles(p, files).files == p.files + files && WithFiles(p, files).vlogs == p.vlogs
    ensures WithFiles(p, files).lastVlog == p.lastVlog && WithFiles(p, files).log == p.log
    ensures WithVlogs(p, vlogs).vlogs == p.vlogs + vlogs && WithVlogs(p, vlogs).files == p.files
              && WithVlogs(p, vlogs).log == p.log
    decreases |files| + |vlogs|
  {
    if files != [] {
      WithAll(p.(files := p.files + [files[0]], lastFile := files[0].number), files[1..], []);
      assert p.files + [files[0]] + files[1..] == p.files + files;
    } else {
      assert p.files + files == p.files;
    }
    if vlogs != [] {
      WithAll(p.(vlogs := p.vlogs + [vlogs[0]], lastVlog := vlogs[0]), [], vlogs[1..]);
      assert p.vlogs + [vlogs[0]] + vlogs[1..] == p.vlogs + vlogs;
    } else {
      assert p.vlogs + vlogs == p.vlogs;
    }
  }

  /** Parsing undoes writing: the published bytes name exactly the tables, value logs and floor written. */
  lemma {:induction false} ManifestRoundTrip(c: Contents)
    requires FilesFit(c.files, 0) && VlogsFit(c.vlogs, 0) && c.logNumber < U64
    ensures Parse(EncodeAll(Records(c), 0)) == Some(c)
  {
    hide ParseMeta, NumberRecord, EncodeAll, ReadAll, FileRecords, VlogRecords, WithFiles, WithVlogs;
    var bytes, last := EncodeAll(Records(c), 0), NumberRecord(TAG_LOG, c.logNumber);
    WholeLogReplays([], Records(c));
    assert [] + bytes == bytes;
    var p := WithFiles(START, c.files);
    FilesParse(START, c.files, VlogRecords(c.vlogs) + [last]);
    WithAll(START, c.files, []);
    VlogsParse(p, c.vlogs, [last]);
    WithAll(p, [], c.vlogs);
    var q := WithVlogs(p, c.vlogs);
    ParseCons(q, last, []);
    assert [last] + [] == [last];
    assert ParseRecord(q, last) == Some(q.(log := Some(c.logNumber)));
    assert ParseRecords(START, Records(c)) == Some(q.(log := Some(c.logNumber)));
    assert START.files + c.files == c.files && START.vlogs + c.vlogs == c.vlogs;
  }
}
