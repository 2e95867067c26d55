/** The value log: pointers into it, its entries on disk, reading one and scanning all. */
module VLog {
  import opened Bytes
  import opened Keys
  import opened Crc

  // ---- value pointers -----------------------------------------------------------------------------------

  datatype Pointer = Pointer(vlog: nat, offset: nat, size: nat)

  const POINTER_TAG: byte := 0xFF
  const POINTER_SIZE: nat := 21

  /** Exactly 21 bytes starting 0xFF: what the read path takes for a pointer. */
  predicate PointerShaped(s: Bytes) {
    |s| == POINTER_SIZE && s[0] == POINTER_TAG
  }

  predicate PointerOk(p: Pointer) {
    p.vlog < U64 && p.offset < U64 && p.size < U32
  }

  function EncodePointer(p: Pointer): (s: Bytes)
    ensures PointerShaped(s)
  {
    [POINTER_TAG] + Fixed64(p.vlog) + Fixed64(p.offset) + Fixed32(p.size)
  }

  function DecodePointer(s: Bytes): (o: Option<Pointer>)
    ensures o.Some? <==> PointerShaped(s)
  {
    if !PointerShaped(s) then None else Some(Pointer(GetFixed64(s, 1), GetFixed64(s, 9), GetFixed32(s, 17)))
  }

  lemma {:induction false} PointerRoundTrip(p: Pointer)
    requires PointerOk(p)
    ensures DecodePointer(EncodePointer(p)) == Some(p)
  {
    var s := EncodePointer(p);
    assert s[1..9] == Fixed64(p.vlog) && s[9..17] == Fixed64(p.offset) && s[17..21] == Fixed32(p.size);
  }

  /** Distinct slots of pointer shape are distinct pointers: decoding loses nothing. */
  lemma {:induction false} PointerDecodeIsExact(s: Bytes)
    requires PointerShaped(s)
    ensures EncodePointer(DecodePointer(s).value) == s
  {
    FromLittleEndianRoundTrip(s[1..9]);
    FromLittleEndianRoundTrip(s[9..17]);
    FromLittleEndianRoundTrip(s[17..21]);
    assert s == [s[0]] + s[1..9] + s[9..17] + s[17..21];
  }

  // ---- entries --------------------------------------------------------------------------------------------

  datatype Record = Record(key: Key, value: Bytes) {
    function Size(): nat {
      ENTRY_HEADER + |key| + |value|
    }
  }

  const ENTRY_HEADER: nat := 12

  /** Lengths fit the header's 32-bit fields. */
  predicate EntryOk(e: Record) {
    |e.key| + |e.value| < U32
  }

  function Body(e: Record): (s: Bytes)
    ensures |s| == 8 + |e.key| + |e.value|
  {
    Fixed32(|e.key|) + Fixed32(|e.value|) + e.key + e.value
  }

  /** Checksum over everything behind it, then key and value lengths, key, value. */
  function EncodeEntry(e: Record): (s: Bytes)
    ensures |s| == e.Size()
  {
    Fixed32(Crc32(Body(e))) + Body(e)
  }

  /** A file of intact entries. */
  function FileOf(es: seq<Record>): Bytes {
    if es == [] then [] else FileOf(es[..|es| - 1]) + EncodeEntry(es[|es| - 1])
  }

  /** Where entry `i` starts. */
  function OffsetOf(es: seq<Record>, i: nat): nat
    requires i <= |es|
  {
    if i == 0 then 0 else OffsetOf(es, i - 1) + es[i - 1].Size()
  }

  lemma {:induction false} FileLength(es: seq<Record>)
    ensures |FileOf(es)| == OffsetOf(es, |es|)
  {
    hide EncodeEntry, Record.Size;
    if es != [] {
      FileLength(es[..|es| - 1]);
      OffsetInPrefix(es, |es| - 1, |es| - 1);
    }
  }

  lemma {:induction false} OffsetInPrefix(es: seq<Record>, n: nat, i: nat)
    requires i <= n <= |es|
    ensures OffsetOf(es[..n], i) == OffsetOf(es, i)
  {
    if i > 0 { OffsetInPrefix(es, n, i - 1); }
  }

  lemma {:induction false} EntryAt(es: seq<Record>, i: nat)
    requires i < |es|
    ensures At(FileOf(es), OffsetOf(es, i), EncodeEntry(es[i]))
  {
    hide EncodeEntry;
    var init, last := es[..|es| - 1], es[|es| - 1];
    FileLength(init);
    OffsetInPrefix(es, |es| - 1, i);
    if i < |es| - 1 {
      EntryAt(init, i);
      var off, n := OffsetOf(es, i), es[i].Size();
      assert FileOf(es)[off..off + n] == FileOf(init)[off..off + n];
    } else {
      assert FileOf(es)[|FileOf(init)|..] == EncodeEntry(last);
    }
  }

  // ---- reading ----------------------------------------------------------------------------------------------

  datatype ReadResult = Found(value: Bytes) | Missing | Damaged

  /** `VLog::ReadValue`. */
  function ReadValue(f: Bytes, offset: nat, expected: nat): ReadResult {
    if offset > |f| || |f| - offset < ENTRY_HEADER then Missing
    else
      var klen, vsize := GetFixed32(f, offset + 4), GetFixed32(f, offset + 8);
      if klen > |f| || vsize > |f| || klen + vsize > |f| - offset - ENTRY_HEADER then Missing
      else if vsize != expected then Damaged
      else
        var payload := f[offset + ENTRY_HEADER..offset + ENTRY_HEADER + klen + vsize];
        if Crc32(f[offset + 4..offset + ENTRY_HEADER] + payload) != GetFixed32(f, offset) then Damaged
        else Found(payload[klen..])
  }

  lemma {:induction false} EntryFields(f: Bytes, off: nat, e: Record)
    requires At(f, off, EncodeEntry(e)) && |e.key| < U32 && |e.value| < U32
    ensures GetFixed32(f, off) == Crc32(Body(e))
    ensures GetFixed32(f, off + 4) == |e.key| && GetFixed32(f, off + 8) == |e.value|
    ensures f[off + 4..off + ENTRY_HEADER] + f[off + ENTRY_HEADER..off + e.Size()] == Body(e)
    ensures f[off + ENTRY_HEADER..off + e.Size()] == e.key + e.value
  {
    hide Crc32, LittleEndian, FromLittleEndian, Fixed32, Body;
    AtSplit(f, off, Fixed32(Crc32(Body(e))), Body(e));
    BodyFields(f, off + 4, e);
  }

  lemma {:induction false} BodyFields(f: Bytes, at: nat, e: Record)
    requires At(f, at, Body(e)) && |e.key| < U32 && |e.value| < U32
    ensures at + |Body(e)| == at + 8 + |e.key| + |e.value| <= |f|
    ensures GetFixed32(f, at) == |e.key| && GetFixed32(f, at + 4) == |e.value|
    ensures f[at..at + 8] + f[at + 8..at + |Body(e)|] == Body(e)
    ensures f[at + 8..at + |Body(e)|] == e.key + e.value
  {
    hide LittleEndian, FromLittleEndian, Fixed32;
    var lengths, end := Fixed32(|e.key|) + Fixed32(|e.value|), at + |Body(e)|;
    assert Body(e) == lengths + (e.key + e.value);
    AtSplit(f, at, lengths, e.key + e.value);
    AtSplit(f, at, Fixed32(|e.key|), Fixed32(|e.value|));
  }

  /** A value is read back from wherever its entry was appended. */
  lemma {:induction false} ReadsBack(f: Bytes, off: nat, e: Record)
    requires At(f, off, EncodeEntry(e)) && |e.key| < U32 && |e.value| < U32
    ensures ReadValue(f, off, |e.value|) == Found(e.value)
  {
    hide Crc32, EncodeEntry, GetFixed32, Body;
    EntryFields(f, off, e);
    assert (e.key + e.value)[|e.key|..] == e.value;
  }

  /** Where lengths and checksum are right, an entry stands. */
  lemma {:induction false} EntryStands(f: Bytes, off: nat)
    requires off + ENTRY_HEADER + GetLengths(f, off) <= |f|
    requires Crc32(f[off + 4..off + ENTRY_HEADER + GetLengths(f, off)]) == GetFixed32(f, off)
    ensures At(f, off, EncodeEntry(RecordAt(f, off)))
  {
    hide Crc32, GetFixed32, Fixed32;
    var mid, n := off + ENTRY_HEADER, GetLengths(f, off);
    var e := RecordAt(f, off);
    FieldBack(f, off);
    FieldBack(f, off + 4);
    FieldBack(f, off + 8);
    var klen := GetFixed32(f, off + 4);
    assert f[off + 4..mid + n] == f[off + 4..off + 8] + f[off + 8..mid] + f[mid..mid + klen] + f[mid + klen..mid + n];
    assert Body(e) == f[off + 4..mid + n];
    assert f[off..mid + n] == f[off..off + 4] + f[off + 4..mid + n];
  }

  /** The length of the key and value that the header at `off` claims. */
  function GetLengths(f: Bytes, off: nat): nat {
    if off + ENTRY_HEADER <= |f| then GetFixed32(f, off + 4) + GetFixed32(f, off + 8) else 0
  }

  /** The key and value that follow that header. */
  function RecordAt(f: Bytes, off: nat): Record
    requires off + ENTRY_HEADER + GetLengths(f, off) <= |f|
  {
    var klen, mid := GetFixed32(f, off + 4), off + ENTRY_HEADER;
    Record(f[mid..mid + klen], f[mid + klen..mid + GetLengths(f, off)])
  }

  /** On arbitrary bytes: a value is returned exactly where an intact entry with it stands. */
  lemma {:induction false} ReadValueIff(f: Bytes, off: nat, size: nat, v: Bytes)
    requires size < U32
    ensures ReadValue(f, off, size) == Found(v) <==>
              |v| == size && exists k :: |k| < U32 && At(f, off, EncodeEntry(Record(k, v)))
  {
    hide EncodeEntry, At, ReadValue;
    if ReadValue(f, off, size) == Found(v) { var k := FoundIsIntact(f, off, size); }
    if |v| == size && exists k :: |k| < U32 && At(f, off, EncodeEntry(Record(k, v))) {
      var k :| |k| < U32 && At(f, off, EncodeEntry(Record(k, v)));
      ReadsBack(f, off, Record(k, v));
    }
  }

  lemma {:induction false} FoundIsIntact(f: Bytes, off: nat, size: nat) returns (k: Key)
    requires ReadValue(f, off, size).Found?
    ensures var v := ReadValue(f, off, size).value;
            |v| == size && |k| < U32 && At(f, off, EncodeEntry(Record(k, v)))
  {
    hide Crc32, EncodeEntry, GetFixed32, At;
    var mid, n := off + ENTRY_HEADER, GetLengths(f, off);
    assert f[off + 4..mid] + f[mid..mid + n] == f[off + 4..mid + n];
    EntryStands(f, off);
    k := RecordAt(f, off).key;
    assert RecordAt(f, off).value == f[mid..mid + n][GetFixed32(f, off + 4)..];
  }

  /** A value that can be read stays readable whatever is appended. */
  lemma {:induction false} AppendKeepsRead(f: Bytes, g: Bytes, offset: nat, expected: nat)
    requires ReadValue(f, offset, expected).Found?
    ensures ReadValue(f + g, offset, expected) == ReadValue(f, offset, expected)
  {
    hide Crc32, FromLittleEndian;
    var klen, mid := GetFixed32(f, offset + 4), offset + ENTRY_HEADER;
    assert (f + g)[offset..offset + 4] == f[offset..offset + 4];
    assert (f + g)[offset + 4..offset + 8] == f[offset + 4..offset + 8];
    assert (f + g)[offset + 8..mid] == f[offset + 8..mid];
    assert (f + g)[offset + 4..mid] == f[offset + 4..mid];
    assert (f + g)[mid..mid + klen + expected] == f[mid..mid + klen + expected];
  }

  // ---- scanning ---------------------------------------------------------------------------------------------

  datatype Located = Located(entry: Record, offset: nat)

  /** `VLog::ScanEntries` from `off`: entries up to the first one that is torn or fails its checksum. */
  function Scan(f: Bytes, off: nat): seq<Located>
    decreases |f| - off
  {
    if off + ENTRY_HEADER > |f| then []
    else
      var klen, vsize := GetFixed32(f, off + 4), GetFixed32(f, off + 8);
      var total := ENTRY_HEADER + klen + vsize;
      if off + total > |f| || klen + vsize >= U32 then []
      else
        var payload := f[off + ENTRY_HEADER..off + total];
        if Crc32(f[off + 4..off + ENTRY_HEADER] + payload) != GetFixed32(f, off) then []
        else [Located(Record(payload[..klen], payload[klen..]), off)] + Scan(f, off + total)
  }

  /** The entries of a list with their offsets, from index `i` on. */
  function Locate(es: seq<Record>, i: nat): (r: seq<Located>)
    requires i <= |es|
    ensures |r| == |es| - i
    ensures forall j :: 0 <= j < |r| ==> r[j] == Located(es[i + j], OffsetOf(es, i + j))
    decreases |es| - i
  {
    if i == |es| then [] else [Located(es[i], OffsetOf(es, i))] + Locate(es, i + 1)
  }

  lemma {:induction false} ScanStep(f: Bytes, off: nat, e: Record)
    requires At(f, off, EncodeEntry(e)) && EntryOk(e)
    ensures Scan(f, off) == [Located(e, off)] + Scan(f, off + e.Size())
  {
    hide Crc32, EncodeEntry, GetFixed32, Body;
    EntryFields(f, off, e);
    assert (e.key + e.value)[|e.key|..] == e.value && (e.key + e.value)[..|e.key|] == e.key;
  }

  /** Scanning a file of intact entries visits each of them once, at its offset. */
  lemma {:induction false} ScanFindsAll(es: seq<Record>, i: nat)
    requires i <= |es| && forall j :: 0 <= j < |es| ==> EntryOk(es[j])
    ensures Scan(FileOf(es), OffsetOf(es, i)) == Locate(es, i)
    decreases |es| - i
  {
    hide EncodeEntry, FileOf, At, Crc32, GetFixed32;
    if i == |es| {
      FileLength(es);
    } else {
      EntryAt(es, i);
      ScanStep(FileOf(es), OffsetOf(es, i), es[i]);
      ScanFindsAll(es, i + 1);
    }
  }

  // ---- scanning behind a torn tail ----------------------------------------------------------------------------

  /** Where a scan from `off` stops: behind the last entry it visits. */
  function ScanEnd(f: Bytes, off: nat): nat {
    var r := Scan(f, off);
    if r == [] then off else r[|r| - 1].offset + r[|r| - 1].entry.Size()
  }

  /** A scan that finds anything finds an entry at `off` and goes on behind it. */
  lemma {:induction false} FirstScanned(f: Bytes, off: nat)
    requires Scan(f, off) != []
    ensures var e := Scan(f, off)[0].entry;
            && Scan(f, off) == [Located(e, off)] + Scan(f, off + e.Size())
            && ScanEnd(f, off) == ScanEnd(f, off + e.Size())
            && off + ENTRY_HEADER <= off + e.Size() <= |f|
  {
    hide Crc32, GetFixed32;
  }

  lemma {:induction false} OffsetsFrom(f: Bytes, off: nat, l: Located)
    requires l in Scan(f, off)
    ensures l.offset >= off
    decreases |f| - off
  {
    hide Crc32, GetFixed32;
    FirstScanned(f, off);
    var next := off + Scan(f, off)[0].entry.Size();
    if l in Scan(f, next) { OffsetsFrom(f, next, l); }
  }

  lemma {:induction false} SameFields(f: Bytes, x: Bytes, off: nat)
    requires off + ENTRY_HEADER <= |f|
    ensures GetFixed32(f + x, off) == GetFixed32(f, off)
    ensures GetFixed32(f + x, off + 4) == GetFixed32(f, off + 4) && GetFixed32(f + x, off + 8) == GetFixed32(f, off + 8)
    ensures (f + x)[off + 4..off + ENTRY_HEADER] == f[off + 4..off + ENTRY_HEADER]
  {
    hide FromLittleEndian;
    assert (f + x)[off..off + 4] == f[off..off + 4];
    assert (f + x)[off + 4..off + 8] == f[off + 4..off + 8];
    assert (f + x)[off + 8..off + ENTRY_HEADER] == f[off + 8..off + ENTRY_HEADER];
  }

  /** Entries found stay found when bytes are appended. */
  lemma {:induction false} FirstStays(f: Bytes, x: Bytes, off: nat)
    requires Scan(f, off) != []
    ensures var e := Scan(f, off)[0].entry; Scan(f + x, off) == [Located(e, off)] + Scan(f + x, off + e.Size())
  {
    hide Crc32, GetFixed32;
    SameFields(f, x, off);
    var total := ENTRY_HEADER + GetFixed32(f, off + 4) + GetFixed32(f, off + 8);
    assert (f + x)[off + ENTRY_HEADER..off + total] == f[off + ENTRY_HEADER..off + total];
  }

  lemma {:induction false} FoundInside(f: Bytes, x: Bytes, off: nat)
    requires Scan(f + x, off) != [] && off + Scan(f + x, off)[0].entry.Size() <= |f|
    ensures Scan(f, off) != []
  {
    hide Crc32, GetFixed32;
    FirstScanned(f + x, off);
    SameFields(f, x, off);
    var next := off + Scan(f + x, off)[0].entry.Size();
    assert (f + x)[off + ENTRY_HEADER..next] == f[off + ENTRY_HEADER..next];
  }

  /** A scan stuck inside `f` steps over its end or stays stuck, whatever is appended. */
  lemma {:induction false} StuckScan(f: Bytes, x: Bytes, off: nat, l: Located)
    requires off < |f| && Scan(f, off) == [] && l in Scan(f + x, off)
    ensures l.offset != |f|
  {
    hide Crc32, GetFixed32, Scan;
    var g := f + x;
    FirstScanned(g, off);
    var next := off + Scan(g, off)[0].entry.Size();
    if next <= |f| { FoundInside(f, x, off); }
    if l in Scan(g, next) { OffsetsFrom(g, next, l); }
  }

  lemma {:induction false} ScanOfAppended(f: Bytes, x: Bytes, off: nat)
    requires off <= |f|
    ensures ScanEnd(f, off) == |f| ==> Scan(f + x, off) == Scan(f, off) + Scan(f + x, |f|)
    ensures ScanEnd(f, off) != |f| ==> forall l :: l in Scan(f + x, off) ==> l.offset != |f|
    decreases |f| - off
  {
    hide Crc32, GetFixed32, Scan;
    if Scan(f, off) != [] {
      FirstScanned(f, off);
      FirstStays(f, x, off);
      ScanOfAppended(f, x, off + Scan(f, off)[0].entry.Size());
    } else if off < |f| {
      forall l | l in Scan(f + x, off) ensures l.offset != |f| {
        StuckScan(f, x, off, l);
      }
    }
  }

  /**
   * For every file: an entry appended to it is found by a scan if and only if the scan of the file
   * before came to its end. Its pointer reads the value in any case.
   */
  lemma {:induction false} AppendedIsScannedIff(f: Bytes, e: Record)
    requires EntryOk(e)
    ensures Located(e, |f|) in Scan(f + EncodeEntry(e), 0) <==> ScanEnd(f, 0) == |f|
    ensures ScanEnd(f, 0) == |f| ==> Scan(f + EncodeEntry(e), 0) == Scan(f, 0) + [Located(e, |f|)]
    ensures ReadValue(f + EncodeEntry(e), |f|, |e.value|) == Found(e.value)
  {
    hide Crc32, GetFixed32, EncodeEntry, Scan, ReadValue;
    var g := f + EncodeEntry(e);
    ScanOfAppended(f, EncodeEntry(e), 0);
    assert g[|f|..] == EncodeEntry(e);
    ScanStep(g, |f|, e);
    assert Scan(g, |f| + e.Size()) == [] by { ScanPastEnd(g, |f| + e.Size()); }
    assert Scan(g, |f|) == [Located(e, |f|)];
    ReadsBack(g, |f|, e);
  }

  lemma {:induction false} ScanPastEnd(f: Bytes, off: nat)
    requires off >= |f|
    ensures Scan(f, off) == []
  {
  }

  // ---- what a scan says about single entries ----------------------------------------------------------------

  /** A scan of the whole file visits an entry at `off`. */
  ghost predicate InScan(f: Bytes, off: nat) {
    exists l :: l in Scan(f, 0) && l.offset == off
  }

  lemma {:induction false} ScannedEntry(f: Bytes, off: nat, l: Located)
    requires l in Scan(f, off)
    ensures Scan(f, l.offset) != [] && Scan(f, l.offset)[0] == l && EntryOk(l.entry)
    decreases |f| - off
  {
    hide Crc32, GetFixed32;
    FirstScanned(f, off);
    var next := off + Scan(f, off)[0].entry.Size();
    if l in Scan(f, next) { ScannedEntry(f, next, l); }
  }

  /** What a scan visits where an entry was written is that entry. */
  lemma {:induction false} ScannedIsStored(f: Bytes, l: Located, e: Record)
    requires l in Scan(f, 0) && At(f, l.offset, EncodeEntry(e)) && EntryOk(e)
    ensures l.entry == e
  {
    hide Scan, EncodeEntry, EntryOk, At;
    ScannedEntry(f, 0, l);
    ScanStep(f, l.offset, e);
  }

  lemma {:induction false} FirstIsIntact(f: Bytes, off: nat)
    requires Scan(f, off) != []
    ensures var e := Scan(f, off)[0].entry; At(f, off, EncodeEntry(e)) && EntryOk(e)
  {
    hide Crc32, EncodeEntry, GetFixed32, At;
    var mid, n := off + ENTRY_HEADER, GetLengths(f, off);
    assert f[off + 4..mid] + f[mid..mid + n] == f[off + 4..mid + n];
    EntryStands(f, off);
    var klen := GetFixed32(f, off + 4);
    assert f[mid..mid + n][..klen] == f[mid..mid + klen] && f[mid..mid + n][klen..] == f[mid + klen..mid + n];
  }

  /**
   * On arbitrary bytes: a scan visits a list of intact entries that fills the file up to where it
   * stops, and no intact entry stands there.
   */
  lemma {:induction false} ScanIsLongest(f: Bytes) returns (es: seq<Record>)
    ensures Scan(f, 0) == Locate(es, 0) && FileOf(es) <= f && |FileOf(es)| == ScanEnd(f, 0)
    ensures forall e :: EntryOk(e) ==> !At(f, |FileOf(es)|, EncodeEntry(e))
  {
    hide Scan, EncodeEntry, ScanEnd, EntryOk;
    es := ScanFrom(f, 0, []);
  }

  lemma {:induction false} ScanFrom(f: Bytes, off: nat, done: seq<Record>) returns (es: seq<Record>)
    requires off <= |f| && f[..off] == FileOf(done)
    ensures |done| <= |es| && es[..|done|] == done && Scan(f, off) == Locate(es, |done|)
    ensures FileOf(es) <= f && |FileOf(es)| == ScanEnd(f, off)
    ensures forall e :: EntryOk(e) ==> !At(f, |FileOf(es)|, EncodeEntry(e))
    decreases |f| - off
  {
    hide Scan, EncodeEntry, FileOf, At;
    if Scan(f, off) == [] {
      es := done;
      assert FileOf(done) == f[..off];
      NothingIntact(f, off);
    } else {
      FirstScanned(f, off);
      FirstIsIntact(f, off);
      var e := Scan(f, off)[0].entry;
      var more := done + [e];
      EntryExtends(f, off, done, e);
      es := ScanFrom(f, off + e.Size(), more);
      assert es[..|done|] == es[..|more|][..|done|];
      assert es[|done|] == es[..|more|][|done|] == e;
      FileLength(done);
      OffsetInPrefix(es, |done|, |done|);
    }
  }

  lemma {:induction false} NothingIntact(f: Bytes, off: nat)
    requires Scan(f, off) == []
    ensures forall e :: EntryOk(e) ==> !At(f, off, EncodeEntry(e))
  {
    hide Scan, EncodeEntry, EntryOk, At;
    forall e | EntryOk(e) ensures !At(f, off, EncodeEntry(e)) {
      if At(f, off, EncodeEntry(e)) { ScanStep(f, off, e); }
    }
  }

  lemma {:induction false} EntryExtends(f: Bytes, off: nat, done: seq<Record>, e: Record)
    requires off <= |f| && f[..off] == FileOf(done) && At(f, off, EncodeEntry(e))
    ensures off + e.Size() <= |f| && f[..off + e.Size()] == FileOf(done + [e])
  {
    hide EncodeEntry;
    assert (done + [e])[..|done|] == done;
    assert f[..off + e.Size()] == f[..off] + f[off..off + e.Size()];
  }

  /** One leftover byte is enough to hide every entry appended later. */
  lemma {:induction false} TornTailHidesEntries(x: byte, e: Record)
    requires EntryOk(e)
    ensures Located(e, 1) !in Scan([x] + EncodeEntry(e), 0)
    ensures ReadValue([x] + EncodeEntry(e), 1, |e.value|) == Found(e.value)
  {
    hide EncodeEntry;
    AppendedIsScannedIff([x], e);
  }

  /**
   * Where moreover the key is not too short for its value, the scan finds nothing at all: the key
   * length it reads, one byte off, exceeds the file.
   */
  lemma {:induction false} TornTailScansNothing(x: byte, e: Record)
    requires EntryOk(e) && 0 < |e.key| < 0x100_0000 && |e.key| + |e.value| + 1 < 256 * |e.key|
    ensures Scan([x] + EncodeEntry(e), 0) == []
  {
    hide Crc32, FromLittleEndian, LittleEndian, Fixed32, GetFixed32, EncodeEntry;
    var f := [x] + EncodeEntry(e);
    assert f[1..] == EncodeEntry(e);
    KeyLengthField(f, 1, e);
    ShiftedField(f, 4, |e.key|);
  }

  lemma {:induction false} KeyLengthField(f: Bytes, off: nat, e: Record)
    requires At(f, off, EncodeEntry(e))
    ensures f[off + 4..off + 8] == Fixed32(|e.key|)
  {
    hide Crc32, Fixed32;
    AtSplit(f, off, Fixed32(Crc32(Body(e))), Body(e));
    AtSplit(f, off + 4, Fixed32(|e.key|), Body(e)[4..]);
  }
}
