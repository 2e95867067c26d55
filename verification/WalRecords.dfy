/** Log payloads: how a write is recorded, and what a crashed log replays to. */
module WalRecords {
  import opened Bytes
  import opened Entries
  import opened Wal
  import opened WalReplay

  /** The payload `WriteEntry` appends: sequence number, type, key, and the stored slot of a value. */
  function EncodePayload(e: Entry): Bytes {
    match e.slot
    case Put(v) => Fixed64(e.seqno) + [TYPE_VALUE] + Fixed32(|e.key|) + e.key + Fixed32(|v|) + v
    case Tombstone => Fixed64(e.seqno) + [TYPE_DELETION] + Fixed32(|e.key|) + e.key
  }

  /** `ParseRecord`: every field boundary checked, anything else refused. */
  function ParsePayload(p: Bytes): Option<Entry> {
    if |p| < 13 then None
    else
      var seqno, t, klen := GetFixed64(p, 0), p[8], GetFixed32(p, 9);
      if klen > |p| - 13 then None
      else
        var key := p[13..13 + klen];
        if t == TYPE_VALUE then
          if |p| < 13 + klen + 4 then None
          else
            var vlen := GetFixed32(p, 13 + klen);
            if |p| != 13 + klen + 4 + vlen then None else Some(Entry(key, seqno, Put(p[17 + klen..])))
        else if t == TYPE_DELETION then
          if |p| != 13 + klen then None else Some(Entry(key, seqno, Tombstone))
        else None
  }

  /** Sizes the format's length fields can hold. */
  predicate Recordable(e: Entry) {
    && e.seqno < U64 && |e.key| < U32
    && (e.slot.Put? ==> |e.slot.value| < U32)
  }

  lemma {:induction false} FieldAt32(p: Bytes, pre: Bytes, v: nat, post: Bytes)
    requires p == pre + Fixed32(v) + post && v < U32
    ensures GetFixed32(p, |pre|) == v
  {
    Fixed32At(pre, v, post);
  }

  /** Every recorded write parses back to itself. */
  lemma {:induction false} PayloadRoundTrip(e: Entry)
    requires Recordable(e)
    ensures ParsePayload(EncodePayload(e)) == Some(e)
  {
    hide LittleEndian, FromLittleEndian, Fixed32, Fixed64, GetFixed32;
    var p := EncodePayload(e);
    var head := Fixed64(e.seqno) + [if e.slot.Put? then TYPE_VALUE else TYPE_DELETION];
    var tail := if e.slot.Put? then Fixed32(|e.slot.value|) + e.slot.value else [];
    assert p == head + Fixed32(|e.key|) + (e.key + tail);
    FieldAt32(p, head, |e.key|, e.key + tail);
    assert p[0..8] == Fixed64(e.seqno);
    assert p[13..13 + |e.key|] == e.key;
    if e.slot.Put? {
      var pre := head + Fixed32(|e.key|) + e.key;
      assert p == pre + Fixed32(|e.slot.value|) + e.slot.value;
      FieldAt32(p, pre, |e.slot.value|, e.slot.value);
      assert p[17 + |e.key|..] == e.slot.value;
    }
  }

  /** Nothing else parses: an accepted payload is the encoding of the entry it yields. */
  lemma {:induction false} ParseIsExact(p: Bytes)
    requires ParsePayload(p).Some?
    ensures EncodePayload(ParsePayload(p).value) == p
  {
    var e := ParsePayload(p).value;
    FromLittleEndianRoundTrip(p[0..8]);
    FieldBack(p, 9);
    assert Fixed64(e.seqno) == p[0..8];
    var klen := |e.key|;
    assert p[0..8] + [p[8]] + p[9..13] + p[13..13 + klen] == p[..13 + klen];
    if e.slot.Put? {
      FieldBack(p, 13 + klen);
      assert p[..13 + klen] + p[13 + klen..17 + klen] + p[17 + klen..] == p;
    } else {
      assert p[..13 + klen] == p;
    }
  }

  function Payloads(log: seq<Entry>): (ps: seq<Bytes>)
    ensures |ps| == |log| && forall i :: 0 <= i < |log| ==> ps[i] == EncodePayload(log[i])
  {
    if log == [] then [] else [EncodePayload(log[0])] + Payloads(log[1..])
  }

  /** The bytes of a log file. */
  function LogBytes(log: seq<Entry>): Bytes {
    EncodeAll(Payloads(log), 0)
  }

  /** Records up to the first malformed one, as `Open` applies them. */
  function ParseAll(records: seq<Bytes>): seq<Entry> {
    if records == [] then []
    else
      var o := ParsePayload(records[0]);
      if o.None? then [] else [o.value] + ParseAll(records[1..])
  }

  lemma {:induction false} ParseAllPayloads(log: seq<Entry>)
    requires forall i :: 0 <= i < |log| ==> Recordable(log[i])
    ensures ParseAll(Payloads(log)) == log
  {
    if log != [] {
      PayloadRoundTrip(log[0]);
      ParseAllPayloads(log[1..]);
    }
  }

  // ---- what Open makes of a log file ------------------------------------------------------------------------

  /** Entries applied, where the last of them ends, and whether the log ended there without complaint. */
  datatype Applied = Applied(entries: seq<Entry>, end: nat, clean: bool)

  /** The loop of `Open` over one log: up to the end, damage, or a record it cannot parse. */
  function ApplyLog(f: Bytes, p: nat): (a: Applied)
    requires p <= |f|
    ensures p <= a.end <= |f|
    decreases |f| - p
  {
    match ReadRecord(f, p, None)
    case Eof => Applied([], p, true)
    case Corruption => Applied([], p, false)
    case Record(payload, end) =>
      var o := ParsePayload(payload);
      if o.None? then Applied([], p, false)
      else
        var rest := ApplyLog(f, end);
        Applied([o.value] + rest.entries, rest.end, rest.clean)
  }

  function ReplayedEntries(f: Bytes): seq<Entry> {
    ApplyLog(f, 0).entries
  }

  /** The file after `Open`: cut behind the last entry applied on damage or refusal, otherwise left alone. */
  function OpenedFile(f: Bytes): Bytes {
    var a := ApplyLog(f, 0);
    if a.clean then f else f[..a.end]
  }

  /** The file replays to `log` and holds nothing else. */
  ghost predicate Closed(f: Bytes, log: seq<Entry>) {
    ApplyLog(f, 0) == Applied(log, |f|, true)
  }

  lemma {:induction false} AppliedIsParsed(f: Bytes, p: nat)
    requires p <= |f|
    ensures var a, r := ApplyLog(f, p), ReadAll(f, p);
            && a.entries == ParseAll(r.records)
            && (|a.entries| == |r.records| ==> a.end == r.end && a.clean == r.clean)
    decreases |f| - p
  {
    hide ReadRecord, ParsePayload;
    var rec := ReadRecord(f, p, None);
    if rec.Record? {
      AppliedIsParsed(f, rec.end);
      var r := ReadAll(f, p);
      assert r.records[0] == rec.payload && r.records[1..] == ReadAll(f, rec.end).records;
    }
  }

  lemma {:induction false} SameFirstRecord(f: Bytes, g: Bytes, p: nat)
    requires ReadRecord(f, p, None).Record? && (f <= g || (g <= f && ReadRecord(f, p, None).end <= |g|))
    ensures ReadRecord(g, p, None) == ReadRecord(f, p, None)
  {
    hide ReadRecord;
    var n := ReadRecord(f, p, None).end;
    assert f[..n] == g[..n];
    RecordIsLocal(f, g, p, None);
  }

  lemma {:induction false} ApplyStep(f: Bytes, p: nat)
    requires p <= |f|
    ensures var rec, a := ReadRecord(f, p, None), ApplyLog(f, p);
            if rec.Record? && ParsePayload(rec.payload).Some? then
              var rest := ApplyLog(f, rec.end);
              a == Applied([ParsePayload(rec.payload).value] + rest.entries, rest.end, rest.clean)
            else a == Applied([], p, rec == Eof)
  {
    hide ReadRecord, ParsePayload;
  }

  lemma {:induction false} RegroupEntries(x: Entry, a: seq<Entry>, b: seq<Entry>)
    ensures ([x] + a) + b == [x] + (a + b)
  {
  }

  /** More bytes behind a log that ended without complaint: what was applied is applied first. */
  lemma {:induction false} ApplyThrough(f: Bytes, g: Bytes, p: nat)
    requires p <= |f| && f <= g && ApplyLog(f, p).clean
    ensures var a, rest := ApplyLog(f, p), ApplyLog(g, ApplyLog(f, p).end);
            ApplyLog(g, p) == Applied(a.entries + rest.entries, rest.end, rest.clean)
    decreases |f| - p
  {
    hide ReadRecord, ParsePayload, ApplyLog;
    ApplyStep(f, p);
    var rec, rest := ReadRecord(f, p, None), ApplyLog(g, ApplyLog(f, p).end);
    if rec.Record? && ParsePayload(rec.payload).Some? {
      ApplyThrough(f, g, rec.end);
      SameFirstRecord(f, g, p);
      ApplyStep(g, p);
      RegroupEntries(ParsePayload(rec.payload).value, ApplyLog(f, rec.end).entries, rest.entries);
    } else {
      assert [] + rest.entries == rest.entries;
    }
  }

  /** For every byte string: what `Open` keeps after a cut is a closed log of what it applied. */
  lemma {:induction false} CutIsClosed(f: Bytes, p: nat)
    requires p <= |f|
    ensures var a := ApplyLog(f, p); ApplyLog(f[..a.end], p) == Applied(a.entries, a.end, true)
    decreases |f| - p
  {
    hide ReadRecord, ParsePayload, ApplyLog;
    ApplyStep(f, p);
    var a, rec := ApplyLog(f, p), ReadRecord(f, p, None);
    if rec.Record? && ParsePayload(rec.payload).Some? {
      CutIsClosed(f, rec.end);
      SameFirstRecord(f, f[..a.end], p);
    } else {
      EndOfFile(f[..p], p);
    }
    ApplyStep(f[..a.end], p);
  }

  lemma {:induction false} EncodeAllConcat(xs: seq<Bytes>, ys: seq<Bytes>, off: nat)
    ensures EncodeAll(xs + ys, off) == EncodeAll(xs, off) + EncodeAll(ys, off + |EncodeAll(xs, off)|)
    decreases |xs|
  {
    hide Encode;
    if xs == [] {
      assert xs + ys == ys;
    } else {
      var e := Encode(xs[0], off, true);
      EncodeAllConcat(xs[1..], ys, off + |e|);
      assert (xs + ys)[1..] == xs[1..] + ys;
      assert (xs + ys)[0] == xs[0];
    }
  }

  // ---- appending --------------------------------------------------------------------------------------------

  /** Entries encoded where a file ends are what is applied from there on. */
  lemma {:induction false} AppendedApplies(pre: Bytes, es: seq<Entry>)
    requires forall i :: 0 <= i < |es| ==> Recordable(es[i])
    ensures var g := pre + EncodeAll(Payloads(es), |pre|); ApplyLog(g, |pre|) == Applied(es, |g|, true)
  {
    hide Encode, EncodeAll, ReadAll, ApplyLog, ParsePayload;
    WholeLogReplays(pre, Payloads(es));
    AppliedIsParsed(pre + EncodeAll(Payloads(es), |pre|), |pre|);
    ParseAllPayloads(es);
  }

  lemma {:induction false} LogBytesIsClosed(log: seq<Entry>)
    requires forall i :: 0 <= i < |log| ==> Recordable(log[i])
    ensures Closed(LogBytes(log), log)
  {
    hide EncodeAll, ApplyLog;
    AppendedApplies([], log);
    assert [] + LogBytes(log) == LogBytes(log);
  }

  /** Appending entries to a closed log gives a closed log. */
  lemma {:induction false} AppendKeepsClosed(f: Bytes, log: seq<Entry>, es: seq<Entry>)
    requires Closed(f, log) && forall i :: 0 <= i < |es| ==> Recordable(es[i])
    ensures Closed(f + EncodeAll(Payloads(es), |f|), log + es)
  {
    hide EncodeAll, ApplyLog;
    AppendedApplies(f, es);
    ApplyThrough(f, f + EncodeAll(Payloads(es), |f|), 0);
  }

  /**
   * A crash at any byte of an append to a closed log: the file replays to the entries acknowledged
   * before, or to those and the one in flight where the append was complete. Where `Open` cuts or
   * nothing is left over, the file is closed again.
   */
  lemma {:induction false} CrashedAppendReplays(base: Bytes, log: seq<Entry>, inflight: Entry, f: Bytes)
    requires Closed(base, log) && Recordable(inflight)
    requires base <= f <= base + Encode(EncodePayload(inflight), |base|, true)
    ensures var whole := f == base + Encode(EncodePayload(inflight), |base|, true);
            && ReplayedEntries(f) == (if whole then log + [inflight] else log)
            && (whole ==> Closed(f, log + [inflight]))
            && (!ApplyLog(f, 0).clean || ApplyLog(f, 0).end == |f| ==> Closed(OpenedFile(f), ReplayedEntries(f)))
  {
    hide Encode, ApplyLog, EncodePayload, ReadRecord;
    var payload := EncodePayload(inflight);
    var e := Encode(payload, |base|, true);
    ApplyThrough(base, f, 0);
    CutIsClosed(f, 0);
    if f == base + e {
      assert Payloads([inflight]) == [payload];
      OneRecord(payload, |base|);
      AppendKeepsClosed(base, log, [inflight]);
    } else {
      assert f[|base|..] == e[..|f| - |base|];
      assert |f| < |base + e|;
      TornIsNotRead(f, |base|, payload, None);
      ApplyStep(f, |base|);
      assert log + [] == log;
    }
  }

  lemma {:induction false} OneRecord(payload: Bytes, off: nat)
    ensures EncodeAll([payload], off) == Encode(payload, off, true)
  {
    hide Encode;
    assert [payload][1..] == [];
  }
}
