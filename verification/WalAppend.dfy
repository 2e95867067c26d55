/** When records appended to a recovered log read back: exactly when the tail left in it is padding. */
module WalAppend {
  import opened Bytes
  import opened Entries
  import opened Crc
  import opened Wal
  import opened WalReplay
  import opened WalRecords

  // ---- where the reader stops ---------------------------------------------------------------------------

  predicate ZeroHeader(f: Bytes, p: nat)
    requires p + HEADER <= |f|
  {
    f[p + 8] == ZERO && GetFixed32(f, p) == 0 && GetFixed32(f, p + 4) == 0
  }

  /** The reader skips to the end of the block around `p`. */
  predicate Skips(f: Bytes, p: nat)
    requires p < |f|
  {
    p + HEADER > BlockEnd(f, p) || ZeroHeader(f, p)
  }

  /** Where a reader at `p` stops skipping whole blocks. */
  function Stop(f: Bytes, p: nat): (s: nat)
    requires p <= |f|
    ensures p <= s <= |f| && (s == p || s % BLOCK == 0)
    decreases |f| - p
  {
    if p == |f| || !Skips(f, p) || BlockEnd(f, p) % BLOCK != 0 then p else Stop(f, BlockEnd(f, p))
  }

  lemma {:induction false} WholeBlock(f: Bytes, g: Bytes, p: nat)
    requires p < |f| && f <= g && BlockEnd(f, p) % BLOCK == 0
    ensures BlockEnd(g, p) == BlockEnd(f, p)
  {
  }

  /** In a longer file the last, incomplete block reaches on to its end. */
  lemma {:induction false} LastBlockGrows(f: Bytes, g: Bytes, s: nat)
    requires s < |f| && BlockEnd(f, s) == |f| && |f| % BLOCK != 0 && f <= g
    ensures var e := |f| + (BLOCK - |f| % BLOCK); BlockEnd(g, s) == (if |g| <= e then |g| else e) && e % BLOCK == 0
  {
    assert s / BLOCK == |f| / BLOCK;
  }

  lemma {:induction false} SameHeader(f: Bytes, g: Bytes, p: nat)
    requires p + HEADER <= |f| && f <= g
    ensures ZeroHeader(g, p) == ZeroHeader(f, p)
  {
    assert f == g[..|f|];
    HeaderAgrees(f, g, |f|, p);
  }

  /** A file with more bytes behind is read from the same place on. */
  lemma {:induction false} ReadsFromStop(f: Bytes, g: Bytes, p: nat)
    requires p <= |f| && f <= g
    ensures ReadPhysical(g, p) == ReadPhysical(g, Stop(f, p))
    decreases |f| - p
  {
    hide Crc32, GetFixed32;
    if p < |f| && Skips(f, p) && BlockEnd(f, p) % BLOCK == 0 {
      var e := BlockEnd(f, p);
      WholeBlock(f, g, p);
      if p + HEADER <= e { SameHeader(f, g, p); }
      ReadsFromStop(f, g, e);
    }
  }

  /** A file that holds no further record is skipped to its end, or to a tail inside its last block. */
  lemma {:induction false} StopOfTail(f: Bytes, p: nat)
    requires p <= |f| && ReadPhysical(f, p) == NoMore
    ensures var s := Stop(f, p); s == |f| || (Skips(f, s) && BlockEnd(f, s) == |f| && |f| % BLOCK != 0)
    decreases |f| - p
  {
    hide Crc32, GetFixed32;
    if p < |f| {
      var e := BlockEnd(f, p);
      if Skips(f, p) && e % BLOCK == 0 { StopOfTail(f, e); }
    }
  }

  // ---- the condition ------------------------------------------------------------------------------------------

  /** The file as the writer pads it before its next header. */
  function Padded(f: Bytes): (g: Bytes)
    ensures f <= g && |g| == Start(|f|)
  {
    f + Zeros(Start(|f|) - |f|)
  }

  /**
   * Nothing is left behind the last good record, or no header fits in the last block any more and
   * the reader skips what is left, padded as the writer pads it.
   */
  predicate Continues(f: Bytes, end: nat) {
    end == |f| || (Start(|f|) % BLOCK == 0 && ReadPhysical(Padded(f), end) == NoMore)
  }

  /** Entries appended to the opened file replay behind those it held. */
  ghost predicate AppendsReadBack(f: Bytes) {
    forall es: seq<Entry> :: es != [] && AllRecordable(es) ==>
      ReplayedEntries(OpenedFile(f) + EncodeAll(Payloads(es), |OpenedFile(f)|)) == ReplayedEntries(f) + es
  }

  ghost predicate AllRecordable(es: seq<Entry>) {
    forall i :: 0 <= i < |es| ==> Recordable(es[i])
  }

  // ---- what is appended is found ------------------------------------------------------------------------------

  lemma {:induction false} CleanTail(f: Bytes, p: nat)
    requires p <= |f| && ApplyLog(f, p).clean
    ensures ReadPhysical(f, ApplyLog(f, p).end) == NoMore
    decreases |f| - p
  {
    hide ReadPhysical, ReadRecord, ParsePayload;
    var rec := ReadRecord(f, p, None);
    if rec.Record? {
      CleanTail(f, rec.end);
    } else {
      EofIsNoMore(f, p, None);
    }
  }

  lemma {:induction false} EofIsNoMore(f: Bytes, p: nat, scratch: Option<Bytes>)
    requires ReadRecord(f, p, scratch) == Eof
    ensures scratch.None? && ReadPhysical(f, p) == NoMore
    decreases |f| - p
  {
    hide ReadPhysical;
    var ph := ReadPhysical(f, p);
    if ph.Fragment? && ph.t == FIRST && scratch.None? {
      EofIsNoMore(f, ph.end, Some(ph.bytes));
    } else if ph.Fragment? && ph.t == MIDDLE && scratch.Some? {
      EofIsNoMore(f, ph.end, Some(scratch.value + ph.bytes));
    }
  }

  lemma {:induction false} EncodePads(payload: Bytes, off: nat)
    ensures Encode(payload, off, true) == Zeros(Start(off) - off) + Encode(payload, Start(off), true)
  {
    hide Crc32, Physical;
    var s, room := Start(off), Room(Start(off));
    assert Start(s) == s && Zeros(s - s) == [];
    if |payload| <= room {
      assert Zeros(s - s) + Physical(FULL, payload) == Physical(FULL, payload);
    } else {
      var head, rest := Physical(FIRST, payload[..room]), Encode(payload[room..], s + HEADER + room, false);
      assert Zeros(s - s) + head + rest == head + rest;
      assert Zeros(s - off) + head + rest == Zeros(s - off) + (head + rest);
    }
  }

  lemma {:induction false} EncodeAllPads(f: Bytes, payloads: seq<Bytes>)
    requires payloads != []
    ensures f + EncodeAll(payloads, |f|) == Padded(f) + EncodeAll(payloads, Start(|f|))
  {
    hide Encode, Zeros, Start;
    var off, s := |f|, Start(|f|);
    EncodePads(payloads[0], off);
    var z, e := Zeros(s - off), Encode(payloads[0], s, true);
    var rest := EncodeAll(payloads[1..], s + |e|);
    assert EncodeAll(payloads, off) == (z + e) + rest && EncodeAll(payloads, s) == e + rest;
    Regroup(f, z, e, rest);
  }

  lemma {:induction false} Regroup(a: Bytes, b: Bytes, c: Bytes, d: Bytes)
    ensures a + ((b + c) + d) == (a + b) + (c + d)
  {
  }

  /** Where the condition holds, the reader comes to the first appended record. */
  lemma {:induction false} ArrivesAtAppended(f: Bytes, g: Bytes, end: nat)
    requires end <= |f| && Continues(f, end) && Padded(f) <= g
    ensures ReadPhysical(g, end) == ReadPhysical(g, Start(|f|))
  {
    hide ReadPhysical;
    var pad := Padded(f);
    if end == |f| {
      if |pad| < |g| { SkipPadding(g, end); } else { PaddingIsSkipped(g, end); }
    } else {
      StopOfTail(pad, end);
      ReadsFromStop(pad, g, end);
    }
  }

  lemma {:induction false} PaddingIsSkipped(g: Bytes, off: nat)
    requires |g| == Start(off)
    ensures ReadPhysical(g, off) == ReadPhysical(g, Start(off))
  {
    if off < |g| {
      assert BlockEnd(g, off) == |g|;
    }
  }

  lemma {:induction false} ContinuedReadsBack(f: Bytes, es: seq<Entry>)
    requires ApplyLog(f, 0).clean && Continues(f, ApplyLog(f, 0).end) && es != [] && AllRecordable(es)
    ensures ReplayedEntries(f + EncodeAll(Payloads(es), |f|)) == ReplayedEntries(f) + es
  {
    hide ReadPhysical, Continues, EncodeAll, Padded, ApplyLog, Payloads;
    var a, pad := ApplyLog(f, 0), Padded(f);
    var g := f + EncodeAll(Payloads(es), |f|);
    EncodeAllPads(f, Payloads(es));
    ApplyThrough(f, g, 0);
    ArrivesAtAppended(f, g, a.end);
    AppendedApplies(pad, es);
    SameReading(g, a.end, |pad|);
  }

  lemma {:induction false} SameReading(g: Bytes, p: nat, q: nat)
    requires p <= |g| && q <= |g| && ReadPhysical(g, p) == ReadPhysical(g, q)
    ensures ApplyLog(g, p).entries == ApplyLog(g, q).entries
  {
    hide ReadPhysical;
    SameRecord(g, p, q);
  }

  // ---- otherwise a record is lost ----------------------------------------------------------------------------------

  /** In a block that is complete in `f`, what is read does not change with the bytes behind it. */
  lemma {:induction false} CompleteBlockDecides(f: Bytes, g: Bytes, s: nat)
    requires s < |f| && f <= g && BlockEnd(f, s) == |f| && |f| % BLOCK == 0 && !Skips(f, s)
    ensures ReadPhysical(g, s) == ReadPhysical(f, s)
  {
    hide Crc32, GetFixed32;
    WholeBlock(f, g, s);
    assert f == g[..|f|];
    HeaderAgrees(f, g, |f|, s);
    var end := s + HEADER + GetFixed32(f, s);
    if end <= |f| { AgreeSlice(f, g, |f|, s + HEADER, end); }
  }

  /** Padding behind a torn header never completes it to a record. */
  lemma {:induction false} PaddedTailIsNotRead(f: Bytes, g: Bytes, end: nat)
    requires end < |f| && ReadPhysical(f, end) == NoMore && Padded(f) <= g
    requires Start(|f|) % BLOCK == 0 && ReadPhysical(Padded(f), end) != NoMore
    ensures !ReadRecord(g, end, None).Record?
  {
    hide Crc32, GetFixed32, ReadPhysical, ReadRecord, BlockEnd;
    var pad, s := Padded(f), Stop(f, end);
    StopOfTail(f, end);
    ReadsFromStop(f, pad, end);
    ReadsFromStop(f, g, end);
    SameRecord(g, end, s);
    assert |f| % BLOCK == 0 ==> pad == f;
    if s < |f| {
      LastBlockGrows(f, pad, s);
      if s + HEADER <= |f| {
        SameHeader(f, pad, s);
        SkippedToEnd(pad, s);
      } else if Skips(pad, s) {
        SkippedToEnd(pad, s);
      } else {
        assert pad[s + 8] == ZERO;
        CompleteBlockDecides(pad, g, s);
        ZeroTypeIsNoRecord(pad, g, s);
      }
    }
  }

  lemma {:induction false} ZeroTypeIsNoRecord(f: Bytes, g: Bytes, s: nat)
    requires s + HEADER <= |f| && !Skips(f, s) && f[s + 8] == ZERO && ReadPhysical(g, s) == ReadPhysical(f, s)
    ensures !ReadRecord(g, s, None).Record?
  {
    hide Crc32, GetFixed32;
    assert ReadPhysical(f, s).Fragment? ==> ReadPhysical(f, s).t == ZERO;
  }

  /** A small record: 13 bytes, sequence number 5, nothing else. */
  const SMALL: Entry := Entry([], 5, Tombstone)

  const SMALL_BYTES: Bytes := [5, 0, 0, 0, 0, 0, 0, 0, 0, 0, 0, 0, 0]

  lemma {:induction false} SmallPayload()
    ensures EncodePayload(SMALL) == SMALL_BYTES && Recordable(SMALL)
  {
    assert LittleEndian(8, 5) == [5] + LittleEndian(7, 0);
    ZeroBytes(7);
    ZeroBytes(4);
  }

  lemma {:induction false} ZeroBytes(n: nat)
    ensures LittleEndian(n, 0) == Zeros(n)
  {
    if n > 0 { ZeroBytes(n - 1); }
  }

  lemma {:induction false} SameRecord(g: Bytes, p: nat, q: nat)
    requires ReadPhysical(g, p) == ReadPhysical(g, q)
    ensures ReadRecord(g, p, None) == ReadRecord(g, q, None)
  {
    hide ReadPhysical;
  }

  lemma {:induction false} SkippedToEnd(g: Bytes, s: nat)
    requires s < |g| && Skips(g, s) && BlockEnd(g, s) == |g|
    ensures ReadPhysical(g, s) == NoMore && ReadRecord(g, s, None) == Eof
  {
    hide Crc32, GetFixed32;
  }

  /**
   * The small record behind `t` leftover bytes at `s`. Its first fragment, of `n` bytes, is the last
   * thing in the block; if that is not all of it, the next block starts with the rest.
   */
  ghost predicate Behind(g: Bytes, s: nat, t: nat, n: nat, whole: bool) {
    && t > 0 && n <= 13 && whole == (n == 13)
    && At(g, s + t, Physical(if whole then FULL else FIRST, SMALL_BYTES[..n]))
    && BlockEnd(g, s) == s + t + HEADER + n
    && (if whole then |g| == s + t + HEADER + n
        else ReadPhysical(g, s + t + HEADER + n) == Fragment(LAST, SMALL_BYTES[n..], |g|))
  }

  /** Where the small record is written behind a tail in a block with room for a header. */
  lemma {:induction false} SmallIsBehind(f: Bytes, s: nat)
    requires s < |f| && Start(|f|) == |f| && |f| % BLOCK != 0 && BlockEnd(f, s) == |f|
    ensures var room := Room(|f|);
            Behind(f + Encode(SMALL_BYTES, |f|, true), s, |f| - s, if room < 13 then room else 13, room >= 13)
  {
    hide Crc32, Physical, ReadPhysical, GetFixed32, BlockEnd, Encode;
    var room, p := Room(|f|), SMALL_BYTES;
    var g := f + Encode(p, |f|, true);
    LastBlockGrows(f, g, s);
    EncodeHere(p, |f|);
    assert p[..13] == p;
    if room >= 13 {
      assert g[|f|..] == Physical(FULL, p);
    } else {
      var h, rest := Physical(FIRST, p[..room]), Encode(p[room..], |f| + HEADER + room, false);
      assert g[|f|..|f| + |h|] == h && g[|f| + |h|..] == rest;
      RestInNextBlock(g, |f| + |h|, p[room..]);
    }
  }

  lemma {:induction false} EncodeHere(p: Bytes, off: nat)
    requires Start(off) == off
    ensures var room := Room(off);
            Encode(p, off, true) == if |p| <= room then Physical(FULL, p)
                                    else Physical(FIRST, p[..room]) + Encode(p[room..], off + HEADER + room, false)
  {
    hide Crc32, Physical, Start, Room;
    var room := Room(off);
    if |p| <= room {
      assert Zeros(0) + Physical(FULL, p) == Physical(FULL, p);
    } else {
      var h := Physical(FIRST, p[..room]);
      assert Zeros(0) + h == h;
    }
  }

  lemma {:induction false} RestInNextBlock(g: Bytes, at: nat, rest: Bytes)
    requires at % BLOCK == 0 && |rest| <= 13 && at <= |g| && g[at..] == Encode(rest, at, false)
    ensures ReadPhysical(g, at) == Fragment(LAST, rest, |g|)
  {
    hide Crc32, GetFixed32, Physical;
    assert Zeros(0) + Physical(LAST, rest) == Physical(LAST, rest);
    PhysicalFields(g, at, LAST, rest);
  }

  // The bytes of the small record behind the tail, as a reader at the tail sees them.

  lemma {:induction false} BehindBytes(g: Bytes, s: nat, t: nat, n: nat, whole: bool)
    requires Behind(g, s, t, n, whole)
    ensures g[s + t + 8] == if whole then FULL else FIRST
    ensures forall i :: 0 <= i < n ==> g[s + t + HEADER + i] == SMALL_BYTES[i]
  {
    hide Crc32, GetFixed32, ReadPhysical, Physical, BlockEnd;
    PhysicalFields(g, s + t, if whole then FULL else FIRST, SMALL_BYTES[..n]);
    var x := g[s + t + HEADER..s + t + HEADER + n];
    forall i | 0 <= i < n ensures g[s + t + HEADER + i] == SMALL_BYTES[i] {
      assert x[i] == SMALL_BYTES[..n][i];
    }
  }

  lemma {:induction false} PayloadKeepsScratch(f: Bytes, p: nat, scratch: Bytes)
    ensures var r := ReadRecord(f, p, Some(scratch)); r.Record? ==> scratch <= r.payload
    decreases |f| - p
  {
    hide ReadPhysical;
    var ph := ReadPhysical(f, p);
    if ph.Fragment? && ph.t == MIDDLE { PayloadKeepsScratch(f, ph.end, scratch + ph.bytes); }
  }

  /** A fragment that reaches over the record's type byte is no part of the small record. */
  lemma {:induction false} OverlapShows(g: Bytes, s: nat, t: nat, n: nat, whole: bool, bytes: Bytes)
    requires Behind(g, s, t, n, whole) && 0 < t < HEADER && At(g, s + HEADER, bytes) && |bytes| >= t
    ensures !(bytes <= SMALL_BYTES)
  {
    hide Behind;
    BehindBytes(g, s, t, n, whole);
    assert bytes[t - 1] == g[s + HEADER..s + HEADER + |bytes|][t - 1];
  }

  lemma {:induction false} ReadFields(g: Bytes, s: nat)
    requires s < |g| && !Skips(g, s) && ReadPhysical(g, s).Fragment?
    ensures var ph := ReadPhysical(g, s);
            && ph.t == g[s + 8] && At(g, s + HEADER, ph.bytes) && ph.end == s + HEADER + |ph.bytes| <= BlockEnd(g, s)
            && GetFixed32(g, s) == |ph.bytes| && GetFixed32(g, s + 4) == Crc32([ph.t] + ph.bytes)
  {
    hide Crc32, GetFixed32, BlockEnd;
  }

  lemma {:induction false} ZeroFieldBytes(g: Bytes, at: nat)
    requires at + 4 <= |g| && GetFixed32(g, at) == 0
    ensures forall i :: at <= i < at + 4 ==> g[i] == 0
  {
    FieldBack(g, at);
    ZeroBytes(4);
    var x := g[at..at + 4];
    forall i | at <= i < at + 4 ensures g[i] == 0 {
      assert x[i - at] == g[i];
    }
  }

  /** The header that follows a short fragment at the tail: its type byte is one of the small record's. */
  lemma {:induction false} NextHeaderIsRefused(g: Bytes, s: nat, t: nat, n: nat, whole: bool, q: nat, scratch: Bytes)
    requires Behind(g, s, t, n, whole) && s + HEADER <= q < s + HEADER + t && t < HEADER
    requires q + HEADER <= s + t + HEADER + n && BlockEnd(g, q) == BlockEnd(g, s)
    ensures !ReadRecord(g, q, Some(scratch)).Record?
  {
    hide Crc32, GetFixed32, Behind;
    BehindEnd(g, s, t, n, whole);
    BehindBytes(g, s, t, n, whole);
    assert g[q + 8] == SMALL_BYTES[q + 8 - (s + t + HEADER)];
    if ZeroHeader(g, q) {
      ZeroFieldBytes(g, q);
      ZeroFieldBytes(g, q + 4);
    }
  }

  lemma {:induction false} BehindEnd(g: Bytes, s: nat, t: nat, n: nat, whole: bool)
    requires Behind(g, s, t, n, whole)
    ensures BlockEnd(g, s) == s + t + HEADER + n <= |g| && t > 0
  {
    hide ReadPhysical, Physical;
  }

  /** `h` starts with the length `n`, has the type byte of a first fragment, then the small record's bytes. */
  ghost predicate FirstHeader(h: Bytes, n: nat) {
    && n <= 12 && |h| == HEADER + n && h[0] == n && h[1] == h[2] == h[3] == 0 && h[8] == FIRST
    && (n > 0 ==> h[9] == 5)
  }

  /** Such a fragment does not repeat with a period inside its header: somewhere it breaks. */
  lemma {:induction false} FirstHeaderIsAperiodic(h: Bytes, n: nat, t: nat) returns (i: nat)
    requires FirstHeader(h, n) && n < t < HEADER
    ensures i + t < |h| && h[i + t] != h[i]
  {
    if n == 0 {
      i := FindBreak(h, t, 8);
    } else if t >= 6 {
      i := 9 - t;
    } else if t == 5 {
      i := 3;
    } else if h[9] != h[9 - t] {
      i := 9 - t;
    } else if h[9] != h[9 - 2 * t] {
      i := 9 - 2 * t;
    } else {
      i := 3;
    }
  }

  /** Stepping down from a non-zero byte by `t` ends at one of the four zeros in front. */
  lemma {:induction false} FindBreak(h: Bytes, t: nat, j: nat) returns (i: nat)
    requires |h| == HEADER && 0 < t < HEADER && 4 <= j < HEADER && t <= j && h[j] != 0
    requires forall k :: 0 <= k < 4 ==> h[k] == 0
    ensures i + t < |h| && h[i + t] != h[i]
    decreases j
  {
    if h[j - t] != h[j] {
      i := j - t;
    } else {
      i := FindBreak(h, t, j - t);
    }
  }

  lemma {:induction false} FirstHeaderBytes(n: nat)
    requires n <= 12
    ensures FirstHeader(Physical(FIRST, SMALL_BYTES[..n]), n)
  {
    hide Crc32;
    var h := Physical(FIRST, SMALL_BYTES[..n]);
    assert h[..4] == Fixed32(n);
    assert Fixed32(n) == [n] + LittleEndian(3, 0);
    ZeroBytes(3);
  }

  /** The first fragment of the small record cannot also be read from where the tail starts. */
  lemma {:induction false} FragmentsDoNotOverlap(g: Bytes, s: nat, t: nat, n: nat)
    requires n <= 12 && n < t < HEADER && At(g, s + t, Physical(FIRST, SMALL_BYTES[..n]))
    ensures !At(g, s, Physical(FIRST, SMALL_BYTES[..n]))
  {
    hide Physical, FirstHeader;
    var h := Physical(FIRST, SMALL_BYTES[..n]);
    FirstHeaderBytes(n);
    var i := FirstHeaderIsAperiodic(h, n, t);
    AtIndex(g, s + t, h, i);
    if At(g, s, h) { AtIndex(g, s, h, i + t); }
  }

  lemma {:induction false} AtIndex(g: Bytes, off: nat, x: Bytes, i: nat)
    requires At(g, off, x) && i < |x|
    ensures g[off + i] == x[i]
  {
    assert g[off..off + |x|][i] == g[off + i];
  }

  lemma {:induction false} FragmentBytes(g: Bytes, s: nat, t: byte, bytes: Bytes)
    requires s + HEADER <= |g| && g[s + 8] == t && At(g, s + HEADER, bytes) && |bytes| < U32
    requires GetFixed32(g, s) == |bytes| && GetFixed32(g, s + 4) == Crc32([t] + bytes)
    ensures At(g, s, Physical(t, bytes))
  {
    hide Crc32, GetFixed32, Fixed32;
    FieldBack(g, s);
    FieldBack(g, s + 4);
    var e := s + HEADER + |bytes|;
    assert g[s..e] == g[s..s + 4] + g[s + 4..s + 8] + [g[s + 8]] + g[s + HEADER..e];
  }

  /** A reader at the tail does not get the small record. */
  lemma {:induction false} SmallIsSwallowed(g: Bytes, s: nat, t: nat, n: nat, whole: bool)
    requires Behind(g, s, t, n, whole) && s + t <= |g|
    requires t >= HEADER ==> Skips(g, s)
    ensures ReadRecord(g, s, None).Record? ==> ReadRecord(g, s, None).payload != SMALL_BYTES
  {
    hide Crc32, GetFixed32, ReadPhysical, Physical, BlockEnd, Behind;
    BehindEnd(g, s, t, n, whole);
    if Skips(g, s) {
      SkippedTail(g, s, t, n, whole);
    } else {
      TornTailSwallows(g, s, t, n, whole);
    }
  }

  lemma {:induction false} SkippedTail(g: Bytes, s: nat, t: nat, n: nat, whole: bool)
    requires Behind(g, s, t, n, whole) && s < |g| && Skips(g, s)
    ensures !ReadRecord(g, s, None).Record?
  {
    hide Crc32, GetFixed32, Physical;
    assert ReadPhysical(g, s) == ReadPhysical(g, BlockEnd(g, s));
  }

  lemma {:induction false} TornTailSwallows(g: Bytes, s: nat, t: nat, n: nat, whole: bool)
    requires Behind(g, s, t, n, whole) && 0 < t < HEADER && s < |g| && !Skips(g, s)
    ensures ReadRecord(g, s, None).Record? ==> ReadRecord(g, s, None).payload != SMALL_BYTES
  {
    hide Crc32, GetFixed32, ReadPhysical, Physical, BlockEnd, Behind;
    var ph := ReadPhysical(g, s);
    if ph.Fragment? {
      ReadFields(g, s);
      BehindEnd(g, s, t, n, whole);
      if |ph.bytes| >= t { OverlapShows(g, s, t, n, whole, ph.bytes); }
      if ph.t == FIRST {
        PayloadKeepsScratch(g, ph.end, ph.bytes);
        if |ph.bytes| < t { AfterShortFirst(g, s, t, n, whole); }
      }
    }
  }

  lemma {:induction false} AfterShortFirst(g: Bytes, s: nat, t: nat, n: nat, whole: bool)
    requires Behind(g, s, t, n, whole) && 0 < t < HEADER && s < |g| && !Skips(g, s)
    requires var ph := ReadPhysical(g, s); ph.Fragment? && ph.t == FIRST && |ph.bytes| < t
    ensures var ph := ReadPhysical(g, s); var r := ReadRecord(g, ph.end, Some(ph.bytes)); r.Record? ==>
              r.payload != SMALL_BYTES
  {
    hide Crc32, GetFixed32, Physical, BlockEnd, Behind, ReadPhysical;
    var ph := ReadPhysical(g, s);
    ReadFields(g, s);
    BehindEnd(g, s, t, n, whole);
    var q, e := ph.end, s + t + HEADER + n;
    SameBlockEnd(g, s, q);
    if q + HEADER <= e {
      NextHeaderIsRefused(g, s, t, n, whole, q, ph.bytes);
    } else {
      ShortRest(g, q, e);
      RestOfSmall(g, s, t, n, whole);
      if !whole && ph.bytes + SMALL_BYTES[n..] == SMALL_BYTES {
        assert |ph.bytes| == n;
        assert ph.bytes == (ph.bytes + SMALL_BYTES[n..])[..n] == SMALL_BYTES[..n];
        FragmentBytes(g, s, FIRST, ph.bytes);
        FragmentsDoNotOverlap(g, s, t, n);
      }
    }
  }

  lemma {:induction false} SameBlockEnd(g: Bytes, s: nat, q: nat)
    requires s < |g| && s <= q < BlockEnd(g, s)
    ensures BlockEnd(g, q) == BlockEnd(g, s)
  {
    assert q / BLOCK == s / BLOCK;
  }

  lemma {:induction false} ShortRest(g: Bytes, q: nat, e: nat)
    requires q <= e <= |g| && q + HEADER > e && (q < e ==> BlockEnd(g, q) == e)
    ensures ReadPhysical(g, q) == ReadPhysical(g, e)
  {
  }

  lemma {:induction false} RestOfSmall(g: Bytes, s: nat, t: nat, n: nat, whole: bool)
    requires Behind(g, s, t, n, whole)
    ensures if whole then ReadPhysical(g, s + t + HEADER + n) == NoMore
            else n <= 12 && ReadPhysical(g, s + t + HEADER + n) == Fragment(LAST, SMALL_BYTES[n..], |g|)
                 && At(g, s + t, Physical(FIRST, SMALL_BYTES[..n]))
  {
    hide Physical;
  }

  // ---- the condition is exact ---------------------------------------------------------------------------------

  lemma {:induction false} LosesSmallRecord(f: Bytes)
    requires ApplyLog(f, 0).clean && !Continues(f, ApplyLog(f, 0).end)
    ensures ReplayedEntries(f + EncodeAll(Payloads([SMALL]), |f|)) != ReplayedEntries(f) + [SMALL]
  {
    hide ReadPhysical, Encode, ReadRecord, ApplyLog, ParsePayload, EncodePayload;
    var a, g := ApplyLog(f, 0), f + EncodeAll(Payloads([SMALL]), |f|);
    CleanTail(f, 0);
    ApplyThrough(f, g, 0);
    SmallPayload();
    assert Payloads([SMALL]) == [SMALL_BYTES];
    OneRecord(SMALL_BYTES, |f|);
    if Start(|f|) % BLOCK == 0 {
      EncodeAllPads(f, [SMALL_BYTES]);
      PaddedTailIsNotRead(f, g, a.end);
    } else {
      TailSwallowsSmall(f, a.end);
    }
    var rest := ApplyLog(g, a.end).entries;
    ApplyStep(g, a.end);
    if rest == [SMALL] { SmallIsParsed(ReadRecord(g, a.end, None).payload); }
    AppendedDiffer(a.entries, rest, [SMALL]);
  }

  lemma {:induction false} SmallIsParsed(p: Bytes)
    requires ParsePayload(p) == Some(SMALL)
    ensures p == SMALL_BYTES
  {
    hide ParsePayload, EncodePayload;
    ParseIsExact(p);
    SmallPayload();
  }

  lemma {:induction false} TailSwallowsSmall(f: Bytes, end: nat)
    requires end < |f| && ReadPhysical(f, end) == NoMore && Start(|f|) == |f| && |f| % BLOCK != 0
    ensures var r := ReadRecord(f + Encode(SMALL_BYTES, |f|, true), end, None); r.Record? ==> r.payload != SMALL_BYTES
  {
    hide Crc32, GetFixed32, ReadRecord, ReadPhysical, BlockEnd, Encode, Behind;
    var g, s := f + Encode(SMALL_BYTES, |f|, true), Stop(f, end);
    StopOfTail(f, end);
    ReadsFromStop(f, g, end);
    SameRecord(g, end, s);
    SmallIsBehind(f, s);
    if s + HEADER <= |f| { SameHeader(f, g, s); }
    var room := Room(|f|);
    SmallIsSwallowed(g, s, |f| - s, if room < 13 then room else 13, room >= 13);
  }

  lemma {:induction false} AppendedDiffer(a: seq<Entry>, x: seq<Entry>, y: seq<Entry>)
    requires x != y
    ensures a + x != a + y
  {
    assert (a + x)[|a|..] == x && (a + y)[|a|..] == y;
  }

  /**
   * For every byte string: after `Open`, entries appended replay behind those the log held if and
   * only if `Open` cut the log or the tail it left continues.
   */
  lemma {:induction false} AppendsReadBackIff(f: Bytes)
    ensures AppendsReadBack(f) <==> (ApplyLog(f, 0).clean ==> Continues(f, ApplyLog(f, 0).end))
  {
    hide ReadPhysical, Encode, Continues, EncodeAll, ApplyLog, Recordable, Payloads;
    var a := ApplyLog(f, 0);
    if !a.clean || Continues(f, a.end) {
      forall es: seq<Entry> | es != [] && AllRecordable(es)
        ensures ReplayedEntries(OpenedFile(f) + EncodeAll(Payloads(es), |OpenedFile(f)|)) == ReplayedEntries(f) + es
      {
        if a.clean {
          ContinuedReadsBack(f, es);
        } else {
          CutIsClosed(f, 0);
          AppendKeepsClosed(f[..a.end], a.entries, es);
        }
      }
    } else {
      LosesSmallRecord(f);
      SmallPayload();
      assert AllRecordable([SMALL]) && OpenedFile(f) == f;
    }
  }

  /**
   * One leftover byte is enough: whatever non-empty record is appended behind it, reading finds
   * damage at once, so that the next `Open` cuts the log to nothing.
   */
  lemma {:induction false} OneByteTailLosesRecord(x: byte, p: Bytes)
    requires p != []
    ensures ReadAll([x], 0) == Replayed([], 0, true)
    ensures var g := [x] + EncodeAll([p], 1); ReadAll(g, 0) == Replayed([], 0, false) && OpenedFile(g) == []
  {
    hide Encode, ReadRecord, EncodeAll;
    TornHeaderIsSilent([x], 0);
    OneRecord(p, 1);
    var g := [x] + EncodeAll([p], 1);
    ShiftedLength(x, p);
    assert ReadRecord(g, 0, None) == Corruption;
    ApplyStep(g, 0);
    assert g[..0] == [];
  }

  lemma {:induction false} TooLongIsDamage(g: Bytes, n: nat)
    requires |g| >= HEADER && n >= 1 && GetFixed32(g, 0) >= 256 * n && HEADER <= BlockEnd(g, 0) <= 1 + HEADER + n
    ensures ReadRecord(g, 0, None) == Corruption
  {
    hide Crc32, GetFixed32, BlockEnd;
    assert ReadPhysical(g, 0) == Broken;
  }

  /** The length field, one byte off, is at least 256 times what is there. */
  lemma {:induction false} ShiftedLength(x: byte, p: Bytes)
    requires p != []
    ensures ReadRecord([x] + Encode(p, 1, true), 0, None) == Corruption
  {
    hide Crc32, Encode, ReadRecord, GetFixed32, Fixed32;
    var room, g := Room(1), [x] + Encode(p, 1, true);
    var n := if |p| <= room then |p| else room;
    EncodeHere(p, 1);
    FirstBytes(p, 1);
    assert g[1..5] == Encode(p, 1, true)[..4];
    ShiftedField(g, 0, n);
    TooLongIsDamage(g, n);
  }

  lemma {:induction false} FirstBytes(p: Bytes, off: nat)
    requires Start(off) == off
    ensures Encode(p, off, true)[..4] == Fixed32(if |p| <= Room(off) then |p| else Room(off))
  {
    hide Crc32, Encode, Fixed32;
    EncodeHere(p, off);
  }
}
