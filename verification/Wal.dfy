/** The write-ahead log format: what a record looks like on disk and what a reader makes of bytes. */
module Wal {
  import opened Bytes
  import opened Crc

  const BLOCK: nat := 32768
  const HEADER: nat := 9

  const ZERO: byte := 0
  const FULL: byte := 1
  const FIRST: byte := 2
  const MIDDLE: byte := 3
  const LAST: byte := 4

  function Zeros(n: nat): (s: Bytes)
    ensures |s| == n && forall i :: 0 <= i < n ==> s[i] == 0
  {
    if n == 0 then [] else [0] + Zeros(n - 1)
  }

  // ---- writing ------------------------------------------------------------------------------------------

  /** One physical record: length, checksum over type and fragment, type, fragment. */
  function Physical(t: byte, fragment: Bytes): (s: Bytes)
    ensures |s| == HEADER + |fragment|
  {
    Fixed32(|fragment|) + Fixed32(Crc32([t] + fragment)) + [t] + fragment
  }

  /** Where a record written at `off` really starts: a block tail too short for a header is skipped. */
  function Start(off: nat): (s: nat)
    ensures off <= s < off + HEADER && BLOCK - s % BLOCK >= HEADER
    ensures s % BLOCK == 0 || s == off
  {
    var leftover := BLOCK - off % BLOCK;
    if leftover < HEADER then off + leftover else off
  }

  /** Fragment bytes that fit behind a header at `start`. */
  function Room(start: nat): (n: nat)
    requires BLOCK - start % BLOCK >= HEADER
    ensures n <= BLOCK - HEADER
  {
    BLOCK - start % BLOCK - HEADER
  }

  function Misaligned(off: nat): nat {
    if off % BLOCK == 0 then 0 else 1
  }

  /** A fragment that fills its room ends at a block boundary; it is empty only in the last 9 bytes of a block. */
  lemma {:induction false} NextFragment(off: nat)
    ensures Misaligned(Start(off) + HEADER + Room(Start(off))) == 0
    ensures Room(Start(off)) == 0 ==> Misaligned(off) == 1
  {
  }

  /** `payload` as it sits at absolute offset `off`: padding, headers, block-local fragments. */
  function Encode(payload: Bytes, off: nat, begin: bool): (s: Bytes)
    ensures |s| >= HEADER
    decreases |payload| + Misaligned(off)
  {
    NextFragment(off);
    var start := Start(off);
    var room := Room(start);
    if |payload| <= room then
      Zeros(start - off) + Physical(if begin then FULL else LAST, payload)
    else
      Zeros(start - off) + Physical(if begin then FIRST else MIDDLE, payload[..room])
      + Encode(payload[room..], start + HEADER + room, false)
  }

  function EncodeAll(payloads: seq<Bytes>, off: nat): Bytes {
    if payloads == [] then []
    else
      var e := Encode(payloads[0], off, true);
      e + EncodeAll(payloads[1..], off + |e|)
  }

  // ---- reading ------------------------------------------------------------------------------------------

  datatype Physically = Fragment(t: byte, bytes: Bytes, end: nat) | NoMore | Broken

  /** End of the block around `p`, or of the file. */
  function BlockEnd(f: Bytes, p: nat): (e: nat)
    requires p < |f|
    ensures p < e <= |f|
  {
    var e := (p / BLOCK + 1) * BLOCK;
    if e <= |f| then e else |f|
  }

  /** The next physical record at or after `p`. */
  function ReadPhysical(f: Bytes, p: nat): (r: Physically)
    ensures r.Fragment? ==> p + HEADER <= r.end <= |f|
    decreases |f| - p
  {
    if p >= |f| then NoMore
    else
      var e := BlockEnd(f, p);
      if p + HEADER > e then ReadPhysical(f, e)
      else
        var length, crc, t := GetFixed32(f, p), GetFixed32(f, p + 4), f[p + 8];
        if t == ZERO && length == 0 && crc == 0 then ReadPhysical(f, e)
        else if length > BLOCK - HEADER || p + HEADER + length > e then Broken
        else
          var fragment := f[p + HEADER..p + HEADER + length];
          if Crc32([t] + fragment) != crc then Broken else Fragment(t, fragment, p + HEADER + length)
  }

  datatype Logically = Record(payload: Bytes, end: nat) | Eof | Corruption

  /** The next logical record from `p`, with the fragments assembled so far. */
  function ReadRecord(f: Bytes, p: nat, scratch: Option<Bytes>): (r: Logically)
    ensures r.Record? ==> p < r.end <= |f|
    decreases |f| - p
  {
    match ReadPhysical(f, p)
    case NoMore => if scratch.Some? then Corruption else Eof
    case Broken => Corruption
    case Fragment(t, bytes, end) =>
      if t == FULL && scratch.None? then Record(bytes, end)
      else if t == FIRST && scratch.None? && end <= |f| then ReadRecord(f, end, Some(bytes))
      else if t == MIDDLE && scratch.Some? && end <= |f| then ReadRecord(f, end, Some(scratch.value + bytes))
      else if t == LAST && scratch.Some? then Record(scratch.value + bytes, end)
      else Corruption
  }

  /** What reading to the first non-ok result yields: the records, `last_good_end`, and how it stopped. */
  datatype Replayed = Replayed(records: seq<Bytes>, end: nat, clean: bool)

  function ReadAll(f: Bytes, p: nat): (r: Replayed)
    requires p <= |f|
    ensures p <= r.end <= |f|
    decreases |f| - p
  {
    match ReadRecord(f, p, None)
    case Record(payload, end) =>
      var rest := ReadAll(f, end);
      Replayed([payload] + rest.records, rest.end, rest.clean)
    case Eof => Replayed([], p, true)
    case Corruption => Replayed([], p, false)
  }

  // ---- locality -----------------------------------------------------------------------------------------

  /** Two files agree on their first `n` bytes. */
  predicate Agree(f: Bytes, g: Bytes, n: nat) {
    n <= |f| && n <= |g| && f[..n] == g[..n]
  }

  lemma {:induction false} AgreeSlice(f: Bytes, g: Bytes, n: nat, lo: nat, hi: nat)
    requires Agree(f, g, n) && lo <= hi <= n
    ensures f[lo..hi] == g[lo..hi]
  {
    assert f[lo..hi] == f[..n][lo..hi];
    assert g[lo..hi] == g[..n][lo..hi];
  }

  lemma {:induction false} BlockEndStays(f: Bytes, g: Bytes, p: nat, n: nat)
    requires p < n <= |f| && n <= |g|
    ensures BlockEnd(f, p) < n ==> BlockEnd(g, p) == BlockEnd(f, p)
    ensures BlockEnd(f, p) >= n ==> BlockEnd(g, p) >= n
  {
  }

  lemma {:induction false} HeaderAgrees(f: Bytes, g: Bytes, n: nat, p: nat)
    requires Agree(f, g, n) && p + HEADER <= n
    ensures GetFixed32(f, p) == GetFixed32(g, p) && GetFixed32(f, p + 4) == GetFixed32(g, p + 4)
    ensures f[p + 8] == g[p + 8]
  {
    AgreeSlice(f, g, n, p, p + 4);
    AgreeSlice(f, g, n, p + 4, p + 8);
    AgreeSlice(f, g, n, p + 8, p + 9);
    assert f[p + 8] == f[p + 8..p + 9][0] && g[p + 8] == g[p + 8..p + 9][0];
  }

  /** A physical record is found again in any file that agrees up to its end. */
  lemma {:induction false} PhysicalIsLocal(f: Bytes, g: Bytes, p: nat)
    requires ReadPhysical(f, p).Fragment? && Agree(f, g, ReadPhysical(f, p).end)
    ensures ReadPhysical(g, p) == ReadPhysical(f, p)
    decreases |f| - p
  {
    hide Crc32, GetFixed32, Agree;
    var r := ReadPhysical(f, p);
    var e := BlockEnd(f, p);
    AgreeBounds(f, g, r.end);
    BlockEndStays(f, g, p, r.end);
    if p + HEADER > e {
      PhysicalIsLocal(f, g, e);
    } else {
      HeaderAgrees(f, g, r.end, p);
      if f[p + 8] == ZERO && GetFixed32(f, p) == 0 && GetFixed32(f, p + 4) == 0 {
        PhysicalIsLocal(f, g, e);
      } else {
        AgreeSlice(f, g, r.end, p + HEADER, r.end);
      }
    }
  }

  lemma {:induction false} AgreeBounds(f: Bytes, g: Bytes, n: nat)
    requires Agree(f, g, n)
    ensures n <= |f| && n <= |g|
  {
  }

  lemma {:induction false} AgreeLess(f: Bytes, g: Bytes, n: nat, m: nat)
    requires Agree(f, g, n) && m <= n
    ensures Agree(f, g, m)
  {
    AgreeSlice(f, g, n, 0, m);
  }

  /** So is a logical record. */
  lemma {:induction false} RecordIsLocal(f: Bytes, g: Bytes, p: nat, scratch: Option<Bytes>)
    requires ReadRecord(f, p, scratch).Record? && Agree(f, g, ReadRecord(f, p, scratch).end)
    ensures ReadRecord(g, p, scratch) == ReadRecord(f, p, scratch)
    decreases |f| - p
  {
    var r, ph := ReadRecord(f, p, scratch), ReadPhysical(f, p);
    if ph.t == FIRST && scratch.None? {
      AgreeLess(f, g, r.end, ph.end);
      PhysicalIsLocal(f, g, p);
      RecordIsLocal(f, g, ph.end, Some(ph.bytes));
    } else if ph.t == MIDDLE {
      AgreeLess(f, g, r.end, ph.end);
      PhysicalIsLocal(f, g, p);
      RecordIsLocal(f, g, ph.end, Some(scratch.value + ph.bytes));
    } else {
      PhysicalIsLocal(f, g, p);
    }
  }

  /** Cutting at `last_good_end` keeps the records and ends cleanly. */
  lemma {:induction false} CutReplays(f: Bytes, p: nat)
    requires p <= |f|
    ensures var r := ReadAll(f, p); ReadAll(f[..r.end], p) == Replayed(r.records, r.end, true)
    decreases |f| - p
  {
    var r := ReadAll(f, p);
    var g := f[..r.end];
    var rec := ReadRecord(f, p, None);
    if rec.Record? {
      CutReplays(f, rec.end);
      assert f[..r.end][..rec.end] == f[..rec.end];
      RecordIsLocal(f, g, p, None);
    }
  }

  // ---- reading what was written ---------------------------------------------------------------------------

  /** Padding at the end of a block is stepped over. */
  lemma {:induction false} SkipPadding(f: Bytes, off: nat)
    requires Start(off) < |f|
    ensures ReadPhysical(f, off) == ReadPhysical(f, Start(off))
  {
    if Start(off) != off {
      assert BlockEnd(f, off) == Start(off);
    }
  }

  lemma {:induction false} PhysicalFields(f: Bytes, p: nat, t: byte, fragment: Bytes)
    requires At(f, p, Physical(t, fragment)) && |fragment| < U32
    ensures GetFixed32(f, p) == |fragment| && GetFixed32(f, p + 4) == Crc32([t] + fragment)
    ensures f[p + 8] == t && f[p + HEADER..p + HEADER + |fragment|] == fragment
  {
    hide Crc32, Fixed32;
    var crc := Crc32([t] + fragment);
    AtSplit(f, p, Fixed32(|fragment|) + Fixed32(crc) + [t], fragment);
    AtSplit(f, p, Fixed32(|fragment|) + Fixed32(crc), [t]);
    AtSplit(f, p, Fixed32(|fragment|), Fixed32(crc));
    assert f[p + 8] == f[p + 8..p + 9][0];
  }

  /** A physical record that fits its block is read back. */
  lemma {:induction false} PhysicalReadsBack(f: Bytes, p: nat, t: byte, fragment: Bytes)
    requires At(f, p, Physical(t, fragment)) && t != ZERO
    requires BLOCK - p % BLOCK >= HEADER && |fragment| <= Room(p)
    ensures ReadPhysical(f, p) == Fragment(t, fragment, p + HEADER + |fragment|)
  {
    hide Crc32, Physical, GetFixed32;
    PhysicalFields(f, p, t, fragment);
    assert p + HEADER + |fragment| <= (p / BLOCK + 1) * BLOCK;
  }

  function Tag(begin: bool, whole: bool): byte {
    if begin then (if whole then FULL else FIRST) else (if whole then LAST else MIDDLE)
  }

  /** The first step of reading an encoded record: its first fragment comes back. */
  lemma {:induction false} FirstFragmentReadsBack(f: Bytes, off: nat, payload: Bytes, begin: bool, n: nat)
    requires n <= |payload| && n <= Room(Start(off))
    requires At(f, Start(off), Physical(Tag(begin, n == |payload|), payload[..n]))
    ensures ReadPhysical(f, off)
            == Fragment(Tag(begin, n == |payload|), payload[..n], Start(off) + HEADER + n)
  {
    hide Crc32, Physical, GetFixed32;
    SkipPadding(f, off);
    PhysicalReadsBack(f, Start(off), Tag(begin, n == |payload|), payload[..n]);
  }

  function Append(scratch: Option<Bytes>, x: Bytes): Bytes {
    if scratch.Some? then scratch.value + x else x
  }

  lemma {:induction false} LastFragmentReadsBack(f: Bytes, off: nat, payload: Bytes, scratch: Option<Bytes>)
    requires At(f, off, Encode(payload, off, scratch.None?)) && |payload| <= Room(Start(off))
    ensures ReadRecord(f, off, scratch)
            == Record(Append(scratch, payload), off + |Encode(payload, off, scratch.None?)|)
  {
    hide Crc32, Physical, GetFixed32, At, Room, Start, Zeros;
    var start, begin := Start(off), scratch.None?;
    AtSplit(f, off, Zeros(start - off), Physical(Tag(begin, true), payload));
    assert payload[..|payload|] == payload;
    FirstFragmentReadsBack(f, off, payload, begin, |payload|);
  }

  /** The encoding of a payload that does not fit: one full fragment, then the rest in the next block. */
  lemma {:induction false} EncodeSplits(payload: Bytes, off: nat, begin: bool)
    requires |payload| > Room(Start(off))
    ensures var start, room := Start(off), Room(Start(off));
            Encode(payload, off, begin)
            == Zeros(start - off) + Physical(Tag(begin, false), payload[..room])
               + Encode(payload[room..], start + HEADER + room, false)
  {
  }

  /** A leading fragment is read back, and reading continues right behind it. */
  lemma {:induction false} LeadingFragmentReadsBack(f: Bytes, off: nat, payload: Bytes, scratch: Option<Bytes>)
    requires At(f, off, Encode(payload, off, scratch.None?)) && |payload| > Room(Start(off))
    ensures var start, room := Start(off), Room(Start(off));
            && At(f, start + HEADER + room, Encode(payload[room..], start + HEADER + room, false))
            && |Encode(payload, off, scratch.None?)|
               == start - off + HEADER + room + |Encode(payload[room..], start + HEADER + room, false)|
            && ReadRecord(f, off, scratch)
               == ReadRecord(f, start + HEADER + room, Some(Append(scratch, payload[..room])))
  {
    hide Crc32, Physical, GetFixed32, At, Room, Start, Zeros, Encode;
    var start, room, begin := Start(off), Room(Start(off)), scratch.None?;
    EncodeSplits(payload, off, begin);
    var rest := Encode(payload[room..], start + HEADER + room, false);
    AtSplit(f, off, Zeros(start - off) + Physical(Tag(begin, false), payload[..room]), rest);
    AtSplit(f, off, Zeros(start - off), Physical(Tag(begin, false), payload[..room]));
    FirstFragmentReadsBack(f, off, payload, begin, room);
  }

  lemma {:induction false} AppendRest(scratch: Option<Bytes>, payload: Bytes, n: nat)
    requires n <= |payload|
    ensures Append(scratch, payload[..n]) + payload[n..] == Append(scratch, payload)
  {
    assert payload[..n] + payload[n..] == payload;
  }

  /** Writing then reading gives the payload back, across any fragmentation and padding. */
  lemma {:induction false} EncodeReadsBack(f: Bytes, off: nat, payload: Bytes, scratch: Option<Bytes>)
    requires At(f, off, Encode(payload, off, scratch.None?))
    ensures ReadRecord(f, off, scratch)
            == Record(Append(scratch, payload), off + |Encode(payload, off, scratch.None?)|)
    decreases |payload| + Misaligned(off)
  {
    hide Room, Start, At, ReadPhysical, Physical, Zeros, Misaligned;
    NextFragment(off);
    var room := Room(Start(off));
    if |payload| <= room {
      LastFragmentReadsBack(f, off, payload, scratch);
    } else {
      LeadingFragmentReadsBack(f, off, payload, scratch);
      AppendRest(scratch, payload, room);
      EncodeReadsBack(f, Start(off) + HEADER + room, payload[room..], Some(Append(scratch, payload[..room])));
    }
  }
}
