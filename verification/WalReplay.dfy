/** Replaying logs: torn tails, cutting at the last good record, and appending after recovery. */
module WalReplay {
  import opened Bytes
  import opened Crc
  import opened Wal

  // ---- what a reader accepts ------------------------------------------------------------------------------

  /** A whole physical record with a right checksum stands at `q`, inside one block. */
  ghost predicate IntactAt(f: Bytes, q: nat, t: byte, bytes: Bytes) {
    q < |f| && q + HEADER + |bytes| <= BlockEnd(f, q) && At(f, q, Physical(t, bytes))
  }

  /** No header fits between `q` and the end of the block, or one of zeros stands there. */
  ghost predicate BlankAt(f: Bytes, q: nat) {
    q < |f| && (q + HEADER > BlockEnd(f, q) || forall i :: q <= i < q + HEADER ==> f[i] == 0)
  }

  /** From `p` on there is nothing up to `q` but blank ends of blocks. */
  ghost predicate BlankUpTo(f: Bytes, p: nat, q: nat)
    decreases |f| - p
  {
    p == q || (BlankAt(f, p) && BlankUpTo(f, BlockEnd(f, p), q))
  }

  /**
   * On arbitrary bytes: past blank ends of blocks, the reader returns the intact record that stands
   * there, reports damage if none does, and finds nothing only at the end of the file.
   */
  lemma {:induction false} ReadPhysicalIsExact(f: Bytes, p: nat) returns (q: nat)
    ensures BlankUpTo(f, p, q)
    ensures ReadPhysical(f, p).NoMore? <==> q >= |f|
    ensures ReadPhysical(f, p).Fragment? ==> ReadPhysical(f, p).end == q + HEADER + |ReadPhysical(f, p).bytes|
    ensures q < |f| ==> !BlankAt(f, q)
    ensures forall t, bytes ::
              ReadPhysical(f, p) == Fragment(t, bytes, q + HEADER + |bytes|) <==> q < |f| && IntactAt(f, q, t, bytes)
    ensures ReadPhysical(f, p).Broken? <==> q < |f| && forall t, bytes :: !IntactAt(f, q, t, bytes)
    decreases |f| - p
  {
    hide Crc32, GetFixed32, IntactAt;
    if p >= |f| {
      q := p;
    } else {
      BlankHeader(f, p);
      if BlankAt(f, p) {
        q := ReadPhysicalIsExact(f, BlockEnd(f, p));
      } else {
        q := p;
        HeaderDecides(f, p);
      }
    }
  }

  /** The header is one of zeros exactly where the reader takes it for one. */
  lemma {:induction false} BlankHeader(f: Bytes, p: nat)
    requires p < |f|
    ensures p + HEADER <= BlockEnd(f, p) ==>
              (BlankAt(f, p) <==> f[p + 8] == ZERO && GetFixed32(f, p) == 0 && GetFixed32(f, p + 4) == 0)
  {
    hide GetFixed32, BlockEnd;
    if p + HEADER <= BlockEnd(f, p) {
      ZeroField(f, p);
      ZeroField(f, p + 4);
    }
  }

  lemma {:induction false} ZeroField(f: Bytes, at: nat)
    requires at + 4 <= |f|
    ensures GetFixed32(f, at) == 0 <==> forall i :: at <= i < at + 4 ==> f[i] == 0
  {
    FieldBack(f, at);
    assert Fixed32(0) == [0, 0, 0, 0] && FromLittleEndian(Fixed32(0)) == 0;
    var x := f[at..at + 4];
    assert forall i :: at <= i < at + 4 ==> f[i] == x[i - at];
    if forall i :: at <= i < at + 4 ==> f[i] == 0 { assert x == [0, 0, 0, 0]; }
  }

  lemma {:induction false} HeaderDecides(f: Bytes, p: nat)
    requires p < |f| && p + HEADER <= BlockEnd(f, p)
    requires !(f[p + 8] == ZERO && GetFixed32(f, p) == 0 && GetFixed32(f, p + 4) == 0)
    ensures forall t, bytes ::
              ReadPhysical(f, p) == Fragment(t, bytes, p + HEADER + |bytes|) <==> IntactAt(f, p, t, bytes)
    ensures ReadPhysical(f, p).Broken? <==> forall t, bytes :: !IntactAt(f, p, t, bytes)
  {
    hide Crc32, GetFixed32, IntactAt;
    forall t, bytes
      ensures ReadPhysical(f, p) == Fragment(t, bytes, p + HEADER + |bytes|) <==> IntactAt(f, p, t, bytes)
    {
      IntactIff(f, p, t, bytes);
    }
    var r := ReadPhysical(f, p);
    if r.Fragment? { assert IntactAt(f, p, r.t, r.bytes); }
  }

  lemma {:induction false} IntactIff(f: Bytes, q: nat, t: byte, bytes: Bytes)
    requires q < |f| && q + HEADER <= BlockEnd(f, q)
    ensures IntactAt(f, q, t, bytes) <==>
              && q + HEADER + |bytes| <= BlockEnd(f, q) && GetFixed32(f, q) == |bytes|
              && GetFixed32(f, q + 4) == Crc32([t] + bytes) && f[q + 8] == t
              && f[q + HEADER..q + HEADER + |bytes|] == bytes
  {
    hide Crc32, GetFixed32, Fixed32, At;
    if IntactAt(f, q, t, bytes) { PhysicalFields(f, q, t, bytes); }
    if && q + HEADER + |bytes| <= BlockEnd(f, q) && GetFixed32(f, q) == |bytes|
       && GetFixed32(f, q + 4) == Crc32([t] + bytes) && f[q + 8] == t
       && f[q + HEADER..q + HEADER + |bytes|] == bytes {
      FieldBack(f, q);
      FieldBack(f, q + 4);
      PartsAt(f, q, f[q..q + 4], f[q + 4..q + 8], t, bytes);
    }
  }

  lemma {:induction false} PartsAt(f: Bytes, q: nat, x: Bytes, y: Bytes, t: byte, bytes: Bytes)
    requires |x| == |y| == 4 && q + HEADER + |bytes| <= |f| && f[q + 8] == t
    requires f[q..q + 4] == x && f[q + 4..q + 8] == y && f[q + HEADER..q + HEADER + |bytes|] == bytes
    ensures At(f, q, x + y + [t] + bytes)
  {
    var s := f[q..q + HEADER + |bytes|];
    assert s == f[q..q + 4] + f[q + 4..q + 8] + [f[q + 8]] + f[q + HEADER..q + HEADER + |bytes|];
  }

  /** 1 for a whole record; else 2 for its first fragment, 3 for those between and 4 for the last. */
  function TagOf(first: bool, left: nat): byte {
    if first then (if left == 1 then 1 else 2) else if left == 1 then 4 else 3
  }

  /** Intact fragments with these bytes follow one another from `p` to `end`, with only blanks between. */
  ghost predicate Chain(f: Bytes, p: nat, parts: seq<Bytes>, first: bool, end: nat)
    decreases parts
  {
    && parts != []
    && exists q: nat :: LinkAt(f, p, q, TagOf(first, |parts|), parts[0])
         && var e := q + HEADER + |parts[0]|; if |parts| == 1 then end == e else Chain(f, e, parts[1..], false, end)
  }

  ghost predicate LinkAt(f: Bytes, p: nat, q: nat, t: byte, bytes: Bytes) {
    BlankUpTo(f, p, q) && !BlankAt(f, q) && IntactAt(f, q, t, bytes)
  }

  lemma {:induction false} OneNonBlank(f: Bytes, p: nat, q: nat, r: nat)
    requires BlankUpTo(f, p, q) && BlankUpTo(f, p, r) && !BlankAt(f, q) && !BlankAt(f, r)
    ensures q == r
    decreases |f| - p
  {
    hide BlankAt;
    if BlankAt(f, p) {
      IsInside(f, p);
      OneNonBlank(f, BlockEnd(f, p), q, r);
    }
  }

  lemma {:induction false} IsInside(f: Bytes, p: nat)
    requires BlankAt(f, p)
    ensures p < |f|
  {
  }

  /** A link is what the reader returns next. */
  lemma {:induction false} LinkIff(f: Bytes, p: nat)
    ensures forall q: nat, t, bytes ::
              LinkAt(f, p, q, t, bytes) ==> ReadPhysical(f, p) == Fragment(t, bytes, q + HEADER + |bytes|)
    ensures forall t, bytes, end: nat ::
              ReadPhysical(f, p) == Fragment(t, bytes, end) ==>
                end >= HEADER + |bytes| && LinkAt(f, p, end - HEADER - |bytes|, t, bytes)
  {
    hide ReadPhysical, BlankUpTo, BlankAt, IntactAt;
    var q := ReadPhysicalIsExact(f, p);
    forall r: nat, t, bytes | LinkAt(f, p, r, t, bytes)
      ensures ReadPhysical(f, p) == Fragment(t, bytes, r + HEADER + |bytes|)
    {
      IntactIsInside(f, r, t, bytes);
      EndIsNotBlank(f, q);
      OneNonBlank(f, p, q, r);
    }
    forall t, bytes, end: nat | ReadPhysical(f, p) == Fragment(t, bytes, end)
      ensures end >= HEADER + |bytes| && LinkAt(f, p, end - HEADER - |bytes|, t, bytes)
    {
      assert end == q + HEADER + |bytes|;
    }
  }

  lemma {:induction false} IntactIsInside(f: Bytes, q: nat, t: byte, bytes: Bytes)
    requires IntactAt(f, q, t, bytes)
    ensures q < |f|
  {
  }

  lemma {:induction false} EndIsNotBlank(f: Bytes, q: nat)
    ensures q >= |f| ==> !BlankAt(f, q)
  {
  }

  /** On arbitrary bytes: a record is returned exactly where intact fragments of it stand in order. */
  lemma {:induction false} ReadRecordIff(f: Bytes, p: nat, scratch: Option<Bytes>, payload: Bytes, end: nat)
    ensures ReadRecord(f, p, scratch) == Record(payload, end) <==>
              exists parts :: Chain(f, p, parts, scratch.None?, end) && payload == Append(scratch, Concat(parts))
    decreases |f| - p
  {
    hide ReadPhysical, LinkAt;
    LinkIff(f, p);
    if ReadRecord(f, p, scratch) == Record(payload, end) {
      var parts := RecordHasParts(f, p, scratch);
    }
    if exists parts :: Chain(f, p, parts, scratch.None?, end) && payload == Append(scratch, Concat(parts)) {
      var parts :| Chain(f, p, parts, scratch.None?, end) && payload == Append(scratch, Concat(parts));
      PartsAreRecord(f, p, scratch, parts, end);
    }
  }

  lemma {:induction false} RecordHasParts(f: Bytes, p: nat, scratch: Option<Bytes>) returns (parts: seq<Bytes>)
    requires ReadRecord(f, p, scratch).Record?
    ensures var r := ReadRecord(f, p, scratch);
            Chain(f, p, parts, scratch.None?, r.end) && r.payload == Append(scratch, Concat(parts))
    decreases |f| - p
  {
    hide ReadPhysical, LinkAt;
    LinkIff(f, p);
    var r, ph := ReadRecord(f, p, scratch), ReadPhysical(f, p);
    var q := ph.end - HEADER - |ph.bytes|;
    assert LinkAt(f, p, q, ph.t, ph.bytes);
    if ph.t == FULL || ph.t == LAST {
      parts := [ph.bytes];
      assert Concat(parts) == ph.bytes by { assert parts[..0] == []; }
      assert LinkAt(f, p, q, TagOf(scratch.None?, |parts|), parts[0]);
    } else {
      var rest := RecordHasParts(f, ph.end, Some(Append(scratch, ph.bytes)));
      parts := [ph.bytes] + rest;
      ConcatFront(ph.bytes, rest);
      assert parts[1..] == rest && rest != [];
      assert LinkAt(f, p, q, TagOf(scratch.None?, |parts|), parts[0]);
    }
  }

  lemma {:induction false} PartsAreRecord(f: Bytes, p: nat, scratch: Option<Bytes>, parts: seq<Bytes>, end: nat)
    requires Chain(f, p, parts, scratch.None?, end)
    ensures ReadRecord(f, p, scratch) == Record(Append(scratch, Concat(parts)), end)
    decreases parts
  {
    hide ReadPhysical, LinkAt;
    LinkIff(f, p);
    var q: nat :| LinkAt(f, p, q, TagOf(scratch.None?, |parts|), parts[0])
      && var e := q + HEADER + |parts[0]|; if |parts| == 1 then end == e else Chain(f, e, parts[1..], false, end);
    var e := q + HEADER + |parts[0]|;
    assert ReadPhysical(f, p) == Fragment(TagOf(scratch.None?, |parts|), parts[0], e);
    assert parts == [parts[0]] + parts[1..];
    ConcatFront(parts[0], parts[1..]);
    if |parts| > 1 { PartsAreRecord(f, e, Some(Append(scratch, parts[0])), parts[1..], end); }
  }

  lemma {:induction false} ConcatFront(x: Bytes, rest: seq<Bytes>)
    ensures Concat([x] + rest) == x + Concat(rest)
  {
    var all := [x] + rest;
    if rest == [] {
      assert all[..0] == [];
    } else {
      var init := rest[..|rest| - 1];
      assert all[..|all| - 1] == [x] + init;
      ConcatFront(x, init);
    }
  }

  // ---- torn tails -----------------------------------------------------------------------------------------

  /** `f` ends inside the encoding of `payload` that starts at `off`. */
  predicate TornInside(f: Bytes, off: nat, payload: Bytes, begin: bool) {
    && off <= |f| < off + |Encode(payload, off, begin)|
    && f[off..] == Encode(payload, off, begin)[..|f| - off]
  }

  /** A torn record is never returned: completing the file would give it a different end. */
  lemma {:induction false} TornIsNotRead(f: Bytes, off: nat, payload: Bytes, scratch: Option<Bytes>)
    requires TornInside(f, off, payload, scratch.None?)
    ensures !ReadRecord(f, off, scratch).Record?
  {
    hide ReadPhysical, ReadRecord, Encode;
    var e := Encode(payload, off, scratch.None?);
    var g := f[..off] + e;
    assert f == f[..off] + f[off..];
    assert g[..|f|] == f;
    assert At(g, off, e);
    EncodeReadsBack(g, off, payload, scratch);
    var r := ReadRecord(f, off, scratch);
    if r.Record? {
      assert f[..r.end] == g[..r.end];
      RecordIsLocal(f, g, off, scratch);
    }
  }

  // ---- prefixes of a log --------------------------------------------------------------------------------------

  /** How many of the records written from `off` on lie wholly below `n`. */
  function Whole(payloads: seq<Bytes>, off: nat, n: nat): (m: nat)
    ensures m <= |payloads|
  {
    if payloads == [] then 0
    else
      var end := off + |Encode(payloads[0], off, true)|;
      if end <= n then 1 + Whole(payloads[1..], end, n) else 0
  }

  /**
   * For every list of payloads and every byte prefix of their encoding, the reader returns exactly
   * the records wholly inside the prefix, and `last_good_end` is the end of the last of them.
   */
  lemma {:induction false} PrefixReplaysExactly(f: Bytes, off: nat, payloads: seq<Bytes>)
    requires off <= |f| <= off + |EncodeAll(payloads, off)|
    requires f[off..] == EncodeAll(payloads, off)[..|f| - off]
    ensures var m, r := Whole(payloads, off, |f|), ReadAll(f, off);
            r.records == payloads[..m] && r.end == off + |EncodeAll(payloads[..m], off)|
    ensures |f| == off + |EncodeAll(payloads, off)| ==> Whole(payloads, off, |f|) == |payloads| && ReadAll(f, off).clean
    decreases |payloads|
  {
    hide ReadRecord, Encode, At;
    if payloads == [] {
      assert ReadRecord(f, off, None) == Eof by { EndOfFile(f, off); }
    } else {
      var e := Encode(payloads[0], off, true);
      var end := off + |e|;
      var all := EncodeAll(payloads, off);
      if end <= |f| {
        PrefixParts(f, off, e, EncodeAll(payloads[1..], end));
        EncodeReadsBack(f, off, payloads[0], None);
        PrefixReplaysExactly(f, end, payloads[1..]);
        var m := Whole(payloads, off, |f|);
        assert payloads[..m] == [payloads[0]] + payloads[1..][..m - 1];
        assert payloads[..m][1..] == payloads[1..][..m - 1];
      } else {
        assert all[..|f| - off] == e[..|f| - off];
        TornIsNotRead(f, off, payloads[0], None);
      }
    }
  }

  lemma {:induction false} PrefixParts(f: Bytes, off: nat, e: Bytes, rest: Bytes)
    requires off + |e| <= |f| <= off + |e + rest| && f[off..] == (e + rest)[..|f| - off]
    ensures At(f, off, e) && f[off + |e|..] == rest[..|f| - off - |e|]
  {
    var end := off + |e|;
    assert f[off..end] == f[off..][..|e|] == (e + rest)[..|f| - off][..|e|] == e;
    assert f[end..] == f[off..][|e|..];
  }

  lemma {:induction false} EndOfFile(f: Bytes, off: nat)
    requires off >= |f|
    ensures ReadRecord(f, off, None) == Eof
  {
  }

  /** A complete log reads back as the payloads written. */
  lemma {:induction false} WholeLogReplays(pre: Bytes, payloads: seq<Bytes>)
    ensures ReadAll(pre + EncodeAll(payloads, |pre|), |pre|)
            == Replayed(payloads, |pre| + |EncodeAll(payloads, |pre|)|, true)
  {
    var f := pre + EncodeAll(payloads, |pre|);
    assert f[|pre|..] == EncodeAll(payloads, |pre|);
    PrefixReplaysExactly(f, |pre|, payloads);
    assert payloads[..|payloads|] == payloads;
  }

  // ---- appending after recovery ---------------------------------------------------------------------------

  /** For every byte string: cut it at `last_good_end`, append records there, and both parts read back. */
  lemma {:induction false} AppendAfterCut(f: Bytes, p: nat, payloads: seq<Bytes>)
    requires p <= |f|
    ensures var r := ReadAll(f, p);
            var g := f[..r.end] + EncodeAll(payloads, r.end);
            ReadAll(g, p) == Replayed(r.records + payloads, |g|, true)
    decreases |f| - p
  {
    hide ReadRecord, Encode, EncodeAll, ReadPhysical;
    var r := ReadAll(f, p);
    var g := f[..r.end] + EncodeAll(payloads, r.end);
    var rec := ReadRecord(f, p, None);
    if rec.Record? {
      AppendAfterCut(f, rec.end, payloads);
      assert g[..rec.end] == f[..rec.end];
      RecordIsLocal(f, g, p, None);
      assert r.records + payloads == [rec.payload] + (ReadAll(f, rec.end).records + payloads);
    } else {
      WholeLogReplays(f[..r.end], payloads);
      assert r.records + payloads == payloads;
    }
  }

  // ---- the tail Open does not cut -----------------------------------------------------------------------------

  /** A tail too short for a header reads as a clean end, so `Open` leaves it in place. */
  lemma {:induction false} TornHeaderIsSilent(f: Bytes, off: nat)
    requires off <= |f| < Start(off) + HEADER
    ensures ReadRecord(f, off, None) == Eof && ReadAll(f, off) == Replayed([], off, true)
  {
    assert ReadPhysical(f, off) == NoMore by {
      if off < |f| && Start(off) < |f| {
        SkipPadding(f, off);
        assert BlockEnd(f, Start(off)) == |f|;
      }
    }
  }
}
