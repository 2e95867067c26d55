/** Which files pass for a MANIFEST: exactly the logs of well-formed records with ascending numbers. */
module ManifestParse {
  import opened Seqs
  import opened Bytes
  import opened Wal
  import opened Manifest

  /** What one record says. */
  datatype Line = Table(meta: FileMeta) | Generation(number: nat) | Floor(number: nat)

  function EncodeLine(l: Line): Bytes {
    match l
    case Table(m) => EncodeMeta(m)
    case Generation(n) => NumberRecord(3, n)
    case Floor(n) => NumberRecord(2, n)
  }

  function Encoded(ls: seq<Line>): (rs: seq<Bytes>)
    ensures |rs| == |ls| && forall i :: 0 <= i < |ls| ==> rs[i] == EncodeLine(ls[i])
  {
    seq(|ls|, i requires 0 <= i < |ls| => EncodeLine(ls[i]))
  }

  function Tables(ls: seq<Line>): seq<FileMeta> {
    if ls == [] then [] else (if ls[0].Table? then [ls[0].meta] else []) + Tables(ls[1..])
  }

  function Generations(ls: seq<Line>): seq<nat> {
    if ls == [] then [] else (if ls[0].Generation? then [ls[0].number] else []) + Generations(ls[1..])
  }

  /** The last floor, or `before` if there is none. */
  function LastFloor(ls: seq<Line>, before: Option<nat>): Option<nat> {
    if ls == [] then before else LastFloor(ls[1..], if ls[0].Floor? then Some(ls[0].number) else before)
  }

  ghost predicate FloorsFit(ls: seq<Line>) {
    forall i :: 0 <= i < |ls| && ls[i].Floor? ==> ls[i].number < U64
  }

  // ---- one record -----------------------------------------------------------------------------------------

  ghost predicate Accepts(p: Parsed, l: Line) {
    match l
    case Table(m) => MetaFits(m) && m.level < MAX_LEVELS && m.number > p.lastFile
    case Generation(n) => p.lastVlog < n < U64
    case Floor(n) => n < U64
  }

  function Noted(p: Parsed, l: Line): Parsed {
    match l
    case Table(m) => p.(files := p.files + [m], lastFile := m.number)
    case Generation(n) => p.(vlogs := p.vlogs + [n], lastVlog := n)
    case Floor(n) => p.(log := Some(n))
  }

  /** A table record that parses is the encoding of what it parses to. */
  lemma {:induction false} MetaBack(r: Bytes)
    requires r != [] && r[0] == TAG_SST && ParseMeta(r).Some?
    ensures r == EncodeMeta(ParseMeta(r).value) && MetaFits(ParseMeta(r).value)
  {
    hide Fixed32, Fixed64, FromLittleEndian;
    var m := ParseMeta(r).value;
    var s, l := |m.smallest|, |m.largest|;
    Field64Back(r, 1);
    FieldBack(r, 9);
    Field64Back(r, 13);
    Field64Back(r, 21);
    Field64Back(r, 29);
    Field64Back(r, 37);
    FieldBack(r, FIXED - 4);
    FieldBack(r, FIXED + s);
    HeadBack(r);
    var h := r[..FIXED - 4];
    assert r == h + r[FIXED - 4..FIXED] + r[FIXED..FIXED + s] + r[FIXED + s..FIXED + s + 4] + r[FIXED + s + 4..];
  }

  lemma {:induction false} HeadBack(r: Bytes)
    requires |r| >= FIXED
    ensures r[..FIXED - 4] == [r[0]] + r[1..9] + r[9..13] + r[13..21] + r[21..29] + r[29..37] + r[37..45]
  {
  }

  lemma {:induction false} Field64Back(r: Bytes, at: nat)
    requires at + 8 <= |r|
    ensures Fixed64(GetFixed64(r, at)) == r[at..at + 8]
  {
    FromLittleEndianRoundTrip(r[at..at + 8]);
  }

  lemma {:induction false} NumberBack(r: Bytes)
    requires |r| == 9
    ensures r == NumberRecord(r[0], GetFixed64(r, 1))
  {
    hide Fixed64, FromLittleEndian;
    Field64Back(r, 1);
    assert r == [r[0]] + r[1..9];
  }

  /** The line a parsed record is. */
  lemma {:induction false} LineOf(p: Parsed, r: Bytes) returns (l: Line)
    requires ParseRecord(p, r).Some?
    ensures Accepts(p, l) && r == EncodeLine(l) && ParseRecord(p, r) == Some(Noted(p, l))
  {
    hide ParseMeta, EncodeMeta, NumberRecord, GetFixed64;
    if r[0] == TAG_SST {
      MetaBack(r);
      l := Table(ParseMeta(r).value);
    } else {
      NumberBack(r);
      l := if r[0] == TAG_LOG then Floor(GetFixed64(r, 1)) else Generation(GetFixed64(r, 1));
    }
  }

  lemma {:induction false} LineParses(p: Parsed, l: Line)
    requires Accepts(p, l)
    ensures ParseRecord(p, EncodeLine(l)) == Some(Noted(p, l))
  {
    hide ParseMeta, EncodeMeta, NumberRecord, GetFixed64;
    if l.Table? { FileParses(p, l.meta); }
  }

  // ---- all of them ----------------------------------------------------------------------------------------

  ghost predicate Fits(p: Parsed, ls: seq<Line>) {
    FilesFit(Tables(ls), p.lastFile) && VlogsFit(Generations(ls), p.lastVlog) && FloorsFit(ls)
  }

  /** The first line fits, and the others fit behind it. */
  lemma {:induction false} FitsIff(p: Parsed, ls: seq<Line>)
    requires ls != []
    ensures Fits(p, ls) <==> Accepts(p, ls[0]) && Fits(Noted(p, ls[0]), ls[1..])
  {
    hide MetaFits, FilesFit, VlogsFit;
    var rest := ls[1..];
    assert ls == [ls[0]] + rest;
    assert [] + Tables(rest) == Tables(rest) && [] + Generations(rest) == Generations(rest);
    assert FloorsFit(ls) <==> FloorsFit(rest) && (ls[0].Floor? ==> ls[0].number < U64);
    match ls[0]
    case Table(m) => FilesFitIff(m, Tables(rest), p.lastFile);
    case Generation(n) => VlogsFitIff(n, Generations(rest), p.lastVlog);
    case Floor(n) =>
  }

  lemma {:induction false} FilesFitIff(m: FileMeta, rest: seq<FileMeta>, above: nat)
    ensures FilesFit([m] + rest, above) <==>
              MetaFits(m) && m.level < MAX_LEVELS && m.number > above && FilesFit(rest, m.number)
  {
    hide MetaFits;
    var all := [m] + rest;
    if FilesFit(all, above) {
      assert all[0] == m;
      forall i | 0 <= i < |rest| ensures rest[i] == all[i + 1] && all[0].number < all[i + 1].number {
      }
    }
    if FilesFit(rest, m.number) {
      assert forall i :: 0 < i < |all| ==> all[i] == rest[i - 1];
    }
  }

  lemma {:induction false} VlogsFitIff(n: nat, rest: seq<nat>, above: nat)
    ensures VlogsFit([n] + rest, above) <==> above < n < U64 && VlogsFit(rest, n)
  {
    var all := [n] + rest;
    if VlogsFit(all, above) {
      assert all[0] == n;
      forall i | 0 <= i < |rest| ensures rest[i] == all[i + 1] && all[0] < all[i + 1] {
      }
    }
    if VlogsFit(rest, n) {
      assert forall i :: 0 < i < |all| ==> all[i] == rest[i - 1];
    }
  }

  lemma {:induction false} LinesParse(p: Parsed, ls: seq<Line>)
    requires Fits(p, ls)
    ensures var o := ParseRecords(p, Encoded(ls));
            && o.Some? && o.value.files == p.files + Tables(ls) && o.value.vlogs == p.vlogs + Generations(ls)
            && o.value.log == LastFloor(ls, p.log)
    decreases |ls|
  {
    hide ParseRecord, EncodeLine, Fits, Accepts;
    if ls == [] {
      assert p.files + [] == p.files && p.vlogs + [] == p.vlogs;
    } else {
      FitsIff(p, ls);
      LineParses(p, ls[0]);
      assert Encoded(ls)[1..] == Encoded(ls[1..]);
      LinesParse(Noted(p, ls[0]), ls[1..]);
      Appended(p, ls);
    }
  }

  lemma {:induction false} Appended(p: Parsed, ls: seq<Line>)
    requires ls != []
    ensures Noted(p, ls[0]).files + Tables(ls[1..]) == p.files + Tables(ls)
    ensures Noted(p, ls[0]).vlogs + Generations(ls[1..]) == p.vlogs + Generations(ls)
  {
    var ts, gs := Tables(ls[1..]), Generations(ls[1..]);
    Regroup(p.files, if ls[0].Table? then [ls[0].meta] else [], ts);
    Regroup(p.vlogs, if ls[0].Generation? then [ls[0].number] else [], gs);
    assert p.files + [] == p.files && p.vlogs + [] == p.vlogs;
  }

  lemma {:induction false} LinesOf(p: Parsed, rs: seq<Bytes>) returns (ls: seq<Line>)
    requires ParseRecords(p, rs).Some?
    ensures Fits(p, ls) && rs == Encoded(ls)
    decreases |rs|
  {
    hide ParseRecord, EncodeLine, Accepts;
    if rs == [] {
      ls := [];
    } else {
      hide Fits;
      var l := LineOf(p, rs[0]);
      var rest := LinesOf(Noted(p, l), rs[1..]);
      ls := [l] + rest;
      assert ls[1..] == rest;
      FitsIff(p, ls);
      assert rs == [rs[0]] + rs[1..];
    }
  }

  /** What the lines list is what the MANIFEST holds. */
  ghost predicate Lists(ls: seq<Line>, c: Contents) {
    && Tables(ls) == c.files && Generations(ls) == c.vlogs && LastFloor(ls, None) == Some(c.logNumber)
    && FilesFit(c.files, 0) && VlogsFit(c.vlogs, 0) && FloorsFit(ls)
  }

  /**
   * On arbitrary bytes: a file parses exactly if it reads cleanly as a log of well-formed records in
   * which table numbers ascend, value log numbers ascend, levels exist and a floor is named; and
   * then it parses to what they list.
   */
  lemma {:induction false} ParseIff(f: Bytes, c: Contents)
    ensures Parse(f) == Some(c) <==>
              ReadAll(f, 0).clean && exists ls :: ReadAll(f, 0).records == Encoded(ls) && Lists(ls, c)
  {
    hide ReadAll, ParseRecords, Encoded, Tables, Generations, LastFloor, FilesFit, VlogsFit, FloorsFit;
    var r := ReadAll(f, 0);
    if Parse(f) == Some(c) {
      var ls := LinesOf(START, r.records);
      LinesParse(START, ls);
      assert [] + Tables(ls) == Tables(ls) && [] + Generations(ls) == Generations(ls);
      assert Lists(ls, c);
    }
    if r.clean && exists ls :: r.records == Encoded(ls) && Lists(ls, c) {
      var ls :| r.records == Encoded(ls) && Lists(ls, c);
      LinesParse(START, ls);
      assert [] + Tables(ls) == Tables(ls) && [] + Generations(ls) == Generations(ls);
    }
  }
}
