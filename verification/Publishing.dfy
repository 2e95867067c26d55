/** Publishing a version in the MANIFEST, and rebuilding it when the database is opened. */
module Publishing {
  import opened Keys
  import opened Entries
  import opened Versions
  import opened Install
  import E = Engine
  import opened Manifest

  datatype Placed = Placed(file: File, level: nat)

  // ---- order --------------------------------------------------------------------------------------------

  /** Two lists in the same strict order with the same members are equal. */
  lemma {:induction false} SameOrder<T>(a: seq<T>, b: seq<T>, lt: (T, T) -> bool)
    requires forall x :: x in a <==> x in b
    requires forall i, j :: 0 <= i < j < |a| ==> lt(a[i], a[j])
    requires forall i, j :: 0 <= i < j < |b| ==> lt(b[i], b[j])
    requires forall x, y :: x in a && y in a && lt(x, y) ==> !lt(y, x)
    ensures a == b
    decreases |a|
  {
    NoneOnlyIfNone(a, b);
    if a != [] {
      assert a[0] in a;
      var k :| 0 <= k < |b| && b[k] == a[0];
      assert b[0] in b;
      var j :| 0 <= j < |a| && a[j] == b[0];
      assert a[0] == b[0];
      TailMembers(a, b, lt);
      SameOrder(a[1..], b[1..], lt);
      assert a == [a[0]] + a[1..] && b == [b[0]] + b[1..];
    }
  }

  lemma {:induction false} NoneOnlyIfNone<T>(a: seq<T>, b: seq<T>)
    requires forall x :: x in a <==> x in b
    ensures b != [] ==> a != []
  {
    if b != [] { assert b[0] in a; }
  }

  lemma {:induction false} TailMembers<T>(a: seq<T>, b: seq<T>, lt: (T, T) -> bool)
    requires a != [] && b != [] && a[0] == b[0] && forall x :: x in a <==> x in b
    requires forall i, j :: 0 <= i < j < |a| ==> lt(a[i], a[j])
    requires forall i, j :: 0 <= i < j < |b| ==> lt(b[i], b[j])
    requires forall x, y :: x in a && y in a && lt(x, y) ==> !lt(y, x)
    ensures forall x :: x in a[1..] <==> x in b[1..]
    ensures forall i, j :: 0 <= i < j < |a[1..]| ==> lt(a[1..][i], a[1..][j])
    ensures forall i, j :: 0 <= i < j < |b[1..]| ==> lt(b[1..][i], b[1..][j])
  {
    assert a == [a[0]] + a[1..] && b == [b[0]] + b[1..];
    forall x | x in a[1..] ensures x in b[1..] {
      var i :| 0 <= i < |a[1..]| && a[1..][i] == x;
      assert lt(a[0], a[i + 1]);
      assert x in b;
    }
    forall x | x in b[1..] ensures x in a[1..] {
      var i :| 0 <= i < |b[1..]| && b[1..][i] == x;
      assert lt(b[0], b[i + 1]);
      assert x in a;
    }
  }

  // ---- writing ------------------------------------------------------------------------------------------

  function PlacedIn(fs: seq<File>, level: nat): (r: seq<Placed>)
    ensures |r| == |fs| && forall i :: 0 <= i < |fs| ==> r[i] == Placed(fs[i], level)
  {
    if fs == [] then [] else [Placed(fs[0], level)] + PlacedIn(fs[1..], level)
  }

  /** Every table from level `i` on. */
  function PlacedFrom(v: Version, i: nat): seq<Placed>
    requires i <= |v.levels| + 1
    decreases |v.levels| + 1 - i
  {
    if i == |v.levels| + 1 then [] else PlacedIn(E.Run(v, i), i) + PlacedFrom(v, i + 1)
  }

  lemma {:induction false} PlacedMembers(v: Version, i: nat, p: Placed)
    requires i <= |v.levels| + 1
    ensures p in PlacedFrom(v, i) <==> i <= p.level <= |v.levels| && p.file in E.Run(v, p.level)
    decreases |v.levels| + 1 - i
  {
    hide PlacedIn;
    if i <= |v.levels| {
      PlacedMembers(v, i + 1, p);
      var here := PlacedIn(E.Run(v, i), i);
      if p.level == i && p.file in E.Run(v, i) {
        var j :| 0 <= j < |E.Run(v, i)| && E.Run(v, i)[j] == p.file;
        assert here[j] == p;
      }
      if p in here { var j :| 0 <= j < |here| && here[j] == p; }
    }
  }

  ghost predicate NumbersDiffer(ps: seq<Placed>) {
    forall i, j :: 0 <= i < j < |ps| ==> ps[i].file.number != ps[j].file.number
  }

  lemma {:induction false} PlacedDiffer(v: Version, i: nat)
    requires VersionOk(v) && E.UniqueAcross(v) && i <= |v.levels| + 1
    ensures NumbersDiffer(PlacedFrom(v, i))
    decreases |v.levels| + 1 - i
  {
    hide Sorted, Less, PlacedIn;
    if i <= |v.levels| {
      PlacedDiffer(v, i + 1);
      var here, rest := PlacedIn(E.Run(v, i), i), PlacedFrom(v, i + 1);
      RunDiffers(v, i);
      forall x, y | x in here && y in rest ensures x.file.number != y.file.number {
        PlacedMembers(v, i + 1, y);
        var j :| 0 <= j < |here| && here[j] == x;
        assert x.file in E.Run(v, i) && y.file in E.Run(v, y.level);
      }
      var all := here + rest;
      forall a, b | 0 <= a < b < |all| ensures all[a].file.number != all[b].file.number {
        if a < |here| <= b { assert all[a] in here && all[b] in rest; }
      }
    }
  }

  lemma {:induction false} RunDiffers(v: Version, i: nat)
    requires VersionOk(v) && i <= |v.levels|
    ensures forall a, b :: 0 <= a < b < |E.Run(v, i)| ==> E.Run(v, i)[a].number != E.Run(v, i)[b].number
  {
    hide Sorted, Less;
  }

  function InsertPlaced(ps: seq<Placed>, p: Placed): (r: seq<Placed>)
    ensures forall x :: x in r <==> x in ps || x == p
  {
    if ps == [] || p.file.number < ps[0].file.number then [p] + ps else [ps[0]] + InsertPlaced(ps[1..], p)
  }

  /** `std::sort` by table number. */
  function SortPlaced(ps: seq<Placed>): (r: seq<Placed>)
    ensures forall x :: x in r <==> x in ps
  {
    if ps == [] then []
    else
      assert ps == ps[..|ps| - 1] + [ps[|ps| - 1]];
      InsertPlaced(SortPlaced(ps[..|ps| - 1]), ps[|ps| - 1])
  }

  ghost predicate NumbersAscend(ps: seq<Placed>) {
    forall i, j :: 0 <= i < j < |ps| ==> ps[i].file.number < ps[j].file.number
  }

  lemma {:induction false} InsertAscends(ps: seq<Placed>, p: Placed)
    requires NumbersAscend(ps) && forall x :: x in ps ==> x.file.number != p.file.number
    ensures NumbersAscend(InsertPlaced(ps, p))
  {
    if ps != [] && p.file.number > ps[0].file.number {
      InsertAscends(ps[1..], p);
      var rest := InsertPlaced(ps[1..], p);
      forall j | 0 <= j < |rest| ensures ps[0].file.number < rest[j].file.number {
        assert rest[j] in rest;
        if rest[j] != p { var i :| 0 <= i < |ps[1..]| && ps[1..][i] == rest[j]; }
      }
    } else if ps != [] {
      assert ps[0] in ps;
    }
  }

  lemma {:induction false} SortAscends(ps: seq<Placed>)
    requires NumbersDiffer(ps)
    ensures NumbersAscend(SortPlaced(ps))
  {
    if ps != [] {
      var init, last := ps[..|ps| - 1], ps[|ps| - 1];
      SortAscends(init);
      forall x | x in SortPlaced(init) ensures x.file.number != last.file.number {
        var i :| 0 <= i < |init| && init[i] == x;
        assert ps[i] == x;
      }
      InsertAscends(SortPlaced(init), last);
    }
  }

  function SmallestSeq(es: seq<Entry>): (r: nat)
    requires es != []
    ensures forall e :: e in es ==> r <= e.seqno
    ensures exists e :: e in es && e.seqno == r
  {
    assert es == [es[0]] + es[1..];
    if |es| == 1 || es[0].seqno < SmallestSeq(es[1..]) then es[0].seqno else SmallestSeq(es[1..])
  }

  function LargestSeq(es: seq<Entry>): (r: nat)
    requires es != []
    ensures forall e :: e in es ==> e.seqno <= r
    ensures exists e :: e in es && e.seqno == r
  {
    assert es == [es[0]] + es[1..];
    if |es| == 1 || es[0].seqno > LargestSeq(es[1..]) then es[0].seqno else LargestSeq(es[1..])
  }

  /** What a table record must say about the table it names. */
  ghost predicate Describes(m: FileMeta, f: File, level: nat) {
    && m.number == f.number && m.level == level && m.size == f.size && m.count == |f.entries| > 0
    && m.smallest == f.entries[0].key && m.largest == f.entries[|f.entries| - 1].key
    && (forall e :: e in f.entries ==> m.smallestSeq <= e.seqno <= m.largestSeq)
    && (exists e :: e in f.entries && e.seqno == m.smallestSeq)
    && exists e :: e in f.entries && e.seqno == m.largestSeq
  }

  function MetaOf(p: Placed): (m: FileMeta)
    requires p.file.entries != []
    ensures Describes(m, p.file, p.level)
  {
    var f := p.file;
    FileMeta(f.number, p.level, SmallestSeq(f.entries), LargestSeq(f.entries), |f.entries|, f.size, f.Smallest(),
      f.Largest())
  }

  function Metas(ps: seq<Placed>): (r: seq<FileMeta>)
    requires forall i :: 0 <= i < |ps| ==> ps[i].file.entries != []
  {
    if ps == [] then [] else [MetaOf(ps[0])] + Metas(ps[1..])
  }

  lemma {:induction false} MetasAt(ps: seq<Placed>)
    requires forall i :: 0 <= i < |ps| ==> ps[i].file.entries != []
    ensures |Metas(ps)| == |ps| && forall i :: 0 <= i < |ps| ==> Metas(ps)[i] == MetaOf(ps[i])
  {
    hide MetaOf;
    if ps != [] { MetasAt(ps[1..]); }
  }

  /** The tables in the order they are written. */
  function InOrder(v: Version): seq<Placed> {
    SortPlaced(PlacedFrom(v, 0))
  }

  // ---- opening ------------------------------------------------------------------------------------------

  /** The tables of one level, as the disk holds them. */
  function AtLevel(metas: seq<FileMeta>, tables: map<nat, seq<Entry>>, level: nat): seq<File> {
    if metas == [] then []
    else
      var m := metas[0];
      (if m.level == level && m.number in tables then [File(m.number, tables[m.number], m.size)] else [])
        + AtLevel(metas[1..], tables, level)
  }

  function InsertDesc(fs: seq<File>, f: File): (r: seq<File>)
    ensures forall x :: x in r <==> x in fs || x == f
  {
    if fs == [] || f.number > fs[0].number then [f] + fs else [fs[0]] + InsertDesc(fs[1..], f)
  }

  /** `std::sort` with the highest number first. */
  function SortDesc(fs: seq<File>): (r: seq<File>)
    ensures forall x :: x in r <==> x in fs
  {
    if fs == [] then []
    else
      assert fs == fs[..|fs| - 1] + [fs[|fs| - 1]];
      InsertDesc(SortDesc(fs[..|fs| - 1]), fs[|fs| - 1])
  }

  predicate Distributed(metas: seq<FileMeta>, tables: map<nat, seq<Entry>>) {
    forall l: nat :: 1 <= l <= LEVELS ==> FilesOk(AtLevel(metas, tables, l))
  }

  /** `DB::Open`: tables by level, L0 newest first, the rest in key order. */
  function Rebuilt(metas: seq<FileMeta>, tables: map<nat, seq<Entry>>): Version
    requires Distributed(metas, tables)
  {
    Version(SortDesc(AtLevel(metas, tables, 0)),
            seq(LEVELS, i requires 0 <= i < LEVELS => SortFiles(AtLevel(metas, tables, i + 1))))
  }

  /** The files of one level among placed ones. */
  function Chosen(ps: seq<Placed>, level: nat): seq<File> {
    if ps == [] then [] else (if ps[0].level == level then [ps[0].file] else []) + Chosen(ps[1..], level)
  }

  lemma {:induction false} AtLevelIsChosen(ps: seq<Placed>, tables: map<nat, seq<Entry>>, level: nat)
    requires forall i :: 0 <= i < |ps| ==>
               ps[i].file.entries != [] && ps[i].file.number in tables
               && tables[ps[i].file.number] == ps[i].file.entries
    ensures AtLevel(Metas(ps), tables, level) == Chosen(ps, level)
    decreases |ps|
  {
    hide SmallestSeq, LargestSeq;
    if ps != [] {
      AtLevelIsChosen(ps[1..], tables, level);
      assert Metas(ps)[1..] == Metas(ps[1..]);
    }
  }

  predicate NumbersUp(fs: seq<File>) {
    forall i, j :: 0 <= i < j < |fs| ==> fs[i].number < fs[j].number
  }

  predicate NumbersDown(fs: seq<File>) {
    forall i, j :: 0 <= i < j < |fs| ==> fs[i].number > fs[j].number
  }

  lemma {:induction false} ChosenMembers(ps: seq<Placed>, level: nat)
    requires NumbersAscend(ps)
    ensures (forall f :: f in Chosen(ps, level) <==> Placed(f, level) in ps) && NumbersUp(Chosen(ps, level))
    decreases |ps|
  {
    if ps != [] {
      var rest := ps[1..];
      ChosenMembers(rest, level);
      var fs := Chosen(rest, level);
      assert ps == [ps[0]] + rest;
      forall i | 0 <= i < |fs| ensures ps[0].file.number < fs[i].number {
        assert fs[i] in fs;
        var j :| 0 <= j < |rest| && rest[j] == Placed(fs[i], level);
        assert rest[j] == ps[j + 1];
      }
    }
  }

  lemma {:induction false} InsertDescends(fs: seq<File>, f: File)
    requires NumbersDown(fs) && forall x :: x in fs ==> x.number != f.number
    ensures NumbersDown(InsertDesc(fs, f))
  {
    if fs != [] && f.number < fs[0].number {
      InsertDescends(fs[1..], f);
      var rest := InsertDesc(fs[1..], f);
      forall j | 0 <= j < |rest| ensures fs[0].number > rest[j].number {
        assert rest[j] in rest;
        if rest[j] != f { var i :| 0 <= i < |fs[1..]| && fs[1..][i] == rest[j]; }
      }
    } else if fs != [] {
      assert fs[0] in fs;
    }
  }

  lemma {:induction false} SortDescends(fs: seq<File>)
    requires NumbersUp(fs)
    ensures NumbersDown(SortDesc(fs))
  {
    if fs != [] {
      var init, last := fs[..|fs| - 1], fs[|fs| - 1];
      SortDescends(init);
      forall x | x in SortDesc(init) ensures x.number != last.number {
        var i :| 0 <= i < |init| && init[i] == x;
        assert fs[i] == x;
      }
      InsertDescends(SortDesc(init), last);
    }
  }

  lemma {:induction false} LevelZeroRebuilt(l0: seq<File>, fs: seq<File>)
    requires L0Ok(l0) && (forall f :: f in fs <==> f in l0) && NumbersUp(fs)
    ensures SortDesc(fs) == l0
  {
    hide Sorted;
    SortDescends(fs);
    SameOrder(SortDesc(fs), l0, (x: File, y: File) => x.number > y.number);
  }

  lemma {:induction false} LeveledRebuilt(level: seq<File>, fs: seq<File>)
    requires LevelOk(level) && (forall f :: f in fs <==> f in level) && NumbersUp(fs)
    ensures FilesOk(fs) && SortFiles(fs) == level
  {
    hide Sorted, Less;
    forall i | 0 <= i < |fs| ensures FileOk(fs[i]) { assert fs[i] in fs; }
    forall i, j | 0 <= i < j < |fs| ensures Apart(fs[i], fs[j]) {
      assert fs[i] in fs && fs[j] in fs;
      var a :| 0 <= a < |level| && level[a] == fs[i];
      var b :| 0 <= b < |level| && level[b] == fs[j];
      assert a < b ==> RangeBefore(level[a], level[b]);
      assert b < a ==> RangeBefore(level[b], level[a]);
    }
    SortedApartIsLevel(fs);
    SameLevel(SortFiles(fs), level);
  }

  lemma {:induction false} SameLevel(a: seq<File>, b: seq<File>)
    requires LevelOk(a) && LevelOk(b) && forall f :: f in a <==> f in b
    ensures a == b
  {
    hide Sorted, Less;
    LessIsStrictTotalOrder();
    forall i, j | 0 <= i < j < |a| ensures Less(a[i].Smallest(), a[j].Smallest()) { RunAscends(a, i, j); }
    forall i, j | 0 <= i < j < |b| ensures Less(b[i].Smallest(), b[j].Smallest()) { RunAscends(b, i, j); }
    SameOrder(a, b, (x: File, y: File) => x.entries != [] && y.entries != [] && Less(x.Smallest(), y.Smallest()));
  }

  /** The disk holds every table of the version under its number. */
  ghost predicate OnDisk(v: Version, tables: map<nat, seq<Entry>>) {
    forall f :: E.InVersion(v, f) ==> f.number in tables && tables[f.number] == f.entries
  }

  /** Opening what was published rebuilds the published version, levels and orders included. */
  lemma {:induction false} OpenRebuildsVersion(v: Version, tables: map<nat, seq<Entry>>)
    requires VersionOk(v) && E.UniqueAcross(v) && OnDisk(v, tables)
    ensures forall p :: p in InOrder(v) ==> p.file.entries != []
    ensures Distributed(Metas(InOrder(v)), tables) && Rebuilt(Metas(InOrder(v)), tables) == v
  {
    hide Sorted, Less, L0Ok, LevelOk, Metas, SortPlaced, PlacedFrom, AtLevel, Chosen, NumbersUp;
    var ps := InOrder(v);
    PlacedDiffer(v, 0);
    SortAscends(PlacedFrom(v, 0));
    forall p | p in ps
      ensures p.level <= LEVELS && p.file in E.Run(v, p.level) && p.file.entries != [] && p.file.number in tables
                && tables[p.file.number] == p.file.entries
    {
      PlacedMembers(v, 0, p);
      assert E.InVersion(v, p.file);
      RunFiles(v, p.level, p.file);
    }
    forall i | 0 <= i < |ps|
      ensures ps[i].file.entries != [] && ps[i].file.number in tables && tables[ps[i].file.number] == ps[i].file.entries
    {
      assert ps[i] in ps;
    }
    var metas := Metas(ps);
    forall l: nat | l <= LEVELS ensures (l == 0 ==> SortDesc(AtLevel(metas, tables, 0)) == v.l0)
      ensures l > 0 ==> FilesOk(AtLevel(metas, tables, l)) && SortFiles(AtLevel(metas, tables, l)) == v.levels[l - 1]
    {
      AtLevelIsChosen(ps, tables, l);
      ChosenMembers(ps, l);
      var fs := AtLevel(metas, tables, l);
      forall f ensures f in fs <==> f in E.Run(v, l) { PlacedMembers(v, 0, Placed(f, l)); }
      if l == 0 { LevelZeroRebuilt(v.l0, fs); } else { LeveledRebuilt(v.levels[l - 1], fs); }
    }
    assert Rebuilt(metas, tables).levels == v.levels;
  }

  lemma {:induction false} RunFiles(v: Version, i: nat, f: File)
    requires VersionOk(v) && i <= LEVELS && f in E.Run(v, i)
    ensures f.entries != []
  {
    hide Sorted, Less;
  }
}
