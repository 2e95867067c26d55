/** Sorted tables, the leveled arrangement of them, and the point-lookup path through it. */
module Versions {
  import opened Bytes
  import opened Keys
  import opened Entries

  /** One immutable SST: its number, its entries in internal-key order, its size on disk. */
  datatype File = File(number: nat, entries: seq<Entry>, size: nat) {
    function Smallest(): Key
      requires entries != []
    {
      entries[0].key
    }

    function Largest(): Key
      requires entries != []
    {
      entries[|entries| - 1].key
    }
  }

  /** Levels L1..L6 are `levels[0..6]`; `l0` holds the newest file first. */
  datatype Version = Version(l0: seq<File>, levels: seq<seq<File>>)

  /** Number of leveled runs below L0: `kMaxLevels - 1`. */
  const LEVELS: nat := 6

  predicate FileOk(f: File) {
    f.entries != [] && Sorted(f.entries)
  }

  predicate FilesOk(fs: seq<File>) {
    forall i :: 0 <= i < |fs| ==> FileOk(fs[i])
  }

  predicate UniqueNumbers(fs: seq<File>) {
    forall i, j :: 0 <= i < j < |fs| ==> fs[i].number != fs[j].number
  }

  predicate RangeBefore(f: File, g: File)
    requires FileOk(f) && FileOk(g)
  {
    Less(f.Largest(), g.Smallest())
  }

  /** A leveled run: files in key order with pairwise disjoint key ranges. */
  predicate LevelOk(fs: seq<File>) {
    && FilesOk(fs)
    && UniqueNumbers(fs)
    && forall i, j :: 0 <= i < j < |fs| ==> RangeBefore(fs[i], fs[j])
  }

  /** Newer files first: descending numbers, and every version newer than those of later files. */
  ghost predicate L0Ok(fs: seq<File>) {
    && FilesOk(fs)
    && (forall i, j :: 0 <= i < j < |fs| ==> fs[i].number > fs[j].number)
    && forall i, j :: 0 <= i < j < |fs| ==> Newer(Elems(fs[i].entries), Elems(fs[j].entries))
  }

  ghost predicate VersionOk(v: Version) {
    && L0Ok(v.l0)
    && |v.levels| == LEVELS
    && forall i :: 0 <= i < LEVELS ==> LevelOk(v.levels[i])
  }

  ghost function FileElems(fs: seq<File>): (s: set<Entry>)
    ensures forall e :: e in s <==> exists f :: f in fs && e in f.entries
  {
    set f, e | f in fs && e in f.entries :: e
  }

  /** Every key of a file lies within its recorded range. */
  lemma {:induction false} FileRange(f: File, e: Entry)
    requires FileOk(f) && e in f.entries
    ensures AtMost(f.Smallest(), e.key) && AtMost(e.key, f.Largest())
  {
    var i :| 0 <= i < |f.entries| && f.entries[i] == e;
    LessIsStrictTotalOrder();
    assert i > 0 ==> Before(f.entries[0], f.entries[i]);
    assert i < |f.entries| - 1 ==> Before(f.entries[i], f.entries[|f.entries| - 1]);
  }

  /** `std::upper_bound` over the smallest keys: how many files start at or before `k`. */
  function UpperBound(level: seq<File>, k: Key): (n: nat)
    requires FilesOk(level)
    ensures n <= |level|
    ensures n > 0 ==> AtMost(level[n - 1].Smallest(), k)
    ensures forall j :: n <= j < |level| ==> Less(k, level[j].Smallest())
  {
    if level == [] then 0
    else if Less(k, level[|level| - 1].Smallest()) then UpperBound(level[..|level| - 1], k)
    else |level|
  }

  /** The only table of a leveled run that a lookup of `k` opens; empty when `k` falls in a gap. */
  function ProbedTable(level: seq<File>, k: Key): seq<Entry>
    requires FilesOk(level)
  {
    var n := UpperBound(level, k);
    if n == 0 || Less(level[n - 1].Largest(), k) then [] else level[n - 1].entries
  }

  lemma {:induction false} ProbedFileHoldsKey(level: seq<File>, k: Key, i: nat, e: Entry)
    requires LevelOk(level) && i < |level| && e in level[i].entries && e.key == k
    ensures var n := UpperBound(level, k); i == n - 1 && !Less(level[i].Largest(), k)
  {
    var n := UpperBound(level, k);
    FileRange(level[i], e);
    if i < n - 1 {
      assert RangeBefore(level[i], level[n - 1]);
      LessIsStrictTotalOrder();
    }
  }

  /** The probe inspects the only file of the run that can hold the key. */
  lemma {:induction false} ProbeFindsTheOnlyFile(level: seq<File>, k: Key)
    requires LevelOk(level)
    ensures forall e :: e in FileElems(level) && e.key == k ==> e in ProbedTable(level, k)
    ensures forall e :: e in ProbedTable(level, k) ==> e in FileElems(level)
  {
    forall e | e in FileElems(level) && e.key == k ensures e in ProbedTable(level, k) {
      var i :| 0 <= i < |level| && e in level[i].entries;
      ProbedFileHoldsKey(level, k, i, e);
    }
  }

  /** Files of a run never share a user key, so all versions of a key in it lie in one file. */
  lemma {:induction false} LevelFilesShareNoKey(level: seq<File>, i: nat, j: nat)
    requires LevelOk(level) && i < |level| && j < |level| && i != j
    ensures NoSharedKey(Elems(level[i].entries), Elems(level[j].entries))
  {
    forall x, y | x in level[i].entries && y in level[j].entries ensures x.key != y.key {
      FileRange(level[i], x);
      FileRange(level[j], y);
      LessIsStrictTotalOrder();
      if i < j { assert RangeBefore(level[i], level[j]); } else { assert RangeBefore(level[j], level[i]); }
    }
  }

  lemma {:induction false} FileEndsInOrder(f: File)
    requires FileOk(f)
    ensures AtMost(f.Smallest(), f.Largest())
  {
    assert f.entries[0] in f.entries;
    FileRange(f, f.entries[0]);
  }

  /** A leveled run is in order of its smallest keys. */
  lemma {:induction false} RunAscends(level: seq<File>, i: nat, j: nat)
    requires LevelOk(level) && i < j < |level|
    ensures Less(level[i].Smallest(), level[j].Smallest())
  {
    hide Less;
    FileRange(level[i], level[i].entries[0]);
    FileRange(level[i], level[i].entries[|level[i].entries| - 1]);
    assert RangeBefore(level[i], level[j]);
    LessIsStrictTotalOrder();
  }

  lemma {:induction false} LevelIsDistinct(level: seq<File>)
    requires LevelOk(level)
    ensures Distinct(FileElems(level))
  {
    forall x, y | x in FileElems(level) && y in FileElems(level) && x.key == y.key && x.seqno == y.seqno
      ensures x == y
    {
      var i :| 0 <= i < |level| && x in level[i].entries;
      var j :| 0 <= j < |level| && y in level[j].entries;
      if i != j { LevelFilesShareNoKey(level, i, j); }
      SortedIsDistinct(level[i].entries);
    }
  }

  lemma {:induction false} L0IsDistinct(l0: seq<File>)
    requires L0Ok(l0)
    ensures Distinct(FileElems(l0))
  {
    forall x, y | x in FileElems(l0) && y in FileElems(l0) && x.key == y.key && x.seqno == y.seqno
      ensures x == y
    {
      var i :| 0 <= i < |l0| && x in l0[i].entries;
      var j :| 0 <= j < |l0| && y in l0[j].entries;
      assert i < j ==> Newer(Elems(l0[i].entries), Elems(l0[j].entries));
      assert j < i ==> Newer(Elems(l0[j].entries), Elems(l0[i].entries));
      SortedIsDistinct(l0[i].entries);
    }
  }

  /** The first table on the path that has a visible version decides. */
  function FirstHit(tables: seq<seq<Entry>>, k: Key, r: nat): Option<Entry> {
    if tables == [] then None
    else
      var o := Newest(tables[0], k, r);
      if o.Some? then o else FirstHit(tables[1..], k, r)
  }

  ghost function TableElems(tables: seq<seq<Entry>>): (s: set<Entry>)
    ensures forall e :: e in s <==> exists i :: 0 <= i < |tables| && e in tables[i]
  {
    set t, e | t in tables && e in t :: e
  }

  /** As far as `k` is concerned, earlier tables hold the newer versions. */
  ghost predicate NewerFirst(tables: seq<seq<Entry>>, k: Key) {
    forall i, j :: 0 <= i < j < |tables| ==> NoOlder(tables[i], tables[j], k)
  }

  ghost predicate NoOlder(a: seq<Entry>, b: seq<Entry>, k: Key) {
    forall x, y :: x in a && y in b && x.key == k && y.key == k ==> x.seqno >= y.seqno
  }

  /** With newer tables first, the first hit is the newest visible version of all. */
  lemma {:induction false} FirstHitIsTop(tables: seq<seq<Entry>>, k: Key, r: nat)
    requires NewerFirst(tables, k)
    ensures var o := FirstHit(tables, k, r);
            if o.None? then NothingVisible(TableElems(tables), k, r) else IsTop(TableElems(tables), k, r, o.value)
  {
    if tables != [] {
      var rest := tables[1..];
      forall i, j | 0 <= i < j < |rest| ensures NoOlder(rest[i], rest[j], k) {
        assert rest[i] == tables[i + 1] && rest[j] == tables[j + 1];
      }
      FirstHitIsTop(rest, k, r);
      assert tables == [tables[0]] + rest;
      TableElemsCons(tables[0], rest);
      var o := Newest(tables[0], k, r);
      if o.Some? {
        forall x | x in TableElems(rest) && Visible(x, k, r) ensures x.seqno <= o.value.seqno {
          var j :| 0 <= j < |rest| && x in rest[j];
          assert NoOlder(tables[0], tables[j + 1], k);
        }
      }
    }
  }

  lemma {:induction false} TableElemsCons(t: seq<Entry>, rest: seq<seq<Entry>>)
    ensures TableElems([t] + rest) == Elems(t) + TableElems(rest)
  {
    forall e ensures e in TableElems([t] + rest) <==> e in Elems(t) + TableElems(rest) {
      if e in TableElems(rest) {
        var i :| 0 <= i < |rest| && e in rest[i];
        assert ([t] + rest)[i + 1] == rest[i];
      }
      if e in t { assert ([t] + rest)[0] == t; }
    }
  }

  /** The tables a lookup of `k` visits, in order. */
  function Path(mem: seq<Entry>, imm: Option<seq<Entry>>, v: Version, k: Key): seq<seq<Entry>>
    requires FilesOk(v.l0) && forall i :: 0 <= i < |v.levels| ==> FilesOk(v.levels[i])
  {
    [mem] + (if imm.Some? then [imm.value] else [])
    + seq(|v.l0|, i requires 0 <= i < |v.l0| => v.l0[i].entries)
    + seq(|v.levels|, i requires 0 <= i < |v.levels| => ProbedTable(v.levels[i], k))
  }

  /** `DB::LookupIn`. */
  function Lookup(mem: seq<Entry>, imm: Option<seq<Entry>>, v: Version, k: Key, r: nat): Option<Entry>
    requires FilesOk(v.l0) && forall i :: 0 <= i < |v.levels| ==> FilesOk(v.levels[i])
  {
    FirstHit(Path(mem, imm, v, k), k, r)
  }
}
