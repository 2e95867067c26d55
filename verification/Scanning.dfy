/** `DB::Scan`: a merge over every overlapping source that emits the newest visible version per key. */
module Scanning {
  import opened Bytes
  import opened Keys
  import opened Entries
  import opened Versions
  import opened Lsm
  import opened Merging

  predicate InRange(k: Key, begin: Key, end: Key) {
    AtMost(begin, k) && Less(k, end)
  }

  /** The tables of a leveled run that can hold keys of [begin, end). */
  function LevelChildren(level: seq<File>, begin: Key, end: Key): seq<seq<Entry>>
    requires FilesOk(level)
  {
    if level == [] then []
    else if Less(level[0].Largest(), begin) then LevelChildren(level[1..], begin, end)
    else if AtMost(end, level[0].Smallest()) then []
    else [level[0].entries] + LevelChildren(level[1..], begin, end)
  }

  lemma {:induction false} LevelChildrenSorted(level: seq<File>, begin: Key, end: Key)
    requires LevelOk(level)
    ensures AllSorted(LevelChildren(level, begin, end))
    ensures TableElems(LevelChildren(level, begin, end)) <= FileElems(level)
  {
    hide Less, Sorted, RangeBefore, AtMost;
    if level != [] {
      LevelChildrenSorted(level[1..], begin, end);
      assert FileElems(level[1..]) <= FileElems(level) by { assert forall f :: f in level[1..] ==> f in level; }
      TableElemsCons(level[0].entries, LevelChildren(level[1..], begin, end));
      assert forall e :: e in level[0].entries ==> e in FileElems(level) by { assert level[0] in level; }
    }
  }

  /** Nothing in range is skipped, neither on the left nor by stopping early on the right. */
  lemma {:induction false} LevelChildrenCover(level: seq<File>, begin: Key, end: Key, e: Entry)
    requires LevelOk(level) && e in FileElems(level) && InRange(e.key, begin, end)
    ensures e in TableElems(LevelChildren(level, begin, end))
  {
    var i :| 0 <= i < |level| && e in level[i].entries;
    FileRange(level[i], e);
    LessIsStrictTotalOrder();
    if i == 0 {
      TableElemsCons(level[0].entries, LevelChildren(level[1..], begin, end));
    } else {
      assert RangeBefore(level[0], level[i]);
      FileEndsInOrder(level[0]);
      assert level[1..][i - 1] == level[i];
      LevelChildrenCover(level[1..], begin, end, e);
      TableElemsCons(level[0].entries, LevelChildren(level[1..], begin, end));
    }
  }

  /** All sources of the scan, in the order the source lists them. */
  function Children(s: Store, begin: Key, end: Key): seq<seq<Entry>>
    requires Readable(s)
  {
    [s.mem] + (if s.imm.Some? then [s.imm.value] else []) + L0Tables(s.version)
    + LevelsChildren(s.version.levels, begin, end)
  }

  function LevelsChildren(levels: seq<seq<File>>, begin: Key, end: Key): seq<seq<Entry>>
    requires forall i :: 0 <= i < |levels| ==> FilesOk(levels[i])
  {
    if levels == [] then [] else LevelChildren(levels[0], begin, end) + LevelsChildren(levels[1..], begin, end)
  }

  lemma {:induction false} TableElemsConcat(a: seq<seq<Entry>>, b: seq<seq<Entry>>)
    ensures TableElems(a + b) == TableElems(a) + TableElems(b)
    ensures AllSorted(a) && AllSorted(b) ==> AllSorted(a + b)
  {
    hide Sorted;
    forall e ensures e in TableElems(a + b) <==> e in TableElems(a) || e in TableElems(b) {
      if e in TableElems(a) {
        var i :| 0 <= i < |a| && e in a[i];
        assert (a + b)[i] == a[i];
      }
      if e in TableElems(b) {
        var i :| 0 <= i < |b| && e in b[i];
        assert (a + b)[|a| + i] == b[i];
      }
    }
  }

  ghost predicate LevelsOk(levels: seq<seq<File>>) {
    forall i :: 0 <= i < |levels| ==> LevelOk(levels[i])
  }

  lemma {:induction false} LevelsChildrenElems(levels: seq<seq<File>>, begin: Key, end: Key)
    requires LevelsOk(levels)
    ensures AllSorted(LevelsChildren(levels, begin, end))
    ensures forall e :: e in TableElems(LevelsChildren(levels, begin, end))
                        ==> exists i :: 0 <= i < |levels| && e in FileElems(levels[i])
    ensures forall i, e :: 0 <= i < |levels| && e in FileElems(levels[i]) && InRange(e.key, begin, end)
                           ==> e in TableElems(LevelsChildren(levels, begin, end))
  {
    hide UniqueNumbers, RangeBefore, FileOk, Less, FileElems;
    if levels != [] {
      var here, rest := LevelChildren(levels[0], begin, end), LevelsChildren(levels[1..], begin, end);
      LevelsChildrenElems(levels[1..], begin, end);
      LevelChildrenSorted(levels[0], begin, end);
      TableElemsConcat(here, rest);
      forall e | e in TableElems(here + rest) ensures exists i :: 0 <= i < |levels| && e in FileElems(levels[i]) {
        if e in TableElems(rest) {
          var i :| 0 <= i < |levels[1..]| && e in FileElems(levels[1..][i]);
          assert e in FileElems(levels[i + 1]);
        } else {
          assert e in FileElems(levels[0]);
        }
      }
      forall i, e | 0 <= i < |levels| && e in FileElems(levels[i]) && InRange(e.key, begin, end)
        ensures e in TableElems(here + rest)
      {
        if i == 0 {
          LevelChildrenCover(levels[0], begin, end, e);
        } else {
          assert e in FileElems(levels[1..][i - 1]);
        }
      }
    }
  }

  function ImmTables(s: Store): seq<seq<Entry>> {
    if s.imm.Some? then [s.imm.value] else []
  }

  lemma {:induction false} ChildrenParts(s: Store, begin: Key, end: Key)
    requires Readable(s) && Sorted(s.mem) && (s.imm.Some? ==> Sorted(s.imm.value))
    requires AllSorted(LevelsChildren(s.version.levels, begin, end))
    ensures AllSorted(Children(s, begin, end))
    ensures TableElems(Children(s, begin, end))
            == Elems(s.mem) + TableElems(ImmTables(s)) + FileElems(s.version.l0)
               + TableElems(LevelsChildren(s.version.levels, begin, end))
  {
    hide Sorted, FileElems, TableElems, LevelsChildren;
    var v, imm := s.version, ImmTables(s);
    TableElemsConcat([s.mem] + imm + L0Tables(v), LevelsChildren(v.levels, begin, end));
    TableElemsConcat([s.mem] + imm, L0Tables(v));
    TableElemsConcat([s.mem], imm);
    L0TableElems(v.l0, v);
    TableElemsCons(s.mem, []);
    assert [s.mem] + [] == [s.mem];
  }

  lemma {:induction false} ChildrenInStore(s: Store, begin: Key, end: Key, e: Entry)
    requires Shape(s)
    ensures e in TableElems(Children(s, begin, end)) ==> e in All(s)
    ensures e in All(s) && InRange(e.key, begin, end) ==> e in TableElems(Children(s, begin, end))
  {
    hide Recency, Sorted, Less, UniqueNumbers, RangeBefore, FileElems, Newer, Children;
    var v, g := s.version, Groups(s);
    LevelsChildrenElems(v.levels, begin, end);
    ChildrenParts(s, begin, end);
    if e in TableElems(Children(s, begin, end)) {
      if e in TableElems(LevelsChildren(v.levels, begin, end)) {
        var i :| 0 <= i < LEVELS && e in FileElems(v.levels[i]);
        assert e in g[i + 3];
      } else {
        ImmInGroups(s, e, ImmTables(s));
      }
    }
    if e in All(s) && InRange(e.key, begin, end) {
      var i :| 0 <= i < LEVELS + 3 && e in g[i];
      if i >= 3 { assert e in FileElems(v.levels[i - 3]); }
      if i == 1 { assert e in ImmTables(s)[0]; }
    }
  }

  /** The sources hold only stored entries, and all of those in range. */
  lemma {:induction false} ChildrenElems(s: Store, begin: Key, end: Key)
    requires Shape(s)
    ensures AllSorted(Children(s, begin, end)) && TableElems(Children(s, begin, end)) <= All(s)
    ensures forall e :: e in All(s) && InRange(e.key, begin, end) ==> e in TableElems(Children(s, begin, end))
  {
    hide Recency, Less, UniqueNumbers, RangeBefore, Newer, Children, LevelsChildren, TableElems, Union;
    LevelsChildrenElems(s.version.levels, begin, end);
    ChildrenParts(s, begin, end);
    forall e ensures (e in TableElems(Children(s, begin, end)) ==> e in All(s))
                     && (e in All(s) && InRange(e.key, begin, end) ==> e in TableElems(Children(s, begin, end)))
    {
      ChildrenInStore(s, begin, end, e);
    }
  }

  lemma {:induction false} ImmInGroups(s: Store, e: Entry, imm: seq<seq<Entry>>)
    requires |s.version.levels| == LEVELS && imm == (if s.imm.Some? then [s.imm.value] else [])
    requires s.installed ==> s.imm.Some? && s.version.l0 != [] && s.version.l0[0].entries == s.imm.value
    requires e in Elems(s.mem) + TableElems(imm) + FileElems(s.version.l0)
    ensures e in Groups(s)[0] || e in Groups(s)[1] || e in Groups(s)[2]
  {
    if e in TableElems(imm) && s.installed {
      assert s.version.l0[0] in s.version.l0 && e in s.version.l0[0].entries;
    }
  }

  lemma {:induction false} L0TableElems(l0: seq<File>, v: Version)
    requires l0 == v.l0 && FilesOk(l0)
    ensures TableElems(L0Tables(v)) == FileElems(l0) && AllSorted(L0Tables(v))
  {
    hide Sorted;
    var t := L0Tables(v);
    forall e ensures e in TableElems(t) <==> e in FileElems(l0) {
      if e in TableElems(t) {
        var i :| 0 <= i < |t| && e in t[i];
        assert l0[i] in l0;
      }
      if e in FileElems(l0) {
        var i :| 0 <= i < |l0| && e in l0[i].entries;
        assert e in t[i];
      }
    }
    forall i | 0 <= i < |t| ensures Sorted(t[i]) { assert FileOk(l0[i]); }
  }

  /** Seeking drops exactly what sorts before the target. */
  lemma {:induction false} SoughtElems(tables: seq<seq<Entry>>, target: Entry)
    requires AllSorted(tables)
    ensures AllSorted(SoughtIn(tables, target))
    ensures forall e :: e in TableElems(SoughtIn(tables, target)) <==> e in TableElems(tables) && !Before(e, target)
  {
    hide Less;
    var r := SoughtIn(tables, target);
    forall e ensures e in TableElems(r) <==> e in TableElems(tables) && !Before(e, target) {
      if e in TableElems(r) {
        var i :| 0 <= i < |r| && e in r[i];
        var n := SeekIn(tables[i], target);
        var j :| 0 <= j < |r[i]| && r[i][j] == e;
        assert e == tables[i][n + j];
        if Before(e, target) && j > 0 { BeforeTransitive(tables[i][n], e, target); }
      }
      if e in TableElems(tables) && !Before(e, target) {
        var i :| 0 <= i < |tables| && e in tables[i];
        var j :| 0 <= j < |tables[i]| && tables[i][j] == e;
        var n := SeekIn(tables[i], target);
        assert r[i][j - n] == e;
      }
    }
  }

  // ---- emission ---------------------------------------------------------------------------------------

  /** Entry `i` is the first version of its key in the stream that the read point may see. */
  predicate FirstVisible(m: seq<Entry>, r: nat, i: nat)
    requires i < |m|
  {
    m[i].seqno <= r && forall j :: 0 <= j < i && m[j].key == m[i].key ==> m[j].seqno > r
  }

  /** The pairs emitted for `m[..n]`. */
  function Emitted(m: seq<Entry>, r: nat, n: nat): seq<(Key, Bytes)>
    requires n <= |m|
  {
    if n == 0 then []
    else
      Emitted(m, r, n - 1)
      + (if FirstVisible(m, r, n - 1) && m[n - 1].slot.Put? then [(m[n - 1].key, m[n - 1].slot.value)] else [])
  }

  lemma {:induction false} EmittedMembers(m: seq<Entry>, r: nat, n: nat)
    requires n <= |m|
    ensures forall p :: p in Emitted(m, r, n) <==>
              exists i :: 0 <= i < n && FirstVisible(m, r, i) && m[i].slot == Put(p.1) && m[i].key == p.0
  {
    if n > 0 { EmittedMembers(m, r, n - 1); }
  }

  predicate KeysAscend(out: seq<(Key, Bytes)>) {
    forall i, j :: 0 <= i < j < |out| ==> Less(out[i].0, out[j].0)
  }

  /** Everything emitted so far has a smaller key than a newly emitted entry. */
  lemma {:induction false} EmittedBefore(m: seq<Entry>, r: nat, n: nat, p: (Key, Bytes))
    requires n < |m| && WeaklySorted(m) && FirstVisible(m, r, n) && p in Emitted(m, r, n)
    ensures Less(p.0, m[n].key)
  {
    EmittedMembers(m, r, n);
    var j :| 0 <= j < n && FirstVisible(m, r, j) && m[j].slot == Put(p.1) && m[j].key == p.0;
    LessTotal(m[j].key, m[n].key);
  }

  /** Keys come out in strictly increasing order, so none repeats. */
  lemma {:induction false} EmittedInOrder(m: seq<Entry>, r: nat, n: nat)
    requires n <= |m| && WeaklySorted(m)
    ensures KeysAscend(Emitted(m, r, n))
  {
    hide WeaklySorted, FirstVisible;
    if n > 0 {
      EmittedInOrder(m, r, n - 1);
      var out, out' := Emitted(m, r, n - 1), Emitted(m, r, n);
      forall i, j | 0 <= i < j < |out'| ensures Less(out'[i].0, out'[j].0) {
        assert out'[i] == out[i] && out[i] in out;
        if j < |out| {
          assert out'[j] == out[j];
        } else {
          EmittedBefore(m, r, n - 1, out[i]);
        }
      }
    }
  }

  /** Over a weakly sorted stream the first visible version is the newest one. */
  lemma {:induction false} FirstVisibleIsTop(m: seq<Entry>, r: nat, i: nat)
    requires WeaklySorted(m) && i < |m| && FirstVisible(m, r, i)
    ensures IsTop(Elems(m), m[i].key, r, m[i])
  {
    forall x | x in m && Visible(x, m[i].key, r) ensures x.seqno <= m[i].seqno {
      var j :| 0 <= j < |m| && m[j] == x;
    }
  }

  lemma {:induction false} TopHasFirstVisible(m: seq<Entry>, k: Key, r: nat, e: Entry) returns (i: nat)
    requires WeaklySorted(m) && Distinct(Elems(m)) && IsTop(Elems(m), k, r, e)
    ensures i < |m| && FirstVisible(m, r, i) && m[i] == e
  {
    var p :| 0 <= p < |m| && m[p] == e;
    i := FirstWith(m, k, r, p);
    FirstVisibleIsTop(m, r, i);
  }

  lemma {:induction false} FirstWith(m: seq<Entry>, k: Key, r: nat, p: nat) returns (i: nat)
    requires p < |m| && Visible(m[p], k, r)
    ensures i < |m| && Visible(m[i], k, r) && FirstVisible(m, r, i)
  {
    if FirstVisible(m, r, p) {
      i := p;
    } else {
      var j :| 0 <= j < p && m[j].key == m[p].key && m[j].seqno <= r;
      i := FirstWith(m, k, r, j);
    }
  }

  // ---- the scan -----------------------------------------------------------------------------------------

  /** Collects the overlapping tables of one leveled run. */
  method LevelSources(level: seq<File>, begin: Key, end: Key) returns (children: seq<seq<Entry>>)
    requires FilesOk(level)
    ensures children == LevelChildren(level, begin, end)
  {
    hide Less;
    children := [];
    var i := 0;
    while i < |level|
      invariant i <= |level|
      invariant children + LevelChildren(level[i..], begin, end) == LevelChildren(level, begin, end)
    {
      assert level[i..][1..] == level[i + 1..];
      if Less(level[i].Largest(), begin) {
        i := i + 1;
        continue;
      }
      if AtMost(end, level[i].Smallest()) {
        break;
      }
      children := children + [level[i].entries];
      i := i + 1;
    }
    assert level[|level|..] == [];
  }

  method Sources(s: Store, begin: Key, end: Key) returns (children: seq<seq<Entry>>)
    requires Readable(s)
    ensures children == Children(s, begin, end)
  {
    children := [s.mem];
    if s.imm.Some? {
      children := children + [s.imm.value];
    }
    children := children + seq(|s.version.l0|, i requires 0 <= i < |s.version.l0| => s.version.l0[i].entries);
    var levels := s.version.levels;
    for i := 0 to |levels|
      invariant children + LevelsChildren(levels[i..], begin, end) == Children(s, begin, end)
    {
      var more := LevelSources(levels[i], begin, end);
      children := children + more;
      assert levels[i..][1..] == levels[i + 1..];
    }
    assert levels[|levels|..] == [];
  }

  /** The stream a scan walks. */
  function Stream(s: Store, begin: Key, end: Key, r: nat): seq<Entry>
    requires Readable(s)
  {
    Merge(SoughtIn(Children(s, begin, end), Entry(begin, r, Tombstone)))
  }

  lemma {:induction false} ShapeIsReadable(s: Store)
    requires Shape(s)
    ensures Readable(s) && |s.version.levels| == LEVELS
  {
  }

  /** The stream is sorted, and at the read point it agrees with the store on every key in range. */
  lemma {:induction false} StreamAgrees(s: Store, begin: Key, end: Key, r: nat)
    requires Shape(s)
    ensures WeaklySorted(Stream(s, begin, end, r)) && Distinct(Elems(Stream(s, begin, end, r)))
    ensures forall e :: e in Stream(s, begin, end, r) ==> AtMost(begin, e.key) && e in All(s)
    ensures forall e :: e in All(s) && InRange(e.key, begin, end) && e.seqno <= r ==> e in Stream(s, begin, end, r)
  {
    hide Shape, Merge, TableElems, Children, Recency;
    ShapeIsReadable(s);
    var target := Entry(begin, r, Tombstone);
    var tables := Children(s, begin, end);
    ChildrenElems(s, begin, end);
    SoughtElems(tables, target);
    MergeIsSorted(SoughtIn(tables, target));
    MergeElems(SoughtIn(tables, target));
    AllIsDistinct(s);
    LessIrreflexive(begin);
  }

  lemma {:induction false} EmittedIsTop(s: Store, begin: Key, end: Key, r: nat, i: nat)
    requires Shape(s) && i < |Stream(s, begin, end, r)|
    requires FirstVisible(Stream(s, begin, end, r), r, i) && Less(Stream(s, begin, end, r)[i].key, end)
    ensures var e := Stream(s, begin, end, r)[i]; IsTop(All(s), e.key, r, e) && InRange(e.key, begin, end)
  {
    hide Shape, Stream, WeaklySorted, FirstVisible, Less;
    ShapeIsReadable(s);
    var m := Stream(s, begin, end, r);
    StreamAgrees(s, begin, end, r);
    FirstVisibleIsTop(m, r, i);
  }

  lemma {:induction false} TopIsEmitted(s: Store, begin: Key, end: Key, r: nat, e: Entry) returns (i: nat)
    requires Shape(s) && IsTop(All(s), e.key, r, e) && InRange(e.key, begin, end)
    ensures i < |Stream(s, begin, end, r)| && FirstVisible(Stream(s, begin, end, r), r, i)
    ensures Stream(s, begin, end, r)[i] == e
  {
    hide Shape, Stream, WeaklySorted, FirstVisible, Less;
    ShapeIsReadable(s);
    var m := Stream(s, begin, end, r);
    StreamAgrees(s, begin, end, r);
    assert IsTop(Elems(m), e.key, r, e);
    i := TopHasFirstVisible(m, e.key, r, e);
  }

  lemma {:induction false} GetIsTop(s: Store, k: Key, r: nat, e: Entry, v: Bytes)
    requires Shape(s)
    ensures IsTop(All(s), k, r, e) && e.slot == Put(v) ==> Get(s, k, r) == Some(v)
  {
    hide Shape, Lookup;
    ShapeIsReadable(s);
    LookupIsTop(s, k, r);
    AllIsDistinct(s);
  }

  lemma {:induction false} EmittedIsWhatGetFinds(s: Store, begin: Key, end: Key, r: nat, n: nat, k: Key, v: Bytes)
    requires Shape(s) && n <= |Stream(s, begin, end, r)|
    requires forall i :: 0 <= i < n ==> Less(Stream(s, begin, end, r)[i].key, end)
    requires forall i :: n <= i < |Stream(s, begin, end, r)| ==> AtMost(end, Stream(s, begin, end, r)[i].key)
    ensures (k, v) in Emitted(Stream(s, begin, end, r), r, n) <==> InRange(k, begin, end) && Get(s, k, r) == Some(v)
  {
    hide Shape, Stream, WeaklySorted, FirstVisible, Lookup, IsTop, Less;
    ShapeIsReadable(s);
    var m := Stream(s, begin, end, r);
    EmittedMembers(m, r, n);
    if (k, v) in Emitted(m, r, n) {
      var i :| 0 <= i < n && FirstVisible(m, r, i) && m[i].slot == Put(v) && m[i].key == k;
      EmittedIsTop(s, begin, end, r, i);
      GetIsTop(s, k, r, m[i], v);
    }
    if InRange(k, begin, end) && Get(s, k, r) == Some(v) {
      LookupIsTop(s, k, r);
      var e := Lookup(s.mem, s.imm, s.version, k, r).value;
      TopHasKey(s, k, r, e);
      var i := TopIsEmitted(s, begin, end, r, e);
      assert i < n;
    }
  }

  lemma {:induction false} TopHasKey(s: Store, k: Key, r: nat, e: Entry)
    requires |s.version.levels| == LEVELS && IsTop(All(s), k, r, e)
    ensures e.key == k
  {
  }

  /**
   * Scan agrees with Get: it emits, in key order and once each, exactly the pairs in [begin, end)
   * that a Get at the same read point finds.
   */
  method Scan(s: Store, begin: Key, end: Key, r: nat) returns (out: seq<(Key, Bytes)>)
    requires Shape(s)
    ensures KeysAscend(out)
    ensures forall k, v :: (k, v) in out <==> !Less(k, begin) && Less(k, end) && Get(s, k, r) == Some(v)
  {
    hide Recency, L0Ok, Sorted, Less, Merge, Get, FirstVisible, Children, Exhausted, IsSmallest, WeaklySorted;
    ShapeIsReadable(s);
    var children := Sources(s, begin, end);
    var iter := new MergingIterator(children);
    iter.Seek(Entry(begin, r, Tombstone));
    ghost var m := Stream(s, begin, end, r);
    StreamAgrees(s, begin, end, r);
    ghost var n := 0;
    var currentUser: Key := [];
    var hasUser, currentEmitted := false, false;
    out := [];
    while iter.Valid()
      invariant fresh(iter) && iter.StandsAt(m, n)
      invariant forall i :: 0 <= i < n ==> Less(m[i].key, end)
      invariant hasUser == (n > 0) && (hasUser ==> currentUser == m[n - 1].key)
      invariant hasUser ==> currentEmitted == (exists j :: 0 <= j < n && m[j].key == currentUser && m[j].seqno <= r)
      invariant out == Emitted(m, r, n)
      decreases |m| - n
    {
      var e := iter.Current();
      if !Less(e.key, end) {
        break;
      }
      hasUser, currentUser, currentEmitted, out := Emit(e, r, hasUser, currentUser, currentEmitted, out, m, n);
      iter.Next(m, n);
      n := n + 1;
    }
    EmittedInOrder(m, r, n);
    RestIsPastEnd(m, n, end);
    forall k, v ensures (k, v) in out <==> InRange(k, begin, end) && Get(s, k, r) == Some(v) {
      EmittedIsWhatGetFinds(s, begin, end, r, n, k, v);
    }
  }

  lemma {:induction false} RestIsPastEnd(m: seq<Entry>, n: nat, end: Key)
    requires WeaklySorted(m) && n <= |m| && (n < |m| ==> AtMost(end, m[n].key))
    ensures forall i :: n <= i < |m| ==> AtMost(end, m[i].key)
  {
    LessIsStrictTotalOrder();
  }

  /** The loop body: emit the first visible version of a key, skip the rest of its versions. */
  method Emit(
    e: Entry, r: nat, hasUser: bool, currentUser: Key, currentEmitted: bool, out: seq<(Key, Bytes)>,
    ghost m: seq<Entry>, ghost n: nat)
    returns (hasUser': bool, currentUser': Key, currentEmitted': bool, out': seq<(Key, Bytes)>)
    requires WeaklySorted(m) && n < |m| && e == m[n] && out == Emitted(m, r, n)
    requires hasUser == (n > 0) && (hasUser ==> currentUser == m[n - 1].key)
    requires hasUser ==> currentEmitted == (exists j :: 0 <= j < n && m[j].key == currentUser && m[j].seqno <= r)
    ensures hasUser' && currentUser' == e.key && out' == Emitted(m, r, n + 1)
    ensures currentEmitted' == (exists j :: 0 <= j < n + 1 && m[j].key == currentUser' && m[j].seqno <= r)
  {
    hide Less;
    hasUser', currentUser', currentEmitted', out' := true, e.key, currentEmitted, out;
    if !hasUser || e.key != currentUser {
      currentEmitted' := false;
      FreshKey(m, n);
    }
    assert currentEmitted' == (exists j :: 0 <= j < n && m[j].key == e.key && m[j].seqno <= r);
    if !currentEmitted' && e.seqno <= r {
      currentEmitted' := true;
      if e.slot.Put? {
        out' := out' + [(e.key, e.slot.value)];
      }
    }
  }

  lemma {:induction false} FreshKey(m: seq<Entry>, n: nat)
    requires WeaklySorted(m) && n < |m| && (n > 0 ==> m[n].key != m[n - 1].key)
    ensures forall j :: 0 <= j < n ==> m[j].key != m[n].key
  {
    LessIsStrictTotalOrder();
  }
}
