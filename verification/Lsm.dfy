/** The in-memory and leveled store as a state machine over raw value slots, and what it refines. */
module Lsm {
  import opened Bytes
  import opened Keys
  import opened Entries
  import opened Versions

  /**
   * `installed` is the window between publishing the flushed table and dropping the immutable
   * memtable: both then hold the same entries. `snapshots` are the live read points.
   */
  datatype Store = Store(
    mem: seq<Entry>, imm: Option<seq<Entry>>, installed: bool, version: Version,
    nextSeq: nat, snapshots: seq<nat>)

  /** The specification: a map, and one frozen copy of it per live snapshot. */
  datatype View = View(now: map<Key, Bytes>, frozen: seq<map<Key, Bytes>>)

  function Find(m: map<Key, Bytes>, k: Key): Option<Bytes> {
    if k in m then Some(m[k]) else None
  }

  // ---- layering -------------------------------------------------------------------------------

  /** Entries of the immutable memtable that no published table holds yet. */
  function Pending(s: Store): seq<Entry> {
    if s.imm.Some? && !s.installed then s.imm.value else []
  }

  /** The layers from newest to oldest: memtable, immutable memtable, L0, L1..L6. */
  ghost function Groups(s: Store): (g: seq<set<Entry>>)
    requires |s.version.levels| == LEVELS
    ensures |g| == LEVELS + 3
    ensures g[0] == Elems(s.mem) && g[1] == Elems(Pending(s)) && g[2] == FileElems(s.version.l0)
    ensures forall i :: 3 <= i < LEVELS + 3 ==> g[i] == FileElems(s.version.levels[i - 3])
  {
    [Elems(s.mem), Elems(Pending(s)), FileElems(s.version.l0)]
    + seq(LEVELS, i requires 0 <= i < LEVELS => FileElems(s.version.levels[i]))
  }

  ghost function Union(g: seq<set<Entry>>): (s: set<Entry>)
    ensures forall e :: e in s <==> exists i :: 0 <= i < |g| && e in g[i]
  {
    set x, e | x in g && e in x :: e
  }

  ghost function All(s: Store): set<Entry>
    requires |s.version.levels| == LEVELS
  {
    Union(Groups(s))
  }

  ghost predicate Recency(g: seq<set<Entry>>) {
    forall i, j :: 0 <= i < j < |g| ==> Newer(g[i], g[j])
  }

  ghost predicate Shape(s: Store) {
    && VersionOk(s.version)
    && Sorted(s.mem)
    && (s.imm.Some? ==> s.imm.value != [] && Sorted(s.imm.value))
    && (s.installed ==> s.imm.Some? && s.version.l0 != [] && s.version.l0[0].entries == s.imm.value)
    && Recency(Groups(s))
  }

  ghost predicate Bounded(s: Store)
    requires |s.version.levels| == LEVELS
  {
    && 1 <= s.nextSeq <= SEQ_LIMIT
    && (forall e :: e in All(s) ==> e.seqno < s.nextSeq)
    && forall i :: 0 <= i < |s.snapshots| ==> s.snapshots[i] < s.nextSeq
  }

  ghost predicate ReadsAs(all: set<Entry>, r: nat, m: map<Key, Bytes>) {
    forall k :: Reads(all, k, r, Find(m, k))
  }

  ghost predicate PointsReadAs(all: set<Entry>, points: seq<nat>, maps: seq<map<Key, Bytes>>) {
    && |points| == |maps|
    && forall i :: 0 <= i < |points| ==> ReadsAs(all, points[i], maps[i])
  }

  /** Every live read point sees exactly the map it should. */
  ghost predicate Represents(s: Store, w: View)
    requires |s.version.levels| == LEVELS
  {
    ReadsAs(All(s), MAX_SEQ, w.now) && PointsReadAs(All(s), s.snapshots, w.frozen)
  }

  ghost predicate Inv(s: Store, w: View) {
    Shape(s) && Bounded(s) && Represents(s, w)
  }

  lemma {:induction false} AllIsDistinct(s: Store)
    requires Shape(s)
    ensures Distinct(All(s))
  {
    var g := Groups(s);
    forall x, y | x in All(s) && y in All(s) && x.key == y.key && x.seqno == y.seqno ensures x == y {
      var i :| 0 <= i < |g| && x in g[i];
      var j :| 0 <= j < |g| && y in g[j];
      assert i < j ==> Newer(g[i], g[j]);
      assert j < i ==> Newer(g[j], g[i]);
      GroupIsDistinct(s, i);
    }
  }

  lemma {:induction false} GroupIsDistinct(s: Store, i: nat)
    requires Shape(s) && i < LEVELS + 3
    ensures Distinct(Groups(s)[i])
  {
    if i == 0 { SortedIsDistinct(s.mem); }
    else if i == 1 { SortedIsDistinct(Pending(s)); }
    else if i == 2 { L0IsDistinct(s.version.l0); }
    else { LevelIsDistinct(s.version.levels[i - 3]); }
  }

  // ---- reading --------------------------------------------------------------------------------

  predicate Readable(s: Store) {
    FilesOk(s.version.l0) && forall i :: 0 <= i < |s.version.levels| ==> FilesOk(s.version.levels[i])
  }

  /** `DB::Get` up to pointer resolution: a deleted key and a missing one are both not found. */
  function Get(s: Store, k: Key, r: nat): Option<Bytes>
    requires Readable(s)
  {
    var o := Lookup(s.mem, s.imm, s.version, k, r);
    if o.None? then None else Answer(o.value.slot)
  }

  lemma {:induction false} FirstHitConcat(a: seq<seq<Entry>>, b: seq<seq<Entry>>, k: Key, r: nat)
    ensures FirstHit(a + b, k, r) == if FirstHit(a, k, r).Some? then FirstHit(a, k, r) else FirstHit(b, k, r)
  {
    if a == [] {
      assert a + b == b;
    } else {
      FirstHitConcat(a[1..], b, k, r);
      assert (a + b)[1..] == a[1..] + b;
    }
  }

  function L0Tables(v: Version): (t: seq<seq<Entry>>) {
    seq(|v.l0|, i requires 0 <= i < |v.l0| => v.l0[i].entries)
  }

  function LevelTables(v: Version, k: Key): seq<seq<Entry>>
    requires forall i :: 0 <= i < |v.levels| ==> FilesOk(v.levels[i])
  {
    seq(|v.levels|, i requires 0 <= i < |v.levels| => ProbedTable(v.levels[i], k))
  }

  /** The lookup path with the immutable memtable left out once its table is installed. */
  function LayerPath(s: Store, k: Key): seq<seq<Entry>>
    requires Readable(s)
  {
    [s.mem, Pending(s)] + L0Tables(s.version) + LevelTables(s.version, k)
  }

  lemma {:induction false} PathSkipsInstalled(s: Store, k: Key, r: nat)
    requires Readable(s)
    requires s.installed ==> s.imm.Some? && s.version.l0 != [] && s.version.l0[0].entries == s.imm.value
    ensures Lookup(s.mem, s.imm, s.version, k, r) == FirstHit(LayerPath(s, k), k, r)
  {
    hide Newest, ProbedTable;
    var below := L0Tables(s.version) + LevelTables(s.version, k);
    var i := if s.imm.Some? then [s.imm.value] else [];
    assert Path(s.mem, s.imm, s.version, k) == [s.mem] + (i + below);
    assert LayerPath(s, k) == [s.mem] + ([Pending(s)] + below);
    FirstHitConcat(i, below, k, r);
    FirstHitConcat([Pending(s)], below, k, r);
    assert s.installed ==> below[0] == s.imm.value;
    assert FirstHit(i + below, k, r) == FirstHit([Pending(s)] + below, k, r);
    FirstHitConcat([s.mem], i + below, k, r);
    FirstHitConcat([s.mem], [Pending(s)] + below, k, r);
  }

  /** Which layer a table of the path belongs to. */
  ghost function LayerOf(s: Store, p: nat): nat {
    if p < 2 then p else if p < 2 + |s.version.l0| then 2 else p - |s.version.l0| + 1
  }

  lemma {:induction false} PathTableInLayer(s: Store, k: Key, p: nat)
    requires Shape(s) && p < |LayerPath(s, k)|
    ensures 0 <= LayerOf(s, p) < LEVELS + 3
    ensures Elems(LayerPath(s, k)[p]) <= Groups(s)[LayerOf(s, p)]
  {
    hide Sorted, Recency, ProbedTable;
    PathAt(s, k);
    var t := LayerPath(s, k)[p];
    if 2 <= p < 2 + |s.version.l0| {
      assert t == s.version.l0[p - 2].entries;
    } else if p >= 2 + |s.version.l0| {
      var i := p - 2 - |s.version.l0|;
      assert t == ProbedTable(s.version.levels[i], k);
      ProbeFindsTheOnlyFile(s.version.levels[i], k);
    }
  }

  lemma {:induction false} PathIsNewerFirst(s: Store, k: Key)
    requires Shape(s)
    ensures NewerFirst(LayerPath(s, k), k)
  {
    var path := LayerPath(s, k);
    forall p, q | 0 <= p < q < |path| ensures NoOlder(path[p], path[q], k) {
      PathTableInLayer(s, k, p);
      PathTableInLayer(s, k, q);
      if LayerOf(s, p) == LayerOf(s, q) {
        assert Newer(Elems(s.version.l0[p - 2].entries), Elems(s.version.l0[q - 2].entries));
        assert path[p] == s.version.l0[p - 2].entries && path[q] == s.version.l0[q - 2].entries;
      } else {
        assert Newer(Groups(s)[LayerOf(s, p)], Groups(s)[LayerOf(s, q)]);
      }
    }
  }

  lemma {:induction false} PathAt(s: Store, k: Key)
    requires Readable(s)
    ensures |LayerPath(s, k)| == 2 + |s.version.l0| + |s.version.levels|
    ensures forall j :: 0 <= j < |s.version.l0| ==> LayerPath(s, k)[2 + j] == s.version.l0[j].entries
    ensures forall i :: 0 <= i < |s.version.levels|
                        ==> LayerPath(s, k)[2 + |s.version.l0| + i] == ProbedTable(s.version.levels[i], k)
  {
  }

  /** Every layer that can hold `k` is on the path. */
  lemma {:induction false} PathCoversLayer(s: Store, k: Key, i: nat, e: Entry) returns (p: nat)
    requires Shape(s) && i < LEVELS + 3
    requires e in Groups(s)[i] && e.key == k
    ensures p < |LayerPath(s, k)| && e in LayerPath(s, k)[p]
  {
    PathAt(s, k);
    if i < 2 {
      p := i;
    } else if i == 2 {
      var j :| 0 <= j < |s.version.l0| && e in s.version.l0[j].entries;
      p := 2 + j;
    } else {
      ProbeFindsTheOnlyFile(s.version.levels[i - 3], k);
      p := 2 + |s.version.l0| + (i - 3);
    }
  }

  lemma {:induction false} PathCoversKey(s: Store, k: Key, e: Entry)
    requires Shape(s)
    requires e in All(s) && e.key == k
    ensures e in TableElems(LayerPath(s, k))
  {
    var i :| 0 <= i < LEVELS + 3 && e in Groups(s)[i];
    var p := PathCoversLayer(s, k, i, e);
  }

  /** The lookup path returns the newest visible version among everything stored. */
  lemma {:induction false} LookupIsTop(s: Store, k: Key, r: nat)
    requires Shape(s)
    ensures var o := Lookup(s.mem, s.imm, s.version, k, r);
            if o.None? then NothingVisible(All(s), k, r) else IsTop(All(s), k, r, o.value)
  {
    var path := LayerPath(s, k);
    PathSkipsInstalled(s, k, r);
    PathIsNewerFirst(s, k);
    FirstHitIsTop(path, k, r);
    forall e | e in All(s) && e.key == k ensures e in TableElems(path) { PathCoversKey(s, k, e); }
    forall e | e in TableElems(path) ensures e in All(s) {
      var p :| 0 <= p < |path| && e in path[p];
      PathTableInLayer(s, k, p);
      assert e in Groups(s)[LayerOf(s, p)];
    }
  }

  /** In every good state a read at a live point answers what the specification holds there. */
  lemma {:induction false} GetAnswersSpec(s: Store, w: View, k: Key)
    requires Inv(s, w)
    ensures Get(s, k, MAX_SEQ) == Find(w.now, k)
    ensures forall i :: 0 <= i < |s.snapshots| ==> Get(s, k, s.snapshots[i]) == Find(w.frozen[i], k)
  {
    AllIsDistinct(s);
    LookupIsTop(s, k, MAX_SEQ);
    ReadsIsFunctional(All(s), k, MAX_SEQ, Get(s, k, MAX_SEQ), Find(w.now, k));
    forall i | 0 <= i < |s.snapshots| ensures Get(s, k, s.snapshots[i]) == Find(w.frozen[i], k) {
      LookupIsTop(s, k, s.snapshots[i]);
      assert ReadsAs(All(s), s.snapshots[i], w.frozen[i]);
      ReadsIsFunctional(All(s), k, s.snapshots[i], Get(s, k, s.snapshots[i]), Find(w.frozen[i], k));
    }
  }

  lemma {:induction false} SnapshotsMatch(s: Store, w: View)
    requires Inv(s, w)
    ensures |w.frozen| == |s.snapshots|
  {
  }
}
