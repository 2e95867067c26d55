/** The store's steps other than compaction; each keeps the invariant against the updated view. */
module LsmSteps {
  import opened Bytes
  import opened Keys
  import opened Entries
  import opened Versions
  import opened Lsm

  /** The memtable half of `DB::WriteEntry`. */
  function Write(s: Store, k: Key, slot: Slot): Store {
    s.(mem := Insert(s.mem, Entry(k, s.nextSeq, slot)), nextSeq := s.nextSeq + 1)
  }

  /** `DB::RotateForFlush`: freeze the memtable. */
  function Rotate(s: Store): Store {
    s.(mem := [], imm := Some(s.mem), installed := false)
  }

  /** The install half of `DB::FlushImmMemTable`: the new table goes to the front of L0. */
  function FlushInstall(s: Store, number: nat, size: nat): Store
    requires s.imm.Some?
  {
    s.(version := s.version.(l0 := [File(number, s.imm.value, size)] + s.version.l0), installed := true)
  }

  function FlushDone(s: Store): Store {
    s.(imm := None, installed := false)
  }

  function TakeSnapshot(s: Store): Store
    requires s.nextSeq >= 1
  {
    s.(snapshots := s.snapshots + [s.nextSeq - 1])
  }

  function ReleaseSnapshot(s: Store, i: nat): Store
    requires i < |s.snapshots|
  {
    s.(snapshots := s.snapshots[..i] + s.snapshots[i + 1..])
  }

  function Wrote(m: map<Key, Bytes>, k: Key, slot: Slot): map<Key, Bytes> {
    match slot
    case Put(v) => m[k := v]
    case Tombstone => m - {k}
  }

  function ViewWrite(w: View, k: Key, slot: Slot): View {
    w.(now := Wrote(w.now, k, slot))
  }

  function ViewSnapshot(w: View): View {
    w.(frozen := w.frozen + [w.now])
  }

  function ViewRelease(w: View, i: nat): View
    requires i < |w.frozen|
  {
    w.(frozen := w.frozen[..i] + w.frozen[i + 1..])
  }

  // ---- write ----------------------------------------------------------------------------------

  lemma {:induction false} WriteGroups(s: Store, k: Key, slot: Slot)
    requires |s.version.levels| == LEVELS && Bounded(s)
    ensures Groups(Write(s, k, slot)) == Groups(s)[0 := Groups(s)[0] + {Entry(k, s.nextSeq, slot)}]
    ensures All(Write(s, k, slot)) == All(s) + {Entry(k, s.nextSeq, slot)}
  {
    var e := Entry(k, s.nextSeq, slot);
    var g, h := Groups(s), Groups(Write(s, k, slot));
    assert forall x :: x in s.mem ==> x in g[0] && x in All(s) && !SameVersion(x, e);
    assert h == g[0 := g[0] + {e}];
    forall x ensures x in Union(h) <==> x in Union(g) || x == e {
      if x in Union(g) {
        var i :| 0 <= i < |g| && x in g[i];
        assert x in h[i];
      }
      if x == e { assert x in h[0]; }
    }
  }

  /** A version newer than everything stored answers latest reads of its key and hides from older points. */
  lemma {:induction false} ReadsAfterWrite(all: set<Entry>, e: Entry, r: nat, k: Key, v: Option<Bytes>)
    requires forall x :: x in all ==> x.seqno < e.seqno
    requires Reads(all, k, r, v)
    ensures e.key == k && e.seqno <= r ==> Reads(all + {e}, k, r, Answer(e.slot))
    ensures e.key != k || e.seqno > r ==> Reads(all + {e}, k, r, v)
  {
    if e.key == k && e.seqno <= r {
      assert IsTop(all + {e}, k, r, e);
    } else if !NothingVisible(all, k, r) {
      var t :| IsTop(all, k, r, t) && v == Answer(t.slot);
      assert IsTop(all + {e}, k, r, t);
    }
  }

  lemma {:induction false} NewestFirst(g: seq<set<Entry>>, e: Entry)
    requires g != [] && Recency(g) && forall x :: x in Union(g) ==> x.seqno < e.seqno
    ensures Recency(g[0 := g[0] + {e}])
  {
    var h := g[0 := g[0] + {e}];
    forall i, j | 0 <= i < j < |h| ensures Newer(h[i], h[j]) {
      assert Newer(g[i], g[j]);
      assert forall y :: y in g[j] ==> y in Union(g);
    }
  }

  lemma {:induction false} WriteKeepsShape(s: Store, k: Key, slot: Slot)
    requires Shape(s) && Bounded(s)
    ensures Shape(Write(s, k, slot))
  {
    hide L0Ok, LevelOk, Sorted, Insert, Recency, Union;
    WriteGroups(s, k, slot);
    InsertKeepsSorted(s.mem, Entry(k, s.nextSeq, slot));
    NewestFirst(Groups(s), Entry(k, s.nextSeq, slot));
  }

  lemma {:induction false} WriteKeepsInv(s: Store, w: View, k: Key, slot: Slot)
    requires Inv(s, w) && s.nextSeq < SEQ_LIMIT
    ensures Inv(Write(s, k, slot), ViewWrite(w, k, slot))
  {
    hide L0Ok, LevelOk, Recency, Sorted, Reads;
    var e := Entry(k, s.nextSeq, slot);
    var s', w' := Write(s, k, slot), ViewWrite(w, k, slot);
    WriteKeepsShape(s, k, slot);
    WriteGroups(s, k, slot);
    var all, all' := All(s), All(s');
    forall k' ensures Reads(all', k', MAX_SEQ, Find(w'.now, k')) {
      ReadsAfterWrite(all, e, MAX_SEQ, k', Find(w.now, k'));
    }
    forall i | 0 <= i < |s.snapshots| ensures ReadsAs(all', s.snapshots[i], w.frozen[i]) {
      assert ReadsAs(all, s.snapshots[i], w.frozen[i]);
      forall k' ensures Reads(all', k', s.snapshots[i], Find(w.frozen[i], k')) {
        ReadsAfterWrite(all, e, s.snapshots[i], k', Find(w.frozen[i], k'));
      }
    }
  }

  // ---- rotate and flush -----------------------------------------------------------------------

  lemma {:induction false} SameEntriesKeepInv(s: Store, s': Store, w: View)
    requires Inv(s, w)
    requires Shape(s') && All(s') == All(s)
    requires s'.nextSeq == s.nextSeq && s'.snapshots == s.snapshots
    ensures Inv(s', w)
  {
  }

  lemma {:induction false} UnionOfShift(g: seq<set<Entry>>, h: seq<set<Entry>>, p: nat)
    requires |h| == |g| && p + 1 < |g|
    requires h[p] == {} && h[p + 1] == g[p] + g[p + 1]
    requires forall i :: 0 <= i < |g| && i != p && i != p + 1 ==> h[i] == g[i]
    ensures Union(h) == Union(g)
    ensures Recency(g) ==> Recency(h)
  {
    forall x ensures x in Union(h) <==> x in Union(g) {
      if x in Union(g) {
        var i :| 0 <= i < |g| && x in g[i];
        assert x in h[if i == p then p + 1 else i];
      }
      if x in Union(h) {
        var i :| 0 <= i < |h| && x in h[i];
        assert x in g[i] || x in g[p];
      }
    }
    if Recency(g) {
      forall i, j | 0 <= i < j < |h| ensures Newer(h[i], h[j]) {
        assert Newer(g[i], g[j]);
        assert j == p + 1 && i != p ==> Newer(g[i], g[p]);
        assert i == p + 1 ==> Newer(g[p], g[j]);
      }
    }
  }

  lemma {:induction false} RotateKeepsInv(s: Store, w: View)
    requires Inv(s, w) && s.imm.None? && s.mem != []
    ensures Inv(Rotate(s), w) && All(Rotate(s)) == All(s)
  {
    var g, h := Groups(s), Groups(Rotate(s));
    UnionOfShift(g, h, 0);
    SameEntriesKeepInv(s, Rotate(s), w);
  }

  lemma {:induction false} FlushInstallKeepsInv(s: Store, w: View, number: nat, size: nat)
    requires Inv(s, w) && s.imm.Some? && !s.installed
    requires forall i :: 0 <= i < |s.version.l0| ==> s.version.l0[i].number < number
    ensures Inv(FlushInstall(s, number, size), w) && All(FlushInstall(s, number, size)) == All(s)
  {
    var s' := FlushInstall(s, number, size);
    var g, h := Groups(s), Groups(s');
    var f := File(number, s.imm.value, size);
    var l0, l0' := s.version.l0, s'.version.l0;
    assert FileElems(l0') == Elems(f.entries) + FileElems(l0) by {
      assert forall x :: x in FileElems(l0) ==> exists y :: y in l0' && x in y.entries;
      assert f in l0';
    }
    UnionOfShift(g, h, 1);
    forall i, j | 0 <= i < j < |l0'| ensures Newer(Elems(l0'[i].entries), Elems(l0'[j].entries)) {
      if i == 0 {
        assert Newer(g[1], g[2]);
      } else {
        assert Newer(Elems(l0[i - 1].entries), Elems(l0[j - 1].entries));
      }
    }
    assert forall j :: 0 < j < |l0'| ==> l0'[j] == l0[j - 1];
    assert L0Ok(l0');
    SameEntriesKeepInv(s, s', w);
  }

  lemma {:induction false} FlushDoneKeepsInv(s: Store, w: View)
    requires Inv(s, w) && s.installed
    ensures Inv(FlushDone(s), w) && All(FlushDone(s)) == All(s)
  {
    assert Groups(FlushDone(s)) == Groups(s);
    SameEntriesKeepInv(s, FlushDone(s), w);
  }

  // ---- snapshots ------------------------------------------------------------------------------

  /** Beyond the newest stored version every read point sees the same. */
  lemma {:induction false} ReadsAbove(all: set<Entry>, k: Key, r: nat, r': nat, v: Option<Bytes>)
    requires forall x :: x in all ==> x.seqno <= r && x.seqno <= r'
    requires Reads(all, k, r, v)
    ensures Reads(all, k, r', v)
  {
    if !NothingVisible(all, k, r) {
      var t :| IsTop(all, k, r, t) && v == Answer(t.slot);
      assert IsTop(all, k, r', t);
    }
  }

  lemma {:induction false} ReadsAsAbove(all: set<Entry>, r: nat, r': nat, m: map<Key, Bytes>)
    requires forall x :: x in all ==> x.seqno <= r && x.seqno <= r'
    requires ReadsAs(all, r, m)
    ensures ReadsAs(all, r', m)
  {
    forall k ensures Reads(all, k, r', Find(m, k)) { ReadsAbove(all, k, r, r', Find(m, k)); }
  }

  lemma {:induction false} OtherSnapshots(s: Store, points: seq<nat>)
    requires Shape(s)
    ensures Shape(s.(snapshots := points)) && All(s.(snapshots := points)) == All(s)
  {
    assert Groups(s.(snapshots := points)) == Groups(s);
  }

  lemma {:induction false} AddPoint(
    all: set<Entry>, points: seq<nat>, maps: seq<map<Key, Bytes>>, r: nat, m: map<Key, Bytes>)
    requires PointsReadAs(all, points, maps) && ReadsAs(all, r, m)
    ensures PointsReadAs(all, points + [r], maps + [m])
  {
    var ps, ms := points + [r], maps + [m];
    forall i | 0 <= i < |ps| ensures ReadsAs(all, ps[i], ms[i]) {
      if i == |points| { assert ps[i] == r && ms[i] == m; } else { assert ps[i] == points[i] && ms[i] == maps[i]; }
    }
  }

  lemma {:induction false} DropPoint(all: set<Entry>, points: seq<nat>, maps: seq<map<Key, Bytes>>, i: nat)
    requires PointsReadAs(all, points, maps) && i < |points|
    ensures PointsReadAs(all, points[..i] + points[i + 1..], maps[..i] + maps[i + 1..])
  {
    var ps, ms := points[..i] + points[i + 1..], maps[..i] + maps[i + 1..];
    forall j | 0 <= j < |ps| ensures ReadsAs(all, ps[j], ms[j]) {
      var p := if j < i then j else j + 1;
      assert ps[j] == points[p] && ms[j] == maps[p];
    }
  }

  /** The last assigned sequence number is a point that sees what a latest read sees. */
  lemma {:induction false} AddLatestPoint(all: set<Entry>, points: seq<nat>, w: View, next: nat)
    requires 1 <= next <= SEQ_LIMIT && forall x :: x in all ==> x.seqno < next
    requires ReadsAs(all, MAX_SEQ, w.now) && PointsReadAs(all, points, w.frozen)
    ensures PointsReadAs(all, points + [next - 1], w.frozen + [w.now])
  {
    ReadsAsAbove(all, MAX_SEQ, next - 1, w.now);
    AddPoint(all, points, w.frozen, next - 1, w.now);
  }

  lemma {:induction false} TakeSnapshotKeepsInv(s: Store, w: View)
    requires Inv(s, w)
    ensures Inv(TakeSnapshot(s), ViewSnapshot(w))
  {
    hide L0Ok, LevelOk, Recency, Sorted, PointsReadAs, ReadsAs;
    OtherSnapshots(s, TakeSnapshot(s).snapshots);
    AddLatestPoint(All(s), s.snapshots, w, s.nextSeq);
  }

  lemma {:induction false} ReleaseSnapshotKeepsInv(s: Store, w: View, i: nat)
    requires Inv(s, w) && i < |s.snapshots|
    ensures Inv(ReleaseSnapshot(s, i), ViewRelease(w, i))
  {
    OtherSnapshots(s, ReleaseSnapshot(s, i).snapshots);
    DropPoint(All(s), s.snapshots, w.frozen, i);
  }
}
