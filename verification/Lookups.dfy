/** The loops of a point lookup: which tables it opens, and which entry it returns. */
module Lookups {
  import opened Bytes
  import opened Keys
  import opened Entries
  import opened Versions

  /** `std::upper_bound` over the smallest keys of a leveled run. */
  method FindTable(level: seq<File>, k: Key) returns (n: nat)
    requires LevelOk(level)
    ensures n == UpperBound(level, k)
  {
    hide Less, Sorted;
    var lo: nat, hi: nat := 0, |level|;
    while lo < hi
      invariant lo <= hi <= |level|
      invariant forall j :: 0 <= j < lo ==> AtMost(level[j].Smallest(), k)
      invariant forall j :: hi <= j < |level| ==> Less(k, level[j].Smallest())
    {
      var mid := lo + (hi - lo) / 2;
      if Less(k, level[mid].Smallest()) {
        StartsLater(level, k, mid);
        hi := mid;
      } else {
        StartsEarlier(level, k, mid);
        lo := mid + 1;
      }
    }
    n := lo;
    BoundIsUnique(level, k, n);
  }

  lemma {:induction false} BoundIsUnique(level: seq<File>, k: Key, n: nat)
    requires FilesOk(level) && n <= |level|
    requires forall j :: 0 <= j < n ==> AtMost(level[j].Smallest(), k)
    requires forall j :: n <= j < |level| ==> Less(k, level[j].Smallest())
    ensures n == UpperBound(level, k)
  {
    hide Less;
    var u := UpperBound(level, k);
    assert n > 0 ==> AtMost(level[n - 1].Smallest(), k);
    assert u > 0 ==> AtMost(level[u - 1].Smallest(), k);
  }

  lemma {:induction false} StartsLater(level: seq<File>, k: Key, mid: nat)
    requires LevelOk(level) && mid < |level| && Less(k, level[mid].Smallest())
    ensures forall j :: mid <= j < |level| ==> Less(k, level[j].Smallest())
  {
    hide Less, Sorted;
    LessIsStrictTotalOrder();
    forall j | mid < j < |level| ensures Less(k, level[j].Smallest()) { RunAscends(level, mid, j); }
  }

  lemma {:induction false} StartsEarlier(level: seq<File>, k: Key, mid: nat)
    requires LevelOk(level) && mid < |level| && AtMost(level[mid].Smallest(), k)
    ensures forall j :: 0 <= j <= mid ==> AtMost(level[j].Smallest(), k)
  {
    hide Less, Sorted;
    LessIsStrictTotalOrder();
    forall j | 0 <= j < mid ensures AtMost(level[j].Smallest(), k) { RunAscends(level, j, mid); }
  }

  /** The shared read traversal: memtables, L0 newest first, then one table per level. */
  method LookupIn(mem: seq<Entry>, imm: Option<seq<Entry>>, v: Version, k: Key, r: nat) returns (o: Option<Entry>)
    requires VersionOk(v)
    ensures o == Lookup(mem, imm, v, k, r)
  {
    hide L0Ok, LevelOk, Newest, ProbedTable, FirstHit;
    VersionIsReadable(v);
    ghost var path := Path(mem, imm, v, k);
    ghost var n: nat := 1;
    assert path[0..] == path && path[0] == mem;
    HitStep(path, 0, k, r);
    o := Newest(mem, k, r);
    if o.Some? { return; }
    if imm.Some? {
      HitStep(path, 1, k, r);
      o := Newest(imm.value, k, r);
      if o.Some? { return; }
      n := 2;
    }
    for i := 0 to |v.l0|
      invariant n == (if imm.Some? then 2 else 1) + i
      invariant FirstHit(path, k, r) == FirstHit(path[n..], k, r)
    {
      HitStep(path, n, k, r);
      assert path[n] == v.l0[i].entries;
      o := Newest(v.l0[i].entries, k, r);
      if o.Some? { return; }
      n := n + 1;
    }
    for i := 0 to |v.levels|
      invariant n == (if imm.Some? then 2 else 1) + |v.l0| + i
      invariant FirstHit(path, k, r) == FirstHit(path[n..], k, r)
    {
      HitStep(path, n, k, r);
      assert path[n] == ProbedTable(v.levels[i], k);
      o := ProbeLevel(v.levels[i], k, r);
      if o.Some? { return; }
      n := n + 1;
    }
    HitStep(path, n, k, r);
    o := None;
  }

  lemma {:induction false} HitStep(path: seq<seq<Entry>>, n: nat, k: Key, r: nat)
    requires n <= |path|
    ensures n == |path| ==> FirstHit(path[n..], k, r) == None
    ensures n < |path| ==>
              var o := Newest(path[n], k, r);
                FirstHit(path[n..], k, r) == if o.Some? then o else FirstHit(path[n + 1..], k, r)
  {
    hide Newest;
    if n < |path| { assert path[n..][1..] == path[n + 1..]; }
  }

  lemma {:induction false} VersionIsReadable(v: Version)
    requires VersionOk(v)
    ensures FilesOk(v.l0) && forall i :: 0 <= i < |v.levels| ==> FilesOk(v.levels[i]) && LevelOk(v.levels[i])
  {
  }

  method ProbeLevel(level: seq<File>, k: Key, r: nat) returns (o: Option<Entry>)
    requires LevelOk(level)
    ensures o == Newest(ProbedTable(level, k), k, r)
  {
    hide Less, Sorted, RangeBefore, UpperBound;
    var n := FindTable(level, k);
    if n == 0 || Less(level[n - 1].Largest(), k) { return None; }
    o := Newest(level[n - 1].entries, k, r);
  }
}
