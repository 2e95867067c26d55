/** Installing a compaction's outputs: the new version, and why every live reader sees the same. */
module Install {
  import opened Bytes
  import opened Keys
  import opened Entries
  import opened Versions
  import opened Lsm
  import opened Retention
  import opened Merging
  import opened Compaction
  import opened Picking

  function Numbers(fs: seq<File>): (s: set<nat>)
    ensures forall n :: n in s <==> exists f :: f in fs && f.number == n
  {
    set f | f in fs :: f.number
  }

  /** `remove_numbers`: drops the tables whose numbers are listed. */
  function RemoveNumbers(fs: seq<File>, ns: set<nat>): (r: seq<File>)
    ensures forall f :: f in r <==> f in fs && f.number !in ns
  {
    if fs == [] then []
    else
      assert fs == [fs[0]] + fs[1..];
      var rest := RemoveNumbers(fs[1..], ns);
      if fs[0].number in ns then rest else [fs[0]] + rest
  }

  /** Disjoint key ranges and different numbers, in any order. */
  predicate Apart(f: File, g: File) {
    FileOk(f) && FileOk(g) && f.number != g.number && (RangeBefore(f, g) || RangeBefore(g, f))
  }

  predicate PairwiseApart(fs: seq<File>) {
    FilesOk(fs) && forall i, j :: 0 <= i < j < |fs| ==> Apart(fs[i], fs[j])
  }

  function InsertFile(fs: seq<File>, f: File): (r: seq<File>)
    requires FilesOk(fs) && FileOk(f)
    ensures FilesOk(r) && forall g :: g in r <==> g in fs || g == f
  {
    if fs == [] || Less(f.Smallest(), fs[0].Smallest()) then [f] + fs
    else
      assert fs == [fs[0]] + fs[1..];
      [fs[0]] + InsertFile(fs[1..], f)
  }

  /** `std::sort` by smallest user key. */
  function SortFiles(fs: seq<File>): (r: seq<File>)
    requires FilesOk(fs)
    ensures FilesOk(r) && forall g :: g in r <==> g in fs
  {
    if fs == [] then []
    else
      assert fs == fs[..|fs| - 1] + [fs[|fs| - 1]];
      InsertFile(SortFiles(fs[..|fs| - 1]), fs[|fs| - 1])
  }

  lemma {:induction false} LevelCons(f: File, rest: seq<File>)
    requires FileOk(f) && LevelOk(rest)
    requires forall g :: g in rest ==> FileOk(g) && RangeBefore(f, g) && f.number != g.number
    ensures LevelOk([f] + rest)
  {
    hide Less, Sorted;
    var r := [f] + rest;
    forall i, j | 0 <= i < j < |r| ensures RangeBefore(r[i], r[j]) && r[i].number != r[j].number {
      assert r[j] == rest[j - 1];
      if i > 0 { assert r[i] == rest[i - 1] && RangeBefore(rest[i - 1], rest[j - 1]); }
    }
  }

  lemma {:induction false} LevelTail(fs: seq<File>)
    requires LevelOk(fs) && fs != []
    ensures LevelOk(fs[1..]) && FileOk(fs[0])
    ensures forall g :: g in fs[1..] ==> FileOk(g) && RangeBefore(fs[0], g) && fs[0].number != g.number
  {
    hide Less, Sorted;
    forall g | g in fs[1..] ensures FileOk(g) && RangeBefore(fs[0], g) && fs[0].number != g.number {
      var i :| 0 <= i < |fs[1..]| && fs[1..][i] == g;
      assert g == fs[i + 1];
    }
  }

  lemma {:induction false} InsertKeepsLevel(fs: seq<File>, f: File)
    requires LevelOk(fs) && FileOk(f) && forall g :: g in fs ==> Apart(g, f)
    ensures LevelOk(InsertFile(fs, f))
  {
    hide Sorted;
    if fs == [] {
      LevelCons(f, []);
    } else {
      LevelTail(fs);
      assert Apart(fs[0], f);
      FileEndsInOrder(fs[0]);
      FileEndsInOrder(f);
      LessIsStrictTotalOrder();
      assert fs == [fs[0]] + fs[1..];
      if Less(f.Smallest(), fs[0].Smallest()) {
        LevelCons(f, fs);
      } else {
        InsertKeepsLevel(fs[1..], f);
        LevelCons(fs[0], InsertFile(fs[1..], f));
      }
    }
  }

  /** Sorting tables that are apart by their smallest keys yields a leveled run. */
  lemma {:induction false} SortedApartIsLevel(fs: seq<File>)
    requires PairwiseApart(fs)
    ensures LevelOk(SortFiles(fs))
  {
    if fs != [] {
      var init, last := fs[..|fs| - 1], fs[|fs| - 1];
      SortedApartIsLevel(init);
      forall g | g in SortFiles(init) ensures Apart(g, last) {
        var i :| 0 <= i < |init| && init[i] == g;
        assert Apart(fs[i], fs[|fs| - 1]);
      }
      InsertKeepsLevel(SortFiles(init), last);
    }
  }

  /** Removing tables from a leveled run leaves one. */
  lemma {:induction false} RemoveKeepsLevel(fs: seq<File>, ns: set<nat>)
    requires LevelOk(fs)
    ensures LevelOk(RemoveNumbers(fs, ns))
  {
    hide LevelOk, Less, Sorted;
    if fs != [] {
      LevelTail(fs);
      RemoveKeepsLevel(fs[1..], ns);
      if fs[0].number !in ns { LevelCons(fs[0], RemoveNumbers(fs[1..], ns)); }
    }
  }

  /** `current_` after `RunCompaction`'s install step. */
  function InstallOutputs(v: Version, source: nat, a: seq<File>, b: seq<File>, outs: seq<File>): Version
    requires source < |v.levels| && FilesOk(v.levels[source]) && FilesOk(outs)
  {
    var kept := RemoveNumbers(v.levels[source], Numbers(b));
    assert FilesOk(kept) by {
      forall i | 0 <= i < |kept| ensures FileOk(kept[i]) { assert kept[i] in v.levels[source]; }
    }
    var level := SortFiles(kept + outs);
    if source == 0 then
      v.(l0 := RemoveNumbers(v.l0, Numbers(a)), levels := v.levels[source := level])
    else
      v.(levels := v.levels[source - 1 := RemoveNumbers(v.levels[source - 1], Numbers(a))][source := level])
  }

  /** The sources of the merge. */
  function InputTables(a: seq<File>, b: seq<File>): (t: seq<seq<Entry>>) {
    seq(|a| + |b|, i requires 0 <= i < |a| + |b| => (a + b)[i].entries)
  }

  lemma {:induction false} InputElems(a: seq<File>, b: seq<File>)
    ensures TableElems(InputTables(a, b)) == FileElems(a) + FileElems(b)
  {
    var t := InputTables(a, b);
    forall e ensures e in TableElems(t) <==> e in FileElems(a) + FileElems(b) {
      if e in TableElems(t) {
        var i :| 0 <= i < |t| && e in t[i];
        assert i < |a| ==> a[i] in a;
        assert i >= |a| ==> b[i - |a|] in b;
      }
      if e in FileElems(a) {
        var f :| f in a && e in f.entries;
        var i :| 0 <= i < |a| && a[i] == f;
        assert e in t[i];
      }
      if e in FileElems(b) {
        var f :| f in b && e in f.entries;
        var i :| 0 <= i < |b| && b[i] == f;
        assert e in t[|a| + i];
      }
    }
  }

  // ---- the inputs ----------------------------------------------------------------------------------

  lemma {:induction false} SubsetOfLevel(level: seq<File>, b: seq<File>)
    requires forall f :: f in b ==> f in level
    ensures FileElems(b) <= FileElems(level)
  {
  }

  lemma {:induction false} SameNumberSameFile(level: seq<File>, f: File, g: File)
    requires UniqueNumbers(level) && f in level && g in level && f.number == g.number
    ensures f == g
  {
  }

  lemma {:induction false} LevelPairNoTie(level: seq<File>, f: File, g: File)
    requires LevelOk(level) && f in level && g in level && f.number != g.number
    ensures NoTie(f.entries, g.entries)
  {
    var i :| 0 <= i < |level| && level[i] == f;
    var j :| 0 <= j < |level| && level[j] == g;
    LevelFilesShareNoKey(level, i, j);
  }

  /** The inputs hold no internal key twice, so the builder never sees a non-increasing key. */
  lemma {:induction false} InputsHaveNoTies(s: Store, source: nat, a: seq<File>, b: seq<File>)
    requires Shape(s) && JobOk(s.version, source, a, b)
    ensures AllSorted(InputTables(a, b)) && NoTies(InputTables(a, b))
  {
    hide Sorted, Recency, LevelOk, Hull;
    var t := InputTables(a, b);
    var v := s.version;
    forall i, j | 0 <= i < j < |t| ensures NoTie(t[i], t[j]) {
      if j < |a| {
        assert Newer(Elems(v.l0[i].entries), Elems(v.l0[j].entries));
      } else if i >= |a| {
        LevelPairNoTie(v.levels[source], b[i - |a|], b[j - |a|]);
      } else {
        AcrossLevelsNoTie(s, source, a, b, a[i], b[j - |a|]);
      }
    }
  }

  lemma {:induction false} SourceElems(s: Store, source: nat, a: seq<File>, b: seq<File>)
    requires Shape(s) && JobOk(s.version, source, a, b)
    ensures FileElems(a) <= Groups(s)[source + 2] && FileElems(b) <= Groups(s)[source + 3]
  {
    SubsetOfLevel(s.version.levels[source], b);
    if source > 0 { SubsetOfLevel(s.version.levels[source - 1], a); }
  }

  lemma {:induction false} AcrossLevelsNoTie(s: Store, source: nat, a: seq<File>, b: seq<File>, f: File, g: File)
    requires Shape(s) && JobOk(s.version, source, a, b) && f in a && g in b
    ensures NoTie(f.entries, g.entries)
  {
    SourceElems(s, source, a, b);
    assert Newer(Groups(s)[source + 2], Groups(s)[source + 3]);
    forall x, y | x in f.entries && y in g.entries ensures !(x.key == y.key && x.seqno == y.seqno) {
      assert x in FileElems(a) && y in FileElems(b);
    }
  }

  // ---- the outputs ---------------------------------------------------------------------------------

  ghost predicate Outputs(a: seq<File>, b: seq<File>, floor: nat, bottom: bool, outs: seq<File>) {
    var m := Merge(InputTables(a, b));
    LevelOk(outs) && Flatten(outs) == KeptRange(m, floor, bottom, 0, |m|)
  }

  lemma {:induction false} OutputElems(
    s: Store, source: nat, a: seq<File>, b: seq<File>, floor: nat, bottom: bool, outs: seq<File>)
    requires Shape(s) && JobOk(s.version, source, a, b) && Outputs(a, b, floor, bottom, outs)
    ensures LevelOk(outs) && FileElems(outs) == Retained(FileElems(a) + FileElems(b), floor, bottom)
  {
    var t := InputTables(a, b);
    var m := Merge(t);
    InputsHaveNoTies(s, source, a, b);
    MergeIsStrict(t);
    MergeElems(t);
    InputElems(a, b);
    assert Elems(m) == FileElems(a) + FileElems(b);
    LoopKeepsRetained(m, floor, bottom);
    FlattenElems(outs);
  }

  lemma {:induction false} OutputsWithinHull(target: seq<File>, a: seq<File>, b: seq<File>, lo: Key, hi: Key, e: Entry)
    requires FilesOk(target) && FilesOk(a) && FilesOk(b) && Hull(target, a, b, lo, hi)
    requires e in FileElems(a) + FileElems(b)
    ensures AtMost(lo, e.key) && AtMost(e.key, hi)
  {
    var f :| (f in a || f in b) && e in f.entries;
    assert Within(f, lo, hi) by {
      if f in a {
        var i :| 0 <= i < |a| && a[i] == f;
      } else {
        var i :| 0 <= i < |b| && b[i] == f;
      }
    }
    FileRange(f, e);
    LessIsStrictTotalOrder();
  }

  /** A table left in the target level is apart from every output. */
  lemma {:induction false} SurvivorApartFromOutput(
    target: seq<File>, a: seq<File>, b: seq<File>, lo: Key, hi: Key, f: File, g: File)
    requires FilesOk(target) && FilesOk(a) && FilesOk(b) && Hull(target, a, b, lo, hi)
    requires f in target && f !in b && FileOk(g) && f.number != g.number
    requires forall e :: e in g.entries ==> e in FileElems(a) + FileElems(b)
    ensures Apart(f, g)
  {
    var i :| 0 <= i < |target| && target[i] == f;
    assert !Overlaps(f, lo, hi);
    assert g.entries[0] in g.entries && g.entries[|g.entries| - 1] in g.entries;
    OutputsWithinHull(target, a, b, lo, hi, g.entries[0]);
    OutputsWithinHull(target, a, b, lo, hi, g.entries[|g.entries| - 1]);
    LessIsStrictTotalOrder();
  }

  /** The new target level is a leveled run. */
  lemma {:induction false} NewLevelOk(target: seq<File>, a: seq<File>, b: seq<File>, lo: Key, hi: Key, outs: seq<File>)
    requires LevelOk(target) && FilesOk(a) && FilesOk(b) && Hull(target, a, b, lo, hi)
    requires (forall f :: f in b ==> f in target) && LevelOk(outs)
    requires FileElems(outs) <= FileElems(a) + FileElems(b)
    requires forall f, g :: f in target && g in outs ==> f.number != g.number
    ensures PairwiseApart(RemoveNumbers(target, Numbers(b)) + outs)
  {
    var kept := RemoveNumbers(target, Numbers(b));
    RemoveKeepsLevel(target, Numbers(b));
    var fs := kept + outs;
    forall i, j | 0 <= i < j < |fs| ensures Apart(fs[i], fs[j]) {
      if j < |kept| {
        assert RangeBefore(kept[i], kept[j]);
      } else if i >= |kept| {
        assert RangeBefore(outs[i - |kept|], outs[j - |kept|]);
      } else {
        var f, g := kept[i], outs[j - |kept|];
        assert f in kept && g in outs;
        forall e | e in g.entries ensures e in FileElems(a) + FileElems(b) { assert e in FileElems(outs); }
        SurvivorApartFromOutput(target, a, b, lo, hi, f, g);
      }
    }
  }

  // ---- the new version -----------------------------------------------------------------------------

  lemma {:induction false} RemainingElems(level: seq<File>, b: seq<File>)
    requires LevelOk(level) && forall f :: f in b ==> f in level
    ensures FileElems(RemoveNumbers(level, Numbers(b))) == FileElems(level) - FileElems(b)
    ensures NoSharedKey(FileElems(level) - FileElems(b), FileElems(b))
  {
    var kept := RemoveNumbers(level, Numbers(b));
    forall x, y | x in FileElems(kept) && y in FileElems(b) ensures x.key != y.key {
      var i :| 0 <= i < |level| && level[i].number !in Numbers(b) && x in level[i].entries;
      var g :| g in b && y in g.entries;
      var j :| 0 <= j < |level| && level[j] == g;
      LevelFilesShareNoKey(level, i, j);
    }
    forall e ensures e in FileElems(kept) <==> e in FileElems(level) - FileElems(b) {
      if e in FileElems(level) && e !in FileElems(b) {
        var f :| f in level && e in f.entries;
        if f.number in Numbers(b) {
          var g :| g in b && g.number == f.number;
          SameNumberSameFile(level, f, g);
        }
        assert f in kept;
      }
    }
  }

  /** No version of an input key stays behind in the target level. */
  lemma {:induction false} TargetKeysAreWhole(target: seq<File>, a: seq<File>, b: seq<File>, lo: Key, hi: Key)
    requires LevelOk(target) && FilesOk(a) && FilesOk(b) && Hull(target, a, b, lo, hi)
    ensures NoSharedKey(FileElems(target) - FileElems(b), FileElems(a) + FileElems(b))
  {
    forall x, y | x in FileElems(target) - FileElems(b) && y in FileElems(a) + FileElems(b) ensures x.key != y.key {
      var i :| 0 <= i < |target| && x in target[i].entries;
      assert target[i] !in b;
      OutputsWithinHull(target, a, b, lo, hi, y);
      FileRange(target[i], x);
      LessIsStrictTotalOrder();
    }
  }

  lemma {:induction false} JobTakesWholeKeys(s: Store, source: nat, a: seq<File>, b: seq<File>)
    requires Shape(s) && JobOk(s.version, source, a, b)
    ensures WholeKeys(Groups(s), source + 2, FileElems(a), FileElems(b))
  {
    hide Recency, Sorted, Hull;
    var v := s.version;
    SourceElems(s, source, a, b);
    var lo, hi :| Hull(v.levels[source], a, b, lo, hi);
    TargetKeysAreWhole(v.levels[source], a, b, lo, hi);
    if source > 0 { RemainingElems(v.levels[source - 1], a); }
  }

  ghost predicate FreshNumbers(v: Version, outs: seq<File>) {
    forall i, f, g :: 0 <= i < |v.levels| && f in v.levels[i] && g in outs ==> f.number != g.number
  }

  lemma {:induction false} LevelFiles(fs: seq<File>)
    requires LevelOk(fs)
    ensures FilesOk(fs)
  {
  }

  lemma {:induction false} JobFacts(v: Version, source: nat, a: seq<File>, b: seq<File>)
    requires JobOk(v, source, a, b)
    ensures source < LEVELS == |v.levels| && VersionOk(v) && FilesOk(v.levels[source]) && FilesOk(a) && FilesOk(b)
    ensures source == 0 ==> a == v.l0
    ensures forall f :: f in b ==> f in v.levels[source]
    ensures source > 0 ==> forall f :: f in a ==> f in v.levels[source - 1]
  {
  }

  lemma {:induction false} NewTargetLevel(v: Version, source: nat, a: seq<File>, b: seq<File>, outs: seq<File>)
    requires JobOk(v, source, a, b) && LevelOk(outs) && FreshNumbers(v, outs)
    requires FileElems(outs) <= FileElems(a) + FileElems(b)
    ensures PairwiseApart(RemoveNumbers(v.levels[source], Numbers(b)) + outs)
  {
    hide Hull, L0Ok;
    var lo, hi :| Hull(v.levels[source], a, b, lo, hi);
    NewLevelOk(v.levels[source], a, b, lo, hi, outs);
  }

  lemma {:induction false} InstalledLevels(v: Version, source: nat, a: seq<File>, b: seq<File>, outs: seq<File>)
    requires source < |v.levels| && FilesOk(v.levels[source]) && FilesOk(outs)
    ensures var v', kept := InstallOutputs(v, source, a, b, outs), RemoveNumbers(v.levels[source], Numbers(b));
            && FilesOk(kept + outs) && |v'.levels| == |v.levels|
            && v'.levels[source] == SortFiles(kept + outs)
            && v'.l0 == (if source == 0 then RemoveNumbers(v.l0, Numbers(a)) else v.l0)
            && (source > 0 ==> v'.levels[source - 1] == RemoveNumbers(v.levels[source - 1], Numbers(a)))
            && forall i :: 0 <= i < |v.levels| && i != source && i + 1 != source ==> v'.levels[i] == v.levels[i]
  {
  }

  lemma {:induction false} InstallKeepsVersion(v: Version, source: nat, a: seq<File>, b: seq<File>, outs: seq<File>)
    requires JobOk(v, source, a, b) && LevelOk(outs) && FreshNumbers(v, outs)
    requires FileElems(outs) <= FileElems(a) + FileElems(b)
    ensures FilesOk(v.levels[source]) && FilesOk(outs) && VersionOk(InstallOutputs(v, source, a, b, outs))
  {
    hide LevelOk, JobOk, L0Ok, FilesOk, PairwiseApart, InstallOutputs, FreshNumbers;
    JobFacts(v, source, a, b);
    LevelFiles(outs);
    NewTargetLevel(v, source, a, b, outs);
    InstalledLevels(v, source, a, b, outs);
    SortedApartIsLevel(RemoveNumbers(v.levels[source], Numbers(b)) + outs);
    if source == 0 {
      RemoveAll(v.l0);
      NoFilesIsL0();
    } else {
      RemoveKeepsLevel(v.levels[source - 1], Numbers(a));
    }
    var v' := InstallOutputs(v, source, a, b, outs);
    forall i | 0 <= i < LEVELS ensures LevelOk(v'.levels[i]) {
      assert i != source && i + 1 != source ==> v'.levels[i] == v.levels[i];
    }
  }

  lemma {:induction false} NoFilesIsL0()
    ensures L0Ok([])
  {
  }

  lemma {:induction false} RemoveAll(fs: seq<File>)
    ensures RemoveNumbers(fs, Numbers(fs)) == []
  {
    RemoveListed(fs, Numbers(fs));
  }

  lemma {:induction false} RemoveListed(fs: seq<File>, ns: set<nat>)
    requires forall f :: f in fs ==> f.number in ns
    ensures RemoveNumbers(fs, ns) == []
  {
    if fs != [] { RemoveListed(fs[1..], ns); }
  }

  lemma {:induction false} FileElemsOfSorted(kept: seq<File>, outs: seq<File>)
    requires FilesOk(kept + outs)
    ensures FileElems(SortFiles(kept + outs)) == FileElems(kept) + FileElems(outs)
  {
    hide FilesOk;
    forall e ensures e in FileElems(SortFiles(kept + outs)) <==> e in FileElems(kept) + FileElems(outs) {
      if e in FileElems(kept) {
        var f :| f in kept && e in f.entries;
        assert f in kept + outs;
      }
      if e in FileElems(outs) {
        var f :| f in outs && e in f.entries;
        assert f in kept + outs;
      }
    }
  }

  function Installed(s: Store, source: nat, a: seq<File>, b: seq<File>, outs: seq<File>): Store
    requires source < |s.version.levels| && FilesOk(s.version.levels[source]) && FilesOk(outs)
  {
    s.(version := InstallOutputs(s.version, source, a, b, outs))
  }

  lemma {:induction false} NewTargetElems(level: seq<File>, b: seq<File>, outs: seq<File>)
    requires LevelOk(level) && (forall f :: f in b ==> f in level) && LevelOk(outs)
    ensures var kept := RemoveNumbers(level, Numbers(b));
            FilesOk(kept + outs)
              && FileElems(SortFiles(kept + outs)) == (FileElems(level) - FileElems(b)) + FileElems(outs)
  {
    RemainingElems(level, b);
    RemoveKeepsLevel(level, Numbers(b));
    FileElemsOfSorted(RemoveNumbers(level, Numbers(b)), outs);
  }

  /** What the job's outputs make of the layers. */
  ghost function After(s: Store, source: nat, a: seq<File>, b: seq<File>, outs: seq<File>): seq<set<Entry>>
    requires |s.version.levels| == LEVELS && source < LEVELS
  {
    Replace(Groups(s), source + 2, FileElems(a), FileElems(b), FileElems(outs))
  }

  lemma {:induction false} OtherGroupsStay(s: Store, source: nat, a: seq<File>, b: seq<File>, outs: seq<File>, i: nat)
    requires |s.version.levels| == LEVELS && source < LEVELS && FilesOk(s.version.levels[source]) && FilesOk(outs)
    requires i < LEVELS + 3 && i != source + 2 && i != source + 3
    ensures |Installed(s, source, a, b, outs).version.levels| == LEVELS
    ensures Groups(Installed(s, source, a, b, outs))[i] == Groups(s)[i]
  {
    hide InstallOutputs, FilesOk;
    InstalledLevels(s.version, source, a, b, outs);
    if i >= 3 { assert InstallOutputs(s.version, source, a, b, outs).levels[i - 3] == s.version.levels[i - 3]; }
  }

  lemma {:induction false} SourceGroupShrinks(s: Store, source: nat, a: seq<File>, b: seq<File>, outs: seq<File>)
    requires JobOk(s.version, source, a, b) && LevelOk(outs)
    ensures FilesOk(s.version.levels[source]) && FilesOk(outs)
    ensures |Installed(s, source, a, b, outs).version.levels| == LEVELS
    ensures Groups(Installed(s, source, a, b, outs))[source + 2] == Groups(s)[source + 2] - FileElems(a)
  {
    hide LevelOk, L0Ok, JobOk, FilesOk, NoSharedKey, InstallOutputs;
    var v := s.version;
    JobFacts(v, source, a, b);
    LevelFiles(outs);
    InstalledLevels(v, source, a, b, outs);
    if source == 0 { RemoveAll(v.l0); } else { RemainingElems(v.levels[source - 1], a); }
  }

  lemma {:induction false} TargetGroupGains(s: Store, source: nat, a: seq<File>, b: seq<File>, outs: seq<File>)
    requires JobOk(s.version, source, a, b) && LevelOk(outs)
    ensures FilesOk(s.version.levels[source]) && FilesOk(outs)
    ensures |Installed(s, source, a, b, outs).version.levels| == LEVELS
    ensures Groups(Installed(s, source, a, b, outs))[source + 3]
            == (Groups(s)[source + 3] - FileElems(b)) + FileElems(outs)
  {
    hide LevelOk, L0Ok, JobOk, FilesOk, NoSharedKey, InstallOutputs;
    var v := s.version;
    JobFacts(v, source, a, b);
    LevelFiles(outs);
    InstalledLevels(v, source, a, b, outs);
    NewTargetElems(v.levels[source], b, outs);
  }

  lemma {:induction false} InstallGroups(s: Store, source: nat, a: seq<File>, b: seq<File>, outs: seq<File>)
    requires JobOk(s.version, source, a, b) && LevelOk(outs)
    ensures FilesOk(s.version.levels[source]) && FilesOk(outs)
    ensures |Installed(s, source, a, b, outs).version.levels| == LEVELS
    ensures Groups(Installed(s, source, a, b, outs)) == After(s, source, a, b, outs)
  {
    hide LevelOk, L0Ok, JobOk, FilesOk, Installed, FileElems;
    JobFacts(s.version, source, a, b);
    SourceGroupShrinks(s, source, a, b, outs);
    TargetGroupGains(s, source, a, b, outs);
    var g, h := Groups(s), Groups(Installed(s, source, a, b, outs));
    forall i | 0 <= i < |h| && i != source + 2 && i != source + 3 ensures h[i] == g[i] {
      OtherGroupsStay(s, source, a, b, outs, i);
    }
  }

  /** The live snapshots are read points a job with this floor may not disturb. */
  ghost predicate SafeFloor(s: Store, a: seq<File>, b: seq<File>, floor: nat) {
    forall i :: 0 <= i < |s.snapshots| ==> SafePoint(FileElems(a) + FileElems(b), floor, s.snapshots[i])
  }

  lemma {:induction false} InputsAreDistinct(s: Store, source: nat, a: seq<File>, b: seq<File>)
    requires Shape(s) && JobOk(s.version, source, a, b)
    ensures Distinct(FileElems(a) + FileElems(b)) && FileElems(a) + FileElems(b) <= All(s)
  {
    hide Sorted, Recency, JobOk, L0Ok, LevelOk, FilesOk;
    JobFacts(s.version, source, a, b);
    SourceElems(s, source, a, b);
    AllIsDistinct(s);
    forall x | x in FileElems(a) + FileElems(b) ensures x in All(s) {
      var p := if x in FileElems(a) then source + 2 else source + 3;
      assert x in Groups(s)[p];
    }
  }

  lemma {:induction false} OutputsKeepAnswers(
    s: Store, source: nat, a: seq<File>, b: seq<File>, floor: nat, outs: seq<File>, r: nat)
    requires Shape(s) && JobOk(s.version, source, a, b) && Outputs(a, b, floor, source + 1 == LEVELS, outs)
    requires SafePoint(FileElems(a) + FileElems(b), floor, r)
    ensures KeepsAnswers(FileElems(a) + FileElems(b), FileElems(outs), source + 1 == LEVELS, r)
  {
    hide Shape, JobOk, Outputs;
    OutputElems(s, source, a, b, floor, source + 1 == LEVELS, outs);
    InputsAreDistinct(s, source, a, b);
    RetentionKeepsAnswers(FileElems(a) + FileElems(b), floor, source + 1 == LEVELS, r);
  }

  lemma {:induction false} InstallKeepsReads(
    s: Store, source: nat, a: seq<File>, b: seq<File>, floor: nat, outs: seq<File>, r: nat, m: map<Key, Bytes>)
    requires Shape(s) && JobOk(s.version, source, a, b) && Outputs(a, b, floor, source + 1 == LEVELS, outs)
    requires SafePoint(FileElems(a) + FileElems(b), floor, r) && ReadsAs(All(s), r, m)
    ensures ReadsAs(Union(After(s, source, a, b, outs)), r, m)
  {
    hide JobOk, Outputs, L0Ok, LevelOk, FilesOk, Sorted, Recency, WholeKeys, KeepsAnswers, Reads, Replace;
    JobFacts(s.version, source, a, b);
    OutputsKeepAnswers(s, source, a, b, floor, outs, r);
    JobTakesWholeKeys(s, source, a, b);
    forall k ensures Reads(Union(After(s, source, a, b, outs)), k, r, Find(m, k)) {
      ReplaceKeepsReads(
        Groups(s), source + 2, FileElems(a), FileElems(b), FileElems(outs), source + 1 == LEVELS, k, r, Find(m, k));
    }
  }

  lemma {:induction false} InstallKeepsShape(
    s: Store, source: nat, a: seq<File>, b: seq<File>, floor: nat, outs: seq<File>)
    requires Shape(s) && !s.installed && JobOk(s.version, source, a, b)
    requires Outputs(a, b, floor, source + 1 == LEVELS, outs) && FreshNumbers(s.version, outs)
    ensures FilesOk(s.version.levels[source]) && FilesOk(outs) && Shape(Installed(s, source, a, b, outs))
    ensures Groups(Installed(s, source, a, b, outs)) == After(s, source, a, b, outs)
    ensures All(Installed(s, source, a, b, outs)) <= All(s)
  {
    hide Recency, Sorted, L0Ok, LevelOk, JobOk, Outputs, Replace, FreshNumbers, FilesOk, NoSharedKey;
    JobFacts(s.version, source, a, b);
    var A, B, g, out := FileElems(a), FileElems(b), Groups(s), FileElems(outs);
    OutputElems(s, source, a, b, floor, source + 1 == LEVELS, outs);
    InstallKeepsVersion(s.version, source, a, b, outs);
    InstallGroups(s, source, a, b, outs);
    JobTakesWholeKeys(s, source, a, b);
    ReplaceKeepsRecency(g, source + 2, A, B, out);
    forall x | x in Union(After(s, source, a, b, outs)) ensures x in All(s) {
      ReplaceUnion(g, source + 2, A, B, out, x);
    }
  }

  lemma {:induction false} InstallKeepsPoints(
    s: Store, w: View, source: nat, a: seq<File>, b: seq<File>, floor: nat, outs: seq<File>)
    requires Inv(s, w) && JobOk(s.version, source, a, b) && SafeFloor(s, a, b, floor)
    requires Outputs(a, b, floor, source + 1 == LEVELS, outs)
    ensures ReadsAs(Union(After(s, source, a, b, outs)), MAX_SEQ, w.now)
    ensures PointsReadAs(Union(After(s, source, a, b, outs)), s.snapshots, w.frozen)
  {
    hide Recency, Sorted, L0Ok, LevelOk, JobOk, ReadsAs, SafePoint, Outputs, FilesOk, After;
    JobFacts(s.version, source, a, b);
    InputsAreDistinct(s, source, a, b);
    LatestIsSafe(s, FileElems(a) + FileElems(b), floor);
    InstallKeepsReads(s, source, a, b, floor, outs, MAX_SEQ, w.now);
    forall i | 0 <= i < |s.snapshots|
      ensures ReadsAs(Union(After(s, source, a, b, outs)), s.snapshots[i], w.frozen[i])
    {
      InstallKeepsReads(s, source, a, b, floor, outs, s.snapshots[i], w.frozen[i]);
    }
  }

  /** Installing a compaction is invisible at every live read point. */
  lemma {:induction false} InstallKeepsInv(
    s: Store, w: View, source: nat, a: seq<File>, b: seq<File>, floor: nat, outs: seq<File>)
    requires Inv(s, w) && !s.installed && JobOk(s.version, source, a, b) && SafeFloor(s, a, b, floor)
    requires Outputs(a, b, floor, source + 1 == LEVELS, outs) && FreshNumbers(s.version, outs)
    ensures FilesOk(s.version.levels[source]) && FilesOk(outs) && Inv(Installed(s, source, a, b, outs), w)
    ensures All(Installed(s, source, a, b, outs)) <= All(s)
  {
    hide Recency, Sorted, L0Ok, LevelOk, JobOk, ReadsAs, PointsReadAs, SafeFloor, Outputs, FreshNumbers, FilesOk,
      After, Groups, Union, InstallOutputs;
    JobFacts(s.version, source, a, b);
    InstallKeepsShape(s, source, a, b, floor, outs);
    InstallKeepsPoints(s, w, source, a, b, floor, outs);
  }

  lemma {:induction false} LatestIsSafe(s: Store, inputs: set<Entry>, floor: nat)
    requires |s.version.levels| == LEVELS && Bounded(s) && inputs <= All(s)
    ensures SafePoint(inputs, floor, MAX_SEQ)
  {
  }
}
