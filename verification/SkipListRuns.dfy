/** Theorems over whole interleavings of one inserter and any number of searches. */
module SkipListRuns {
  import opened Keys
  import opened Entries
  import opened SkipList

  lemma {:induction false} StepKeepsInv(s: State, a: Action)
    requires Inv(s) && Enabled(s, a)
    ensures Inv(Apply(s, a))
  {
    hide ListOk, WriterSearch, Load, Advance, Less, Before, SameVersion, IsNext, IsLeast, Increasing;
    match a
    case BeginInsert(e) =>
    case WriterLoad(node, height) => SearchStep(s, node, height);
    case StoreOwn => StoreStep(s);
    case Link => LinkStep(s);
    case BeginSearch(target) =>
    case ReaderLoad(i) => LoadKeepsReader(s.m, s.linked, s.readers[i]);
    case BeginWalk(from) => WalkBegins(s, from);
    case WalkLoad(i) => AdvanceKeepsWalk(s.m, s.linked, s.walks[i]);
  }

  lemma {:induction false} WalkBegins(s: State, from: nat)
    requires Inv(s) && Enabled(s, BeginWalk(from))
    ensures WalkOk(s.m, s.linked[0], Walk(from, from, [], false, s.linked[0]))
  {
    hide Less, Before, ReaderOk, WriterOk, IsNext;
    assert Chained(s.m, s.linked[0], 0);
  }

  ghost predicate Legal(run: seq<Action>)
    decreases |run|, 0
  {
    run != [] ==> Legal(run[..|run| - 1]) && Enabled(After(run[..|run| - 1]), run[|run| - 1])
  }

  ghost function After(run: seq<Action>): State
    requires Legal(run)
    decreases |run|, 1
  {
    if run == [] then EMPTY else Apply(After(run[..|run| - 1]), run[|run| - 1])
  }

  lemma {:induction false} EmptyInv()
    ensures Inv(EMPTY)
  {
    forall l: nat | l < MAX_LEVEL ensures Chained(EMPTY.m, EMPTY.linked[l], l) && EMPTY.linked[l] == {} { }
  }

  lemma {:induction false} RunKeepsInv(run: seq<Action>)
    requires Legal(run)
    ensures Inv(After(run))
  {
    if run == [] {
      EmptyInv();
    } else {
      hide Inv, Enabled, Apply;
      RunKeepsInv(run[..|run| - 1]);
      StepKeepsInv(After(run[..|run| - 1]), run[|run| - 1]);
    }
  }

  lemma {:induction false} LegalPrefix(run: seq<Action>, t: nat)
    requires Legal(run) && t <= |run|
    ensures Legal(run[..t])
    decreases |run|
  {
    hide Enabled, After;
    if t < |run| {
      LegalPrefix(run[..|run| - 1], t);
      assert run[..|run| - 1][..t] == run[..t];
    } else {
      assert run[..t] == run;
    }
  }

  /** Level 0 only grows, and node keys never change. */
  lemma {:induction false} Grows(s: State, a: Action)
    requires Inv(s) && Enabled(s, a)
    ensures |Apply(s, a).linked| == MAX_LEVEL && s.linked[0] <= Apply(s, a).linked[0]
    ensures s.m.keys.Keys <= Apply(s, a).m.keys.Keys && forall x :: x in s.m.keys ==>
              Apply(s, a).m.keys[x] == s.m.keys[x]
    ensures |s.readers| <= |Apply(s, a).readers|
    ensures forall i :: 0 <= i < |s.readers| ==>
              var r, r' := s.readers[i], Apply(s, a).readers[i]; r'.since == r.since && r'.target == r.target
    ensures |s.walks| <= |Apply(s, a).walks|
    ensures forall i :: 0 <= i < |s.walks| ==>
              var wk, wk' := s.walks[i], Apply(s, a).walks[i]; wk'.since == wk.since && wk'.start == wk.start
  {
    hide ListOk, WriterOk, ReaderOk, WalkOk, Less, Before, SameVersion;
  }

  /** A search knows what level 0 held when it began. */
  lemma {:induction false} SinceIsStart(run: seq<Action>, t: nat, target: Entry)
    requires Legal(run) && t < |run| && run[t] == BeginSearch(target)
    ensures Legal(run[..t])
    ensures var s0, s, i := After(run[..t]), After(run), |After(run[..t]).readers|;
            && |s0.linked| == MAX_LEVEL && i < |s.readers| && s.readers[i].since == s0.linked[0]
                 && s.readers[i].target == target
            && forall x :: x in s0.m.keys ==> x in s.m.keys && s.m.keys[x] == s0.m.keys[x]
    decreases |run|
  {
    hide Inv, WriterSearch, Load;
    LegalPrefix(run, t);
    var init, a := run[..|run| - 1], run[|run| - 1];
    RunKeepsInv(init);
    Grows(After(init), a);
    if t < |init| {
      assert init[..t] == run[..t];
      SinceIsStart(init, t, target);
    }
  }

  /**
   * Linearizability of a search: what it returns is the least node at or past its target on level 0 at
   * the moment of its last load, whatever the inserter did in between.
   */
  lemma {:induction false} LastLoadDecides(run: seq<Action>, i: nat)
    requires Legal(run) && Enabled(After(run), ReaderLoad(i))
    ensures var s, r := After(run), Apply(After(run), ReaderLoad(i)).readers[i];
            r.Done? ==> s.linked[0] <= s.m.keys.Keys && IsLeast(s.m, s.linked[0], r.target, r.result)
  {
    hide Less, Before, IsLeast, ListOk, WriterOk;
    RunKeepsInv(run);
    var s := After(run);
    LoadKeepsReader(s.m, s.linked, s.readers[i]);
  }

  /** A key linked before the search began is found, in every interleaving. */
  lemma {:induction false} LinkedKeysAreFound(run: seq<Action>, t: nat, target: Entry, z: nat)
    requires Legal(run) && t < |run| && run[t] == BeginSearch(target) && Legal(run[..t])
    requires |After(run[..t]).linked| == MAX_LEVEL && z in After(run[..t]).linked[0] && z in After(run[..t]).m.keys
    requires SameVersion(After(run[..t]).m.keys[z], target)
    ensures var s, i := After(run), |After(run[..t]).readers|;
            i < |s.readers| && (s.readers[i].Done? ==>
              s.readers[i].result.Some? && s.readers[i].result.value in s.m.keys
              && SameVersion(s.m.keys[s.readers[i].result.value], target))
  {
    hide Less, Before, ListOk, WriterOk, SameVersion;
    RunKeepsInv(run);
    SinceIsStart(run, t, target);
    var s, i := After(run), |After(run[..t]).readers|;
    if s.readers[i].Done? { PresentIsFound(s.m, s.linked, s.readers[i], z); }
  }

  // ---- insertions ---------------------------------------------------------------------------------------

  /** A node with this version is linked on level 0. */
  ghost predicate Present(s: State, e: Entry) {
    |s.linked| == MAX_LEVEL && exists z :: z in s.linked[0] && z in s.m.keys && SameVersion(s.m.keys[z], e)
  }

  /** The inserter is at work on this entry. */
  ghost predicate Underway(s: State, e: Entry) {
    || (s.w.Finding? && s.w.e == e)
    || (s.w.Linking? && s.w.node in s.m.keys && s.m.keys[s.w.node] == e)
  }

  lemma {:induction false} PresentStays(s: State, a: Action, e: Entry)
    requires Inv(s) && Enabled(s, a) && Present(s, e)
    ensures Present(Apply(s, a), e)
  {
    hide Inv, SameVersion, Apply;
    Grows(s, a);
    var z :| z in s.linked[0] && z in s.m.keys && SameVersion(s.m.keys[z], e);
    assert z in Apply(s, a).linked[0];
  }

  /** A step of the inserter goes on with its entry, or leaves it linked. */
  lemma {:induction false} InsertGoesOn(s: State, a: Action, e: Entry)
    requires Inv(s) && Enabled(s, a) && Underway(s, e)
    ensures Present(Apply(s, a), e) || Underway(Apply(s, a), e)
  {
    hide ReaderOk, WalkOk, Less, Before, IsNext, Load, Advance, NoTwins, PrevsOk;
    var s' := Apply(s, a);
    if a.WriterLoad? {
      var w := s.w;
      var o := NextOf(s.m, w.x, w.level);
      assert Chained(s.m, s.linked[w.level], w.level);
      if s'.w.Idle? {
        NextIsNode(s.m, s.linked[0], w.x, o);
        assert o.value in s'.linked[0] && SameVersion(s'.m.keys[o.value], e);
      }
    } else if a.Link? && s'.w.Idle? {
      assert s.w.node in s'.linked[0] && SameVersion(s'.m.keys[s.w.node], e);
    }
  }

  /**
   * In every interleaving an insertion, once the inserter is done with it, has left its entry on
   * level 0, or an equivalent one was there; and it stays.
   */
  lemma {:induction false} InsertsAreLinked(run: seq<Action>, t: nat, e: Entry)
    requires Legal(run) && t < |run| && run[t] == BeginInsert(e)
    ensures Present(After(run), e) || Underway(After(run), e)
    ensures After(run).w.Idle? ==> Present(After(run), e)
    decreases |run|
  {
    hide Inv, Enabled, Present;
    var init, a := run[..|run| - 1], run[|run| - 1];
    RunKeepsInv(init);
    if t < |init| {
      InsertsAreLinked(init, t, e);
      if Present(After(init), e) { PresentStays(After(init), a, e); } else { InsertGoesOn(After(init), a, e); }
    }
  }

  // ---- iterators ----------------------------------------------------------------------------------------

  /** A walk knows where it began and what level 0 held then. */
  lemma {:induction false} WalkStart(run: seq<Action>, t: nat, from: nat)
    requires Legal(run) && t < |run| && run[t] == BeginWalk(from)
    ensures Legal(run[..t])
    ensures var s0, s, i := After(run[..t]), After(run), |After(run[..t]).walks|;
            && |s0.linked| == MAX_LEVEL && i < |s.walks| && s.walks[i].since == s0.linked[0] && s.walks[i].start == from
            && forall x :: x in s0.m.keys ==> x in s.m.keys && s.m.keys[x] == s0.m.keys[x]
    decreases |run|
  {
    hide Inv, WriterSearch, Load, Advance;
    LegalPrefix(run, t);
    var init, a := run[..|run| - 1], run[|run| - 1];
    RunKeepsInv(init);
    Grows(After(init), a);
    if t < |init| {
      assert init[..t] == run[..t];
      WalkStart(init, t, from);
    }
  }

  /**
   * An iterator that runs while the inserter inserts yields strictly increasing keys, each of a node
   * linked on level 0, and once it has come to the end it has visited every node past its start that
   * was linked when it began.
   */
  lemma {:induction false} WalksMissNothing(run: seq<Action>, t: nat, from: nat)
    requires Legal(run) && t < |run| && run[t] == BeginWalk(from) && Legal(run[..t])
    ensures var s0, s, i := After(run[..t]), After(run), |After(run[..t]).walks|;
            && |s0.linked| == |s.linked| == MAX_LEVEL && i < |s.walks|
            && Increasing(s.m, from, s.walks[i].visited)
            && (forall a :: 0 <= a < |s.walks[i].visited| ==> s.walks[i].visited[a] in s.linked[0])
            && (s.walks[i].ended ==>
                forall z :: z in s0.linked[0] && z in s.m.keys && KeyBefore(s.m, from, s.m.keys[z]) ==>
                  z in s.walks[i].visited)
  {
    hide Less, Before, WriterOk, SameVersion, Increasing;
    RunKeepsInv(run);
    WalkStart(run, t, from);
  }
}
