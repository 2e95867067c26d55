/** How long searches, iterators and insertions can take, whatever they are interleaved with. */
module SkipListProgress {
  import opened Keys
  import opened Entries
  import opened Sets
  import opened SkipList
  import opened SkipListRuns

  /** Nodes of `s` behind `x` and before `e`. */
  ghost function Between(m: Memory, s: set<nat>, x: nat, e: Entry): set<nat>
    requires s <= m.keys.Keys && IsNode(m, x)
  {
    set z | z in s && KeyBefore(m, x, m.keys[z]) && Before(m.keys[z], e)
  }

  /** Nodes of `s` behind `x`. */
  ghost function Beyond(m: Memory, s: set<nat>, x: nat): set<nat>
    requires s <= m.keys.Keys && IsNode(m, x)
  {
    set z | z in s && KeyBefore(m, x, m.keys[z])
  }

  /** A step to the right leaves less in front. */
  lemma {:induction false} LessAhead(m: Memory, s: set<nat>, x: nat, y: nat, e: Entry)
    requires s <= m.keys.Keys && HEAD !in s && IsNode(m, x) && y in s && KeyBefore(m, x, m.keys[y])
    ensures |Beyond(m, s, y)| < |Beyond(m, s, x)|
    ensures Before(m.keys[y], e) ==> |Between(m, s, y, e)| < |Between(m, s, x, e)|
  {
    hide Less;
    LessIsStrictTotalOrder();
    assert y in Beyond(m, s, x) && y !in Beyond(m, s, y);
    SmallerSet(Beyond(m, s, y), Beyond(m, s, x));
    if Before(m.keys[y], e) {
      assert y in Between(m, s, x, e) && y !in Between(m, s, y, e);
      SmallerSet(Between(m, s, y, e), Between(m, s, x, e));
    }
  }

  /** The same nodes with the same keys, and perhaps one more: at most one more in front. */
  lemma {:induction false} OneMoreAhead(m: Memory, m': Memory, s: set<nat>, s': set<nat>, x: nat, e: Entry, node: nat)
    requires s <= m.keys.Keys && s <= s' <= s + {node} && s' <= m'.keys.Keys && IsNode(m, x)
    requires m.keys.Keys <= m'.keys.Keys && forall z :: z in m.keys ==> m'.keys[z] == m.keys[z]
    ensures |Between(m', s', x, e)| + |s| <= |Between(m, s, x, e)| + |s'|
    ensures |Beyond(m', s', x)| + |s| <= |Beyond(m, s, x)| + |s'|
  {
    hide Before;
    if s' == s {
      assert Between(m', s', x, e) == Between(m, s, x, e) && Beyond(m', s', x) == Beyond(m, s, x);
    } else {
      assert s' == s + {node} && |s'| == |s| + 1;
      SubsetIsNoLarger(Between(m', s', x, e), Between(m, s, x, e) + {node});
      SubsetIsNoLarger(Beyond(m', s', x), Beyond(m, s, x) + {node});
    }
  }

  // ---- searches -------------------------------------------------------------------------------------------

  /** How many loads a search can still need if nothing is inserted. */
  ghost function LoadsLeft(m: Memory, level0: set<nat>, r: Reader): nat
    requires level0 <= m.keys.Keys && (r.Searching? ==> IsNode(m, r.x))
  {
    if r.Done? then 0 else 1 + r.level + |Between(m, level0, r.x, r.target)|
  }

  lemma {:induction false} LoadProgresses(m: Memory, linked: seq<set<nat>>, r: Reader)
    requires ListOk(m, linked) && r.Searching? && ReaderOk(m, linked, r)
    ensures linked[0] <= m.keys.Keys && (Load(m, r, linked[0]).Searching? ==> IsNode(m, Load(m, r, linked[0]).x))
    ensures LoadsLeft(m, linked[0], Load(m, r, linked[0])) < LoadsLeft(m, linked[0], r)
  {
    hide Before, IsNext, IsLeast;
    assert Chained(m, linked[0], 0) && Chained(m, linked[r.level], r.level);
    TwinsBelow(m, linked, r.level);
    var o := NextOf(m, r.x, r.level);
    NextIsClosest(m, linked[r.level], r.x, o);
    if o.Some? { LessAhead(m, linked[0], r.x, o.value, r.target); }
  }

  ghost function Loads(run: seq<Action>, i: nat): nat {
    if run == [] then 0 else Loads(run[..|run| - 1], i) + if run[|run| - 1] == ReaderLoad(i) then 1 else 0
  }

  lemma {:induction false} NoLoadsYet(run: seq<Action>, i: nat)
    requires Legal(run) && i >= |After(run).readers|
    ensures Loads(run, i) == 0
  {
    if run != [] {
      hide Inv, WriterSearch, Load, Advance;
      var init := run[..|run| - 1];
      RunKeepsInv(init);
      Grows(After(init), run[|run| - 1]);
      NoLoadsYet(init, i);
    }
  }

  /**
   * In every interleaving a search has taken no more loads, and needs no more, than there are levels
   * plus nodes inserted so far. Only insertions can lengthen it.
   */
  lemma {:induction false} SearchIsBounded(run: seq<Action>, i: nat)
    requires Legal(run) && i < |After(run).readers|
    ensures var s := After(run);
            && |s.linked| == MAX_LEVEL && s.linked[0] <= s.m.keys.Keys
            && (s.readers[i].Searching? ==> IsNode(s.m, s.readers[i].x))
            && Loads(run, i) + LoadsLeft(s.m, s.linked[0], s.readers[i]) <= MAX_LEVEL + |s.linked[0]|
  {
    hide Inv, Enabled, Apply, Between, Beyond;
    RunKeepsInv(run);
    NodesOf(After(run));
    var init, a := run[..|run| - 1], run[|run| - 1];
    var s := After(init);
    RunKeepsInv(init);
    NodesOf(s);
    if i < |s.readers| {
      SearchIsBounded(init, i);
      ReaderStep(s, a, i);
    } else {
      NoLoadsYet(init, i);
      FirstLoads(s, a, i);
    }
  }

  lemma {:induction false} NodesOf(s: State)
    requires Inv(s)
    ensures |s.linked| == MAX_LEVEL && s.linked[0] <= s.m.keys.Keys && HEAD !in s.linked[0]
    ensures forall i :: 0 <= i < |s.readers| && s.readers[i].Searching? ==> IsNode(s.m, s.readers[i].x)
    ensures forall i :: 0 <= i < |s.walks| ==> IsNode(s.m, s.walks[i].x)
  {
    hide WriterOk, IsNext, Before, SameVersion;
    assert Chained(s.m, s.linked[0], 0);
  }

  /** Level 0 gains at most one node in a step, and keys stay. */
  lemma {:induction false} OneNodeAtATime(s: State, a: Action) returns (node: nat)
    requires Inv(s) && Enabled(s, a)
    ensures var s' := Apply(s, a);
            && |s'.linked| == MAX_LEVEL && s.linked[0] <= s'.linked[0] <= s.linked[0] + {node}
            && s.m.keys.Keys <= s'.m.keys.Keys && forall z :: z in s.m.keys ==> s'.m.keys[z] == s.m.keys[z]
  {
    hide ListOk, WriterOk, ReaderOk, WalkOk, Before, SameVersion, Load, Advance;
    node := if s.w.Linking? then s.w.node else 0;
  }

  lemma {:induction false} ReaderStep(s: State, a: Action, i: nat)
    requires Inv(s) && Enabled(s, a) && Inv(Apply(s, a)) && i < |s.readers|
    ensures var s' := Apply(s, a);
            && |s.linked| == |s'.linked| == MAX_LEVEL && i < |s'.readers|
            && s.linked[0] <= s.m.keys.Keys && s'.linked[0] <= s'.m.keys.Keys
            && (s.readers[i].Searching? ==> IsNode(s.m, s.readers[i].x))
            && (s'.readers[i].Searching? ==> IsNode(s'.m, s'.readers[i].x))
            && LoadsLeft(s'.m, s'.linked[0], s'.readers[i]) + |s.linked[0]| + (if a == ReaderLoad(i) then 1 else 0)
                 <= LoadsLeft(s.m, s.linked[0], s.readers[i]) + |s'.linked[0]|
  {
    hide ListOk, WriterOk, ReaderOk, WalkOk, Before, SameVersion, Load, Advance, Between;
    var s' := Apply(s, a);
    NodesOf(s);
    NodesOf(s');
    if a == ReaderLoad(i) {
      LoadProgresses(s.m, s.linked, s.readers[i]);
    } else {
      var node := OneNodeAtATime(s, a);
      var r := s.readers[i];
      assert s'.readers[i] == r;
      if r.Searching? { OneMoreAhead(s.m, s'.m, s.linked[0], s'.linked[0], r.x, r.target, node); }
      else { SubsetIsNoLarger(s.linked[0], s'.linked[0]); }
    }
  }

  lemma {:induction false} FirstLoads(s: State, a: Action, i: nat)
    requires Inv(s) && Enabled(s, a) && |s.readers| <= i < |Apply(s, a).readers|
    requires s.linked[0] <= s.m.keys.Keys
    ensures a.BeginSearch? && Apply(s, a).m == s.m && Apply(s, a).linked == s.linked
    ensures var r := Apply(s, a).readers[i];
            (r.Searching? ==> IsNode(s.m, r.x)) && LoadsLeft(s.m, s.linked[0], r) <= MAX_LEVEL + |s.linked[0]|
  {
    hide Inv, Load, Advance, Before;
    SubsetIsNoLarger(Between(s.m, s.linked[0], HEAD, a.target), s.linked[0]);
  }

  // ---- iterators ------------------------------------------------------------------------------------------

  /** How many loads an iterator can still need if nothing is inserted. */
  ghost function WalkLeft(m: Memory, level0: set<nat>, wk: Walk): nat
    requires level0 <= m.keys.Keys && IsNode(m, wk.x)
  {
    if wk.ended then 0 else 1 + |Beyond(m, level0, wk.x)|
  }

  lemma {:induction false} AdvanceProgresses(m: Memory, linked: seq<set<nat>>, wk: Walk)
    requires ListOk(m, linked) && WalkOk(m, linked[0], wk) && !wk.ended
    ensures IsNode(m, wk.x) && IsNode(m, Advance(m, wk).x)
    ensures WalkLeft(m, linked[0], Advance(m, wk)) < WalkLeft(m, linked[0], wk)
  {
    hide Before, IsNext, Increasing;
    assert Chained(m, linked[0], 0);
    var o := NextOf(m, wk.x, 0);
    NextIsClosest(m, linked[0], wk.x, o);
    if o.Some? { LessAhead(m, linked[0], wk.x, o.value, m.keys[o.value]); }
  }

  ghost function WalkLoads(run: seq<Action>, i: nat): nat {
    if run == [] then 0 else WalkLoads(run[..|run| - 1], i) + if run[|run| - 1] == WalkLoad(i) then 1 else 0
  }

  lemma {:induction false} NoWalkYet(run: seq<Action>, i: nat)
    requires Legal(run) && i >= |After(run).walks|
    ensures WalkLoads(run, i) == 0
  {
    if run != [] {
      hide Inv, WriterSearch, Load, Advance;
      var init := run[..|run| - 1];
      RunKeepsInv(init);
      Grows(After(init), run[|run| - 1]);
      NoWalkYet(init, i);
    }
  }

  /** In every interleaving an iterator has taken no more loads, and needs no more, than nodes inserted plus one. */
  lemma {:induction false} WalkIsBounded(run: seq<Action>, i: nat)
    requires Legal(run) && i < |After(run).walks|
    ensures var s := After(run);
            && |s.linked| == MAX_LEVEL && s.linked[0] <= s.m.keys.Keys && IsNode(s.m, s.walks[i].x)
            && WalkLoads(run, i) + WalkLeft(s.m, s.linked[0], s.walks[i]) <= 1 + |s.linked[0]|
  {
    hide Inv, Enabled, Apply, Between, Beyond;
    RunKeepsInv(run);
    NodesOf(After(run));
    var init, a := run[..|run| - 1], run[|run| - 1];
    var s := After(init);
    RunKeepsInv(init);
    NodesOf(s);
    if i < |s.walks| {
      WalkIsBounded(init, i);
      WalkStep(s, a, i);
    } else {
      NoWalkYet(init, i);
      FirstWalk(s, a, i);
    }
  }

  lemma {:induction false} WalkStep(s: State, a: Action, i: nat)
    requires Inv(s) && Enabled(s, a) && Inv(Apply(s, a)) && i < |s.walks|
    ensures var s' := Apply(s, a);
            && |s.linked| == |s'.linked| == MAX_LEVEL && i < |s'.walks|
            && s.linked[0] <= s.m.keys.Keys && s'.linked[0] <= s'.m.keys.Keys
            && IsNode(s.m, s.walks[i].x) && IsNode(s'.m, s'.walks[i].x)
            && WalkLeft(s'.m, s'.linked[0], s'.walks[i]) + |s.linked[0]| + (if a == WalkLoad(i) then 1 else 0)
                 <= WalkLeft(s.m, s.linked[0], s.walks[i]) + |s'.linked[0]|
  {
    hide ListOk, WriterOk, ReaderOk, WalkOk, Before, SameVersion, Load, Advance, Beyond;
    var s' := Apply(s, a);
    NodesOf(s);
    NodesOf(s');
    if a == WalkLoad(i) {
      AdvanceProgresses(s.m, s.linked, s.walks[i]);
    } else {
      var node := OneNodeAtATime(s, a);
      var wk := s.walks[i];
      assert s'.walks[i] == wk;
      OneMoreAhead(s.m, s'.m, s.linked[0], s'.linked[0], wk.x, Entry([], 0, Tombstone), node);
      SubsetIsNoLarger(s.linked[0], s'.linked[0]);
    }
  }

  lemma {:induction false} FirstWalk(s: State, a: Action, i: nat)
    requires Inv(s) && Enabled(s, a) && |s.walks| <= i < |Apply(s, a).walks|
    requires s.linked[0] <= s.m.keys.Keys
    ensures a.BeginWalk? && Apply(s, a).m == s.m && Apply(s, a).linked == s.linked
    ensures var wk := Apply(s, a).walks[i];
            IsNode(s.m, wk.x) && WalkLeft(s.m, s.linked[0], wk) <= 1 + |s.linked[0]|
  {
    hide Inv, Load, Advance, Before;
    SubsetIsNoLarger(Beyond(s.m, s.linked[0], a.from), s.linked[0]);
  }

  // ---- insertions -----------------------------------------------------------------------------------------

  /** How many steps an insertion can still need. */
  ghost function StepsLeft(m: Memory, level0: set<nat>, w: Writer): nat
    requires level0 <= m.keys.Keys && (w.Finding? ==> IsNode(m, w.x)) && (w.Linking? ==> w.level < w.height)
  {
    match w
    case Idle => 0
    case Finding(e, x, level, _) => 2 * MAX_LEVEL + 1 + level + |Between(m, level0, x, e)|
    case Linking(_, height, level, _, stored) => 2 * (height - level) - if stored then 1 else 0
  }

  lemma {:induction false} WriterStands(s: State)
    requires Inv(s)
    ensures (s.w.Finding? ==> IsNode(s.m, s.w.x)) && (s.w.Linking? ==> s.w.level < s.w.height <= MAX_LEVEL)
    ensures s.w.Finding? ==> s.w.level < MAX_LEVEL
  {
    hide ListOk, ReaderOk, WalkOk, Before, SameVersion;
  }

  /**
   * Every step of the inserter brings it closer to its end, which from its first step on is no more
   * than three steps per level and one per node away; nothing else makes it longer.
   */
  lemma {:induction false} InsertProgresses(s: State, a: Action)
    requires Inv(s) && Enabled(s, a) && Inv(Apply(s, a))
    ensures var s' := Apply(s, a);
            && |s.linked| == |s'.linked| == MAX_LEVEL
            && s.linked[0] <= s.m.keys.Keys && s'.linked[0] <= s'.m.keys.Keys
            && (s.w.Finding? ==> IsNode(s.m, s.w.x)) && (s.w.Linking? ==> s.w.level < s.w.height)
            && (s'.w.Finding? ==> IsNode(s'.m, s'.w.x)) && (s'.w.Linking? ==> s'.w.level < s'.w.height)
            && var before, after := StepsLeft(s.m, s.linked[0], s.w), StepsLeft(s'.m, s'.linked[0], s'.w);
               if a.BeginInsert? then after <= 3 * MAX_LEVEL + |s.linked[0]|
               else if a.WriterLoad? || a.StoreOwn? || a.Link? then after < before
               else after == before
  {
    hide ListOk, WriterOk, ReaderOk, WalkOk, Before, SameVersion, Load, Advance, Between, WriterSearch;
    var s' := Apply(s, a);
    NodesOf(s);
    NodesOf(s');
    WriterStands(s);
    WriterStands(s');
    match a
    case BeginInsert(e) => BetweenIsPart(s.m, s.linked[0], HEAD, e);
    case WriterLoad(node, height) => FindingProgresses(s, node, height);
    case _ =>
  }

  lemma {:induction false} BetweenIsPart(m: Memory, s: set<nat>, x: nat, e: Entry)
    requires s <= m.keys.Keys && IsNode(m, x)
    ensures |Between(m, s, x, e)| <= |s|
  {
    SubsetIsNoLarger(Between(m, s, x, e), s);
  }

  lemma {:induction false} FindingProgresses(s: State, node: nat, height: nat)
    requires Inv(s) && Enabled(s, WriterLoad(node, height)) && Inv(WriterSearch(s, node, height))
    ensures var s' := WriterSearch(s, node, height);
            && |s.linked| == |s'.linked| == MAX_LEVEL
            && s.linked[0] <= s.m.keys.Keys && s'.linked[0] <= s'.m.keys.Keys && IsNode(s.m, s.w.x)
            && (s'.w.Finding? ==> IsNode(s'.m, s'.w.x)) && (s'.w.Linking? ==> s'.w.level < s'.w.height)
            && StepsLeft(s'.m, s'.linked[0], s'.w) < StepsLeft(s.m, s.linked[0], s.w)
  {
    hide ReaderOk, WalkOk, Before, SameVersion, IsNext, PrevsOk;
    NodesOf(s);
    WriterStands(s);
    WriterStands(WriterSearch(s, node, height));
    var w := s.w;
    assert Chained(s.m, s.linked[w.level], w.level);
    TwinsBelow(s.m, s.linked, w.level);
    var o := NextOf(s.m, w.x, w.level);
    NextIsClosest(s.m, s.linked[w.level], w.x, o);
    if o.Some? { LessAhead(s.m, s.linked[0], w.x, o.value, w.e); }
  }

  // ---- nothing waits --------------------------------------------------------------------------------------

  lemma {:induction false} OneStepMore(run: seq<Action>, a: Action)
    requires Legal(run) && Enabled(After(run), a)
    ensures Legal(run + [a]) && After(run + [a]) == Apply(After(run), a)
  {
    hide Enabled, Apply;
    assert (run + [a])[..|run|] == run;
  }

  /**
   * In every interleaving a search or an iterator may begin, each one that runs may load, and the
   * inserter may begin or take its next step: none waits for another.
   */
  lemma {:induction false} NothingWaits(run: seq<Action>, target: Entry, from: nat, e: Entry, node: nat, height: nat)
    requires Legal(run)
    ensures Legal(run + [BeginSearch(target)])
    ensures var s := After(run);
            && |s.linked| == MAX_LEVEL && (from == HEAD || from in s.linked[0] ==> Legal(run + [BeginWalk(from)]))
            && (forall i: nat :: i < |s.readers| && s.readers[i].Searching? ==> Legal(run + [ReaderLoad(i)]))
            && (forall i: nat :: i < |s.walks| && !s.walks[i].ended ==> Legal(run + [WalkLoad(i)]))
            && match s.w
               case Idle => Legal(run + [BeginInsert(e)])
               case Finding(_, _, _, _) =>
                 node != HEAD && node !in s.m.keys && 1 <= height <= MAX_LEVEL ==>
                   Legal(run + [WriterLoad(node, height)])
               case Linking(_, _, _, _, stored) => if stored then Legal(run + [Link]) else Legal(run + [StoreOwn])
  {
    hide Inv, Apply, After, Legal;
    var s := After(run);
    RunKeepsInv(run);
    NodesOf(s);
    PrevIsKnown(s);
    OneStepMore(run, BeginSearch(target));
    if from == HEAD || from in s.linked[0] { OneStepMore(run, BeginWalk(from)); }
    forall i: nat | i < |s.readers| && s.readers[i].Searching? ensures Legal(run + [ReaderLoad(i)]) {
      OneStepMore(run, ReaderLoad(i));
    }
    forall i: nat | i < |s.walks| && !s.walks[i].ended ensures Legal(run + [WalkLoad(i)]) {
      OneStepMore(run, WalkLoad(i));
    }
    match s.w
    case Idle => OneStepMore(run, BeginInsert(e));
    case Finding(_, _, _, _) =>
      if node != HEAD && node !in s.m.keys && 1 <= height <= MAX_LEVEL { OneStepMore(run, WriterLoad(node, height)); }
    case Linking(_, _, _, _, stored) => OneStepMore(run, if stored then Link else StoreOwn);
  }

  lemma {:induction false} PrevIsKnown(s: State)
    requires Inv(s)
    ensures s.w.Linking? ==> s.w.level in s.w.prev && s.w.level < MAX_LEVEL
  {
    hide ListOk, ReaderOk, WalkOk, Before, SameVersion, IsPrev;
  }
}
