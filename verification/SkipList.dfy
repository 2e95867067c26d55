/**
 * The skiplist under one writer and any number of lock-free readers, as interleaved atomic loads and
 * stores of next pointers. Nodes are numbered; their keys are entries in internal-key order.
 */
module SkipList {
  import opened Bytes
  import opened Keys
  import opened Entries

  const MAX_LEVEL: nat := 12

  /** The sentinel: before every key, and never a successor. */
  const HEAD: nat := 0

  /** Node keys, and each node's successor per level; a pointer never stored is null. */
  datatype Memory = Memory(keys: map<nat, Entry>, next: map<(nat, nat), Option<nat>>)

  function NextOf(m: Memory, x: nat, level: nat): Option<nat> {
    if (x, level) in m.next then m.next[(x, level)] else None
  }

  predicate IsNode(m: Memory, x: nat) {
    x == HEAD || x in m.keys
  }

  predicate KeyBefore(m: Memory, x: nat, e: Entry)
    requires IsNode(m, x)
  {
    x == HEAD || Before(m.keys[x], e)
  }

  // ---- levels -------------------------------------------------------------------------------------------

  /** `o` is what comes right after `x` among the nodes of `s`. */
  ghost predicate IsNext(m: Memory, s: set<nat>, x: nat, o: Option<nat>)
    requires s <= m.keys.Keys && IsNode(m, x)
  {
    match o
    case None => forall z :: z in s ==> !KeyBefore(m, x, m.keys[z])
    case Some(y) =>
      && y in s && KeyBefore(m, x, m.keys[y])
      && forall z :: z in s && KeyBefore(m, x, m.keys[z]) ==> z == y || Before(m.keys[y], m.keys[z])
  }

  /** The nodes of `s` are linked in order on this level. */
  ghost predicate Chained(m: Memory, s: set<nat>, level: nat) {
    && s <= m.keys.Keys && HEAD !in s
    && forall x :: x == HEAD || x in s ==> IsNext(m, s, x, NextOf(m, x, level))
  }

  /** No two nodes of `s` carry equivalent keys. */
  ghost predicate NoTwins(m: Memory, s: set<nat>)
    requires s <= m.keys.Keys
  {
    forall x, z :: x in s && z in s && x != z ==> !SameVersion(m.keys[x], m.keys[z])
  }

  /** Every level is a chain, and each level's nodes are among those of the level below. */
  ghost predicate ListOk(m: Memory, linked: seq<set<nat>>) {
    && |linked| == MAX_LEVEL
    && (forall l: nat :: l < MAX_LEVEL ==> Chained(m, linked[l], l))
    && (forall l: nat :: l + 1 < MAX_LEVEL ==> linked[l + 1] <= linked[l])
    && NoTwins(m, linked[0])
  }

  // ---- readers ------------------------------------------------------------------------------------------

  /**
   * A search: where it is, and `since`, what level 0 held when it began. Once done, `seen` is what
   * level 0 held at its last load.
   */
  datatype Reader =
    | Searching(target: Entry, x: nat, level: nat, since: set<nat>)
    | Done(target: Entry, result: Option<nat>, since: set<nat>, seen: set<nat>)

  /** One iteration of `FindGreaterOrEqual`: a single load. */
  function Load(m: Memory, r: Reader, level0: set<nat>): Reader
    requires r.Searching?
  {
    var o := NextOf(m, r.x, r.level);
    if o.Some? && o.value in m.keys && Before(m.keys[o.value], r.target) then r.(x := o.value)
    else if r.level == 0 then Done(r.target, o, r.since, level0)
    else r.(level := r.level - 1)
  }

  /** `o` is the least node of `s` whose key is not before the target. */
  ghost predicate IsLeast(m: Memory, s: set<nat>, target: Entry, o: Option<nat>)
    requires s <= m.keys.Keys
  {
    match o
    case None => forall z :: z in s ==> Before(m.keys[z], target)
    case Some(y) =>
      && y in s && !Before(m.keys[y], target)
      && forall z :: z in s && !Before(m.keys[z], target) ==> z == y || Before(m.keys[y], m.keys[z])
  }

  ghost predicate ReaderOk(m: Memory, linked: seq<set<nat>>, r: Reader)
    requires |linked| == MAX_LEVEL
  {
    match r
    case Searching(target, x, level, since) =>
      && level < MAX_LEVEL && (x == HEAD || x in linked[level]) && IsNode(m, x) && KeyBefore(m, x, target)
      && since <= linked[0]
    case Done(target, result, since, seen) =>
      since <= seen <= linked[0] && seen <= m.keys.Keys && IsLeast(m, seen, target, result)
  }

  /** A load keeps the search on track; the last one returns the least node at or past the target. */
  lemma {:induction false} LoadKeepsReader(m: Memory, linked: seq<set<nat>>, r: Reader)
    requires ListOk(m, linked) && r.Searching? && ReaderOk(m, linked, r)
    ensures ReaderOk(m, linked, Load(m, r, linked[0]))
  {
    hide Less;
    assert Chained(m, linked[r.level], r.level);
    assert IsNext(m, linked[r.level], r.x, NextOf(m, r.x, r.level));
    LessIsStrictTotalOrder();
    assert r.level > 0 ==> linked[(r.level - 1) + 1] <= linked[r.level - 1];
  }

  /** A key linked before the search began is found. */
  lemma {:induction false} PresentIsFound(m: Memory, linked: seq<set<nat>>, r: Reader, z: nat)
    requires |linked| == MAX_LEVEL && r.Done? && ReaderOk(m, linked, r)
    requires z in r.since && SameVersion(m.keys[z], r.target)
    ensures r.result.Some? && r.result.value in m.keys && SameVersion(m.keys[r.result.value], r.target)
  {
    hide Less;
    LessIsStrictTotalOrder();
    assert z in r.seen && !Before(m.keys[z], r.target);
  }

  // ---- walks --------------------------------------------------------------------------------------------

  /**
   * An iterator that goes along level 0 from `start`, the head or a node a search returned: where it
   * is, what it has visited, and `since`, what level 0 held when it began.
   */
  datatype Walk = Walk(start: nat, x: nat, visited: seq<nat>, ended: bool, since: set<nat>)

  /** `Next` and `SeekToFirst`: a single load. */
  function Advance(m: Memory, wk: Walk): Walk {
    match NextOf(m, wk.x, 0)
    case None => wk.(ended := true)
    case Some(y) => wk.(x := y, visited := wk.visited + [y])
  }

  /** The nodes carry strictly increasing keys, all past `start`. */
  ghost predicate Increasing(m: Memory, start: nat, visited: seq<nat>) {
    && IsNode(m, start)
         && (forall a :: 0 <= a < |visited| ==> visited[a] in m.keys && KeyBefore(m, start, m.keys[visited[a]]))
    && forall a, b :: 0 <= a < b < |visited| ==> Before(m.keys[visited[a]], m.keys[visited[b]])
  }

  ghost predicate WalkOk(m: Memory, level0: set<nat>, wk: Walk) {
    && level0 <= m.keys.Keys && wk.since <= level0
    && (wk.start == HEAD || wk.start in level0) && IsNode(m, wk.start)
    && Increasing(m, wk.start, wk.visited) && (forall a :: 0 <= a < |wk.visited| ==> wk.visited[a] in level0)
    && wk.x == (if wk.visited == [] then wk.start else wk.visited[|wk.visited| - 1])
    && forall z :: z in wk.since && KeyBefore(m, wk.start, m.keys[z]) ==>
         z in wk.visited || (!wk.ended && IsNode(m, wk.x) && KeyBefore(m, wk.x, m.keys[z]))
  }

  /** A load keeps the order, and leaves out nothing that was there when the walk began. */
  lemma {:induction false} AdvanceKeepsWalk(m: Memory, linked: seq<set<nat>>, wk: Walk)
    requires ListOk(m, linked) && WalkOk(m, linked[0], wk) && !wk.ended
    ensures WalkOk(m, linked[0], Advance(m, wk))
  {
    hide Before, NextOf, IsNext, Increasing;
    assert Chained(m, linked[0], 0);
    var o := NextOf(m, wk.x, 0);
    NextIsClosest(m, linked[0], wk.x, o);
    if o.Some? { VisitedNext(m, wk, o.value); }
  }

  lemma {:induction false} NextIsClosest(m: Memory, s: set<nat>, x: nat, o: Option<nat>)
    requires s <= m.keys.Keys && IsNode(m, x) && IsNext(m, s, x, o)
    ensures o.None? ==> forall z :: z in s ==> !KeyBefore(m, x, m.keys[z])
    ensures o.Some? ==>
              && o.value in s && KeyBefore(m, x, m.keys[o.value])
              && forall z :: z in s && KeyBefore(m, x, m.keys[z]) ==> z == o.value || KeyBefore(m, o.value, m.keys[z])
  {
    hide Before;
  }

  lemma {:induction false} VisitedNext(m: Memory, wk: Walk, y: nat)
    requires Increasing(m, wk.start, wk.visited) && y in m.keys && IsNode(m, wk.x) && KeyBefore(m, wk.x, m.keys[y])
    requires wk.x == (if wk.visited == [] then wk.start else wk.visited[|wk.visited| - 1]) && HEAD !in wk.visited
    ensures Increasing(m, wk.start, wk.visited + [y])
  {
    hide Less;
    LessIsStrictTotalOrder();
  }

  // ---- the writer ---------------------------------------------------------------------------------------

  /**
   * `Insert`: first it searches, noting the predecessor on each level; then, bottom-up, it stores the
   * new node's own pointer and links the node behind its predecessor, one level at a time.
   */
  datatype Writer =
    | Idle
    | Finding(e: Entry, x: nat, level: nat, prev: map<nat, nat>)
    | Linking(node: nat, height: nat, level: nat, prev: map<nat, nat>, stored: bool)

  /** `p` is the last node of `s` before `e`. */
  ghost predicate IsPrev(m: Memory, s: set<nat>, p: nat, e: Entry)
    requires s <= m.keys.Keys
  {
    && (p == HEAD || p in s) && KeyBefore(m, p, e)
    && forall z :: z in s && KeyBefore(m, p, m.keys[z]) ==> !Before(m.keys[z], e)
  }

  ghost predicate PrevsOk(m: Memory, linked: seq<set<nat>>, prev: map<nat, nat>, e: Entry, lo: nat, hi: nat)
    requires |linked| == MAX_LEVEL && hi <= MAX_LEVEL
  {
    forall j: nat :: lo <= j < hi ==> linked[j] <= m.keys.Keys && j in prev && IsPrev(m, linked[j], prev[j], e)
  }

  ghost predicate WriterOk(m: Memory, linked: seq<set<nat>>, w: Writer)
    requires |linked| == MAX_LEVEL
  {
    match w
    case Idle => true
    case Finding(e, x, level, prev) =>
      && level < MAX_LEVEL && (x == HEAD || x in linked[level]) && IsNode(m, x) && KeyBefore(m, x, e)
      && PrevsOk(m, linked, prev, e, level + 1, MAX_LEVEL)
    case Linking(node, height, level, prev, stored) =>
      && level < height <= MAX_LEVEL && node in m.keys && node != HEAD
      && (forall j: nat :: j < MAX_LEVEL ==> (node in linked[j] <==> j < level))
      && PrevsOk(m, linked, prev, m.keys[node], level, height)
      && (forall z :: z in linked[0] && z != node ==> z in m.keys && !SameVersion(m.keys[z], m.keys[node]))
      && (stored ==> NextOf(m, node, level) == NextOf(m, prev[level], level))
  }

  datatype State = State(m: Memory, linked: seq<set<nat>>, w: Writer, readers: seq<Reader>, walks: seq<Walk>)

  datatype Action =
    | BeginInsert(e: Entry)
    | WriterLoad(node: nat, height: nat)
    | StoreOwn
    | Link
    | BeginSearch(target: Entry)
    | ReaderLoad(i: nat)
    | BeginWalk(from: nat)
    | WalkLoad(i: nat)

  const EMPTY: State := State(Memory(map[], map[]), [{}, {}, {}, {}, {}, {}, {}, {}, {}, {}, {}, {}], Idle, [], [])

  ghost predicate Enabled(s: State, a: Action) {
    && |s.linked| == MAX_LEVEL
    && match a
       case BeginInsert(e) => s.w.Idle?
       case WriterLoad(node, height) => s.w.Finding? && node != HEAD && node !in s.m.keys && 1 <= height <= MAX_LEVEL
       case StoreOwn => s.w.Linking? && !s.w.stored && s.w.level in s.w.prev
       case Link => s.w.Linking? && s.w.stored && s.w.level in s.w.prev && s.w.level < MAX_LEVEL
       case BeginSearch(target) => true
       case ReaderLoad(i) => i < |s.readers| && s.readers[i].Searching?
       case BeginWalk(from) => from == HEAD || from in s.linked[0]
       case WalkLoad(i) => i < |s.walks| && !s.walks[i].ended
  }

  /** One load of the writer's search; at the bottom it stops at a duplicate or allocates the node. */
  function WriterSearch(s: State, node: nat, height: nat): State
    requires s.w.Finding?
  {
    var o := NextOf(s.m, s.w.x, s.w.level);
    if o.Some? && o.value in s.m.keys && Before(s.m.keys[o.value], s.w.e) then s.(w := s.w.(x := o.value))
    else
      var prev := s.w.prev[s.w.level := s.w.x];
      if s.w.level > 0 then s.(w := Finding(s.w.e, s.w.x, s.w.level - 1, prev))
      else if o.Some? && o.value in s.m.keys && SameVersion(s.m.keys[o.value], s.w.e) then s.(w := Idle)
      else s.(m := s.m.(keys := s.m.keys[node := s.w.e]), w := Linking(node, height, 0, prev, false))
  }

  ghost function Apply(s: State, a: Action): State
    requires Enabled(s, a)
  {
    match a
    case BeginInsert(e) => s.(w := Finding(e, HEAD, MAX_LEVEL - 1, map[]))
    case WriterLoad(node, height) => WriterSearch(s, node, height)
    case StoreOwn =>
      s.(m := s.m.(next := s.m.next[(s.w.node, s.w.level) := NextOf(s.m, s.w.prev[s.w.level], s.w.level)]),
         w := s.w.(stored := true))
    case Link =>
      s.(m := s.m.(next := s.m.next[(s.w.prev[s.w.level], s.w.level) := Some(s.w.node)]),
         linked := s.linked[s.w.level := s.linked[s.w.level] + {s.w.node}],
         w := if s.w.level + 1 == s.w.height then Idle else s.w.(level := s.w.level + 1, stored := false))
    case BeginSearch(target) => s.(readers := s.readers + [Searching(target, HEAD, MAX_LEVEL - 1, s.linked[0])])
    case ReaderLoad(i) => s.(readers := s.readers[i := Load(s.m, s.readers[i], s.linked[0])])
    case BeginWalk(from) => s.(walks := s.walks + [Walk(from, from, [], false, s.linked[0])])
    case WalkLoad(i) => s.(walks := s.walks[i := Advance(s.m, s.walks[i])])
  }

  ghost predicate Inv(s: State) {
    && ListOk(s.m, s.linked) && WriterOk(s.m, s.linked, s.w)
    && (forall i :: 0 <= i < |s.readers| ==> ReaderOk(s.m, s.linked, s.readers[i]))
    && forall i :: 0 <= i < |s.walks| ==> WalkOk(s.m, s.linked[0], s.walks[i])
  }

  // ---- each step keeps the invariant --------------------------------------------------------------------

  /** More keys, or pointers of unlinked nodes, change nothing for what is linked. */
  ghost predicate SameLinks(m: Memory, m': Memory, linked: seq<set<nat>>)
    requires |linked| == MAX_LEVEL
  {
    && m.keys.Keys <= m'.keys.Keys && (forall x :: x in m.keys ==> m'.keys[x] == m.keys[x])
    && forall l: nat, x :: l < MAX_LEVEL && (x == HEAD || x in linked[l]) ==> NextOf(m', x, l) == NextOf(m, x, l)
  }

  lemma {:induction false} SameLinksKeepChain(m: Memory, m': Memory, linked: seq<set<nat>>, l: nat)
    requires |linked| == MAX_LEVEL && SameLinks(m, m', linked) && l < MAX_LEVEL && Chained(m, linked[l], l)
    ensures Chained(m', linked[l], l)
  {
    hide Before, NextOf;
    forall x | x == HEAD || x in linked[l] ensures IsNext(m', linked[l], x, NextOf(m', x, l)) {
      assert IsNext(m, linked[l], x, NextOf(m, x, l));
    }
  }

  lemma {:induction false} SameLinksKeepList(m: Memory, m': Memory, linked: seq<set<nat>>)
    requires ListOk(m, linked) && SameLinks(m, m', linked)
    ensures ListOk(m', linked)
  {
    hide IsNext, SameVersion;
    forall l: nat | l < MAX_LEVEL ensures Chained(m', linked[l], l) {
      assert Chained(m, linked[l], l);
      SameLinksKeepChain(m, m', linked, l);
    }
    assert Chained(m, linked[0], 0);
  }

  lemma {:induction false} SameKeysKeepReader(
    m: Memory, m': Memory, linked: seq<set<nat>>, linked': seq<set<nat>>, r: Reader)
    requires |linked| == |linked'| == MAX_LEVEL && forall l :: 0 <= l < MAX_LEVEL ==> linked[l] <= linked'[l]
    requires m.keys.Keys <= m'.keys.Keys && (forall x :: x in m.keys ==> m'.keys[x] == m.keys[x])
    requires ReaderOk(m, linked, r)
    ensures ReaderOk(m', linked', r)
  {
    hide Before;
  }

  lemma {:induction false} SameKeysKeepWalk(m: Memory, m': Memory, level0: set<nat>, level0': set<nat>, wk: Walk)
    requires level0 <= level0' <= m'.keys.Keys && WalkOk(m, level0, wk)
    requires m.keys.Keys <= m'.keys.Keys && (forall x :: x in m.keys ==> m'.keys[x] == m.keys[x])
    ensures WalkOk(m', level0', wk)
  {
    hide Before;
  }

  /** Readers and walks of `s` stay on track in a later memory. */
  lemma {:induction false} OthersStay(s: State, m': Memory, linked': seq<set<nat>>)
    requires Inv(s) && ListOk(m', linked') && forall l :: 0 <= l < MAX_LEVEL ==> s.linked[l] <= linked'[l]
    requires s.m.keys.Keys <= m'.keys.Keys && (forall x :: x in s.m.keys ==> m'.keys[x] == s.m.keys[x])
    ensures forall i :: 0 <= i < |s.readers| ==> ReaderOk(m', linked', s.readers[i])
    ensures forall i :: 0 <= i < |s.walks| ==> WalkOk(m', linked'[0], s.walks[i])
  {
    hide ReaderOk, WalkOk, WriterOk, IsNext;
    assert Chained(m', linked'[0], 0);
    forall i | 0 <= i < |s.readers| ensures ReaderOk(m', linked', s.readers[i]) {
      SameKeysKeepReader(s.m, m', s.linked, linked', s.readers[i]);
    }
    forall i | 0 <= i < |s.walks| ensures WalkOk(m', linked'[0], s.walks[i]) {
      SameKeysKeepWalk(s.m, m', s.linked[0], linked'[0], s.walks[i]);
    }
  }

  lemma {:induction false} SearchStep(s: State, node: nat, height: nat)
    requires Inv(s) && Enabled(s, WriterLoad(node, height))
    ensures Inv(WriterSearch(s, node, height))
  {
    hide Less, ReaderOk, WalkOk, IsNext, SameVersion;
    var w := s.w;
    assert Chained(s.m, s.linked[w.level], w.level);
    var o := NextOf(s.m, w.x, w.level);
    assert IsNext(s.m, s.linked[w.level], w.x, o);
    assert w.level > 0 ==> s.linked[(w.level - 1) + 1] <= s.linked[w.level - 1];
    if o.Some? { NextIsNode(s.m, s.linked[w.level], w.x, o); }
    if !(o.Some? && Before(s.m.keys[o.value], w.e)) {
      StopsAtPrev(s.m, s.linked[w.level], w.x, o, w.e);
      if w.level == 0 && !(o.Some? && SameVersion(s.m.keys[o.value], w.e)) { AllocateStep(s, node, height, o); }
    }
  }

  lemma {:induction false} NextIsNode(m: Memory, s: set<nat>, x: nat, o: Option<nat>)
    requires s <= m.keys.Keys && IsNode(m, x) && o.Some? && IsNext(m, s, x, o)
    ensures o.value in s
  {
  }

  /** Where the search stops going right it stands on the last node before `e`. */
  lemma {:induction false} StopsAtPrev(m: Memory, s: set<nat>, x: nat, o: Option<nat>, e: Entry)
    requires s <= m.keys.Keys && (x == HEAD || x in s) && IsNext(m, s, x, o) && KeyBefore(m, x, e)
    requires o.Some? ==> o.value in m.keys && !Before(m.keys[o.value], e)
    ensures IsPrev(m, s, x, e)
    ensures forall z :: z in s && SameVersion(m.keys[z], e) ==> o.Some? && SameVersion(m.keys[o.value], e)
  {
    hide Less;
    LessIsStrictTotalOrder();
  }

  lemma {:induction false} AllocateStep(s: State, node: nat, height: nat, o: Option<nat>)
    requires Inv(s) && Enabled(s, WriterLoad(node, height)) && s.w.level == 0 && o == NextOf(s.m, s.w.x, 0)
    requires !(o.Some? && o.value in s.m.keys
               && (Before(s.m.keys[o.value], s.w.e) || SameVersion(s.m.keys[o.value], s.w.e)))
    requires s.linked[0] <= s.m.keys.Keys && IsPrev(s.m, s.linked[0], s.w.x, s.w.e)
    requires forall z :: z in s.linked[0] && SameVersion(s.m.keys[z], s.w.e) ==>
               o.Some? && o.value in s.m.keys && SameVersion(s.m.keys[o.value], s.w.e)
    ensures Inv(WriterSearch(s, node, height))
  {
    hide Less, Before, ReaderOk, WalkOk, IsNext, SameVersion, Chained;
    var s' := WriterSearch(s, node, height);
    forall l: nat | l < MAX_LEVEL ensures s.linked[l] <= s.m.keys.Keys { ChainNodes(s.m, s.linked[l], l); }
    SameLinksKeepList(s.m, s'.m, s.linked);
    OthersStay(s, s'.m, s.linked);
  }

  lemma {:induction false} ChainNodes(m: Memory, s: set<nat>, level: nat)
    requires Chained(m, s, level)
    ensures s <= m.keys.Keys && HEAD !in s
  {
  }

  lemma {:induction false} StoreStep(s: State)
    requires Inv(s) && Enabled(s, StoreOwn)
    ensures Inv(Apply(s, StoreOwn))
  {
    hide Less, Before, ReaderOk, WalkOk, IsNext, SameVersion, Chained, Load, Advance;
    var s' := Apply(s, StoreOwn);
    SameLinksKeepList(s.m, s'.m, s.linked);
    OthersStay(s, s'.m, s.linked);
  }

  // ---- linking ------------------------------------------------------------------------------------------

  /** The new node goes right behind the last node before it, and nothing else moves. */
  lemma {:induction false} LinkKeepsChain(m: Memory, m': Memory, s: set<nat>, level: nat, p: nat, node: nat)
    requires Chained(m, s, level) && NoTwins(m, s) && node in m.keys && node != HEAD && node !in s
    requires IsPrev(m, s, p, m.keys[node]) && NextOf(m, node, level) == NextOf(m, p, level)
    requires forall z :: z in s ==> !SameVersion(m.keys[z], m.keys[node])
    requires m'.keys == m.keys && NextOf(m', p, level) == Some(node) && forall x :: x != p ==>
               NextOf(m', x, level) == NextOf(m, x, level)
    ensures Chained(m', s + {node}, level)
  {
    hide Less, NextOf, IsNext;
    forall x | x == HEAD || x in s + {node} ensures IsNext(m', s + {node}, x, NextOf(m', x, level)) {
      assert x != node ==> IsNext(m, s, x, NextOf(m, x, level));
      assert IsNext(m, s, p, NextOf(m, p, level));
      if x == p { NextOfPrev(m, m', s, p, node); }
      else if x == node { NextOfNode(m, m', s, p, node, NextOf(m, p, level)); }
      else { NextOfOther(m, m', s, p, node, x, NextOf(m, x, level)); }
    }
  }

  lemma {:induction false} NextOfPrev(m: Memory, m': Memory, s: set<nat>, p: nat, node: nat)
    requires s <= m.keys.Keys && node in m.keys && node !in s && IsPrev(m, s, p, m.keys[node]) && m'.keys == m.keys
    requires forall z :: z in s ==> !SameVersion(m.keys[z], m.keys[node])
    ensures IsNext(m', s + {node}, p, Some(node))
  {
    hide Less;
    LessIsStrictTotalOrder();
  }

  lemma {:induction false} NextOfNode(m: Memory, m': Memory, s: set<nat>, p: nat, node: nat, o: Option<nat>)
    requires s <= m.keys.Keys && node in m.keys && node !in s && node != HEAD && IsPrev(m, s, p, m.keys[node])
               && m'.keys == m.keys
    requires forall z :: z in s ==> !SameVersion(m.keys[z], m.keys[node])
    requires IsNext(m, s, p, o)
    ensures IsNext(m', s + {node}, node, o)
  {
    hide Less;
    LessIsStrictTotalOrder();
  }

  lemma {:induction false} NextOfOther(m: Memory, m': Memory, s: set<nat>, p: nat, node: nat, x: nat, o: Option<nat>)
    requires s <= m.keys.Keys && HEAD !in s && NoTwins(m, s) && node in m.keys && node !in s && m'.keys == m.keys
    requires IsPrev(m, s, p, m.keys[node]) && (x == HEAD || x in s) && x != p
    requires forall z :: z in s ==> !SameVersion(m.keys[z], m.keys[node])
    requires IsNext(m, s, x, o)
    ensures IsNext(m', s + {node}, x, o)
  {
    hide Less;
    LessIsStrictTotalOrder();
  }

  lemma {:induction false} LinkStep(s: State)
    requires Inv(s) && Enabled(s, Link)
    ensures Inv(Apply(s, Link))
  {
    hide Less, Before, ReaderOk, WalkOk, IsNext, SameVersion, Load, Advance;
    var s' := Apply(s, Link);
    var w, p := s.w, s.w.prev[s.w.level];
    LinkKeepsList(s);
    OthersStay(s, s'.m, s'.linked);
  }

  lemma {:induction false} LinkKeepsList(s: State)
    requires Inv(s) && Enabled(s, Link)
    ensures ListOk(Apply(s, Link).m, Apply(s, Link).linked)
  {
    hide Less, Before, ReaderOk, WalkOk, IsNext, Load, Advance, KeyBefore;
    var s' := Apply(s, Link);
    var w, p := s.w, s.w.prev[s.w.level];
    forall l: nat | l + 1 < MAX_LEVEL
      ensures s'.linked[l + 1] <= s'.linked[l]
    {
      assert s.linked[l + 1] <= s.linked[l];
    }
    forall l: nat | l < MAX_LEVEL ensures Chained(s'.m, s'.linked[l], l) {
      assert Chained(s.m, s.linked[l], l);
      if l == w.level {
        TwinsBelow(s.m, s.linked, l);
        LinkKeepsChain(s.m, s'.m, s.linked[l], l, p, w.node);
      } else {
        OtherLevel(s.m, s'.m, s.linked[l], l);
      }
    }
  }

  lemma {:induction false} OtherLevel(m: Memory, m': Memory, s: set<nat>, l: nat)
    requires Chained(m, s, l) && m'.keys == m.keys && forall x :: NextOf(m', x, l) == NextOf(m, x, l)
    ensures Chained(m', s, l)
  {
    hide Before, NextOf;
    forall x | x == HEAD || x in s ensures IsNext(m', s, x, NextOf(m', x, l)) {
      assert IsNext(m, s, x, NextOf(m, x, l));
    }
  }

  /** Higher levels hold nodes of level 0, so they have no twins either. */
  lemma {:induction false} TwinsBelow(m: Memory, linked: seq<set<nat>>, l: nat)
    requires ListOk(m, linked) && l < MAX_LEVEL
    ensures linked[l] <= linked[0] && linked[l] <= m.keys.Keys && NoTwins(m, linked[l])
    decreases l
  {
    hide SameVersion, IsNext;
    assert Chained(m, linked[0], 0);
    if l > 0 {
      TwinsBelow(m, linked, l - 1);
      assert linked[(l - 1) + 1] <= linked[l - 1];
    }
  }
}
