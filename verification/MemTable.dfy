/** The memtable: its entry encoding, and the skiplist operations one at a time. */
module MemTable {
  import opened Bytes
  import opened Keys
  import opened Entries
  import opened InternalKeys
  import opened SkipList

  // ---- encoded entries ------------------------------------------------------------------------------------

  const LEN_PREFIX: nat := 4

  /** Key length, key, tag, value. */
  function Encode(k: Key, tag: nat, value: Bytes): Bytes {
    Fixed32(|k|) + k + Fixed64(tag) + value
  }

  function EncodeEntry(e: Entry): Bytes {
    Encode(e.key, e.seqno * 256 + TypeOf(e), if e.slot.Put? then e.slot.value else [])
  }

  /** The target of a lookup: tag all ones for the latest read. */
  function Target(k: Key, r: nat): Bytes {
    Encode(k, if r >= MAX_SEQ then U64 - 1 else r * 256 + 255, [])
  }

  ghost predicate Encoded(a: Bytes) {
    |a| >= LEN_PREFIX + TAG_SIZE && LEN_PREFIX + GetFixed32(a, 0) + TAG_SIZE <= |a|
  }

  function KeyPart(a: Bytes): Key
    requires Encoded(a)
  {
    a[LEN_PREFIX..LEN_PREFIX + GetFixed32(a, 0)]
  }

  function TagPart(a: Bytes): nat
    requires Encoded(a)
  {
    GetFixed64(a, LEN_PREFIX + GetFixed32(a, 0))
  }

  function ValuePart(a: Bytes): Bytes
    requires Encoded(a)
  {
    a[LEN_PREFIX + GetFixed32(a, 0) + TAG_SIZE..]
  }

  /** `MemTable::Comparator`: the value takes no part. */
  predicate Compare(a: Bytes, b: Bytes)
    requires Encoded(a) && Encoded(b)
  {
    if KeyPart(a) != KeyPart(b) then Less(KeyPart(a), KeyPart(b)) else TagPart(a) > TagPart(b)
  }

  lemma {:induction false} EncodeFields(k: Key, tag: nat, value: Bytes)
    requires |k| < U32 && tag < U64
    ensures var a := Encode(k, tag, value);
            Encoded(a) && KeyPart(a) == k && TagPart(a) == tag && ValuePart(a) == value
  {
    hide Fixed32, Fixed64, FromLittleEndian;
    var a := Encode(k, tag, value);
    assert a[0..4] == Fixed32(|k|);
    assert a[4..4 + |k|] == k;
    assert a[4 + |k|..4 + |k| + 8] == Fixed64(tag);
    assert a[4 + |k| + 8..] == value;
  }

  /** The comparator orders encoded entries as entries, and puts a target where the read point is. */
  lemma {:induction false} ComparatorIsEntryOrder(a: Entry, b: Entry, r: nat)
    requires Storable(a) && Storable(b) && |a.key| < U32 && |b.key| < U32 && ReadPoint(r)
    ensures Encoded(EncodeEntry(a)) && Encoded(EncodeEntry(b)) && Encoded(Target(b.key, r))
    ensures Compare(EncodeEntry(a), EncodeEntry(b)) <==>
              Before(a, b) || (SameVersion(a, b) && a.slot.Put? && b.slot.Tombstone?)
    ensures Compare(EncodeEntry(a), Target(b.key, r)) <==> Before(a, Entry(b.key, r, Tombstone))
  {
    hide Less, Encode, Encoded, KeyPart, TagPart;
    EncodeFields(a.key, a.seqno * 256 + TypeOf(a), if a.slot.Put? then a.slot.value else []);
    EncodeFields(b.key, b.seqno * 256 + TypeOf(b), if b.slot.Put? then b.slot.value else []);
    EncodeFields(b.key, if r >= MAX_SEQ then U64 - 1 else r * 256 + 255, []);
    LessIsStrictTotalOrder();
  }

  /** `ForEach` and the iterator read an entry back as it was put. */
  function DecodeEntry(a: Bytes): Entry
    requires Encoded(a)
  {
    Entry(KeyPart(a), TagPart(a) / 256, if TagPart(a) % 256 == TYPE_VALUE then Put(ValuePart(a)) else Tombstone)
  }

  lemma {:induction false} EntryRoundTrip(e: Entry)
    requires Storable(e) && |e.key| < U32
    ensures Encoded(EncodeEntry(e)) && DecodeEntry(EncodeEntry(e)) == e
  {
    hide Encode, Encoded, KeyPart, TagPart, ValuePart;
    EncodeFields(e.key, e.seqno * 256 + TypeOf(e), if e.slot.Put? then e.slot.value else []);
  }

  // ---- the list -------------------------------------------------------------------------------------------

  /** Nodes right of `x`. */
  ghost function RightOf(m: Memory, s: set<nat>, x: nat): set<nat>
    requires s <= m.keys.Keys && IsNode(m, x)
  {
    set z | z in s && KeyBefore(m, x, m.keys[z])
  }

  lemma {:induction false} StepNarrows(m: Memory, s: set<nat>, x: nat, y: nat)
    requires s <= m.keys.Keys && IsNode(m, x) && y in s && KeyBefore(m, x, m.keys[y]) && y != HEAD
    ensures |RightOf(m, s, y)| < |RightOf(m, s, x)|
  {
    hide Less;
    LessIsStrictTotalOrder();
    var a, b := RightOf(m, s, y), RightOf(m, s, x);
    assert y in b && y !in a && a <= b;
    Smaller(a, b, y);
  }

  lemma {:induction false} Smaller(a: set<nat>, b: set<nat>, y: nat)
    requires a <= b && y in b && y !in a
    ensures |a| < |b|
  {
    assert b == (b - a) + a && y in b - a;
  }

  class SkipListTable {
    var m: Memory
    var nodes: nat
    ghost var linked: seq<set<nat>>

    ghost predicate Valid()
      reads this
    {
      && ListOk(m, linked) && linked[0] == m.keys.Keys && forall x :: x in m.keys ==> x <= nodes
    }

    /** The entries inserted so far. */
    ghost function Elements(): set<Entry>
      reads this
    {
      set x | x in m.keys :: m.keys[x]
    }

    constructor ()
      ensures Valid() && Elements() == {}
    {
      m, nodes, linked := Memory(map[], map[]), 0, EMPTY.linked;
      new;
      assert forall l: nat :: l < MAX_LEVEL ==> Chained(m, linked[l], l) && linked[l] == {};
    }

    /** The first node at or past the target, and the last node before it on every level. */
    method FindGreaterOrEqual(target: Entry) returns (o: Option<nat>, prev: map<nat, nat>)
      requires Valid()
      ensures IsLeast(m, linked[0], target, o) && PrevsOk(m, linked, prev, target, 0, MAX_LEVEL)
      ensures forall z :: z in linked[0] && SameVersion(m.keys[z], target) ==>
                o.Some? && SameVersion(m.keys[o.value], target)
      ensures 0 in prev && o == NextOf(m, prev[0], 0)
    {
      hide Less, Before, SameVersion, IsNext, NoTwins;
      var x, level: nat := HEAD, MAX_LEVEL - 1;
      prev := map[];
      while true
        invariant level < MAX_LEVEL && (x == HEAD || x in linked[level]) && IsNode(m, x) && KeyBefore(m, x, target)
        invariant PrevsOk(m, linked, prev, target, level + 1, MAX_LEVEL) && linked[level] <= m.keys.Keys
        decreases level, |RightOf(m, linked[level], x)|
      {
        assert Chained(m, linked[level], level);
        o := NextOf(m, x, level);
        assert IsNext(m, linked[level], x, o);
        NextFacts(m, linked[level], x, o, target);
        if o.Some? && Before(m.keys[o.value], target) {
          StepNarrows(m, linked[level], x, o.value);
          x := o.value;
        } else {
          StopsAtPrev(m, linked[level], x, o, target);
          prev := prev[level := x];
          if level == 0 { return; }
          assert linked[(level - 1) + 1] <= linked[level - 1] && Chained(m, linked[level - 1], level - 1);
          level := level - 1;
        }
      }
    }

    /** Inserts in order unless an equivalent entry is there. */
    method Insert(e: Entry, height: nat) returns (added: bool)
      requires Valid() && 1 <= height <= MAX_LEVEL
      modifies this
      ensures Valid()
      ensures added <==> forall x :: x in old(Elements()) ==> !SameVersion(x, e)
      ensures Elements() == if added then old(Elements()) + {e} else old(Elements())
    {
      hide Less, Before, SameVersion, ListOk, PrevsOk, NextOf;
      var o, prev := FindGreaterOrEqual(e);
      Duplicates(e, o);
      if o.Some? && SameVersion(m.keys[o.value], e) { return false; }
      ghost var m0 := m;
      StartLinking(m, linked, e, nodes + 1, height, prev, o);
      nodes := nodes + 1;
      var node := nodes;
      m := m.(keys := m.keys[node := e]);
      LinkIn(node, height, prev);
      assert m.keys == m0.keys[node := e];
      Extended(m0, m, node, e);
      added := true;
    }

    lemma {:induction false} Duplicates(e: Entry, o: Option<nat>)
      requires Valid() && IsLeast(m, linked[0], e, o)
      requires forall z :: z in linked[0] && SameVersion(m.keys[z], e) ==> o.Some? && SameVersion(m.keys[o.value], e)
      ensures o.Some? ==> o.value in m.keys
      ensures o.Some? && SameVersion(m.keys[o.value], e) <==> exists x :: x in Elements() && SameVersion(x, e)
    {
      hide SameVersion, Before;
      if o.Some? { assert m.keys[o.value] in Elements(); }
    }

    /** Links the new node level by level, bottom-up. */
    method LinkIn(node: nat, height: nat, prev: map<nat, nat>)
      requires height >= 1 && Inv(State(m, linked, Linking(node, height, 0, prev, false), [], []))
                 && linked[0] == m.keys.Keys - {node}
      requires forall x :: x in m.keys ==> x <= nodes
      modifies this`m, this`linked
      ensures Valid() && m.keys == old(m.keys)
    {
      hide Inv;
      LinkingFacts(State(m, linked, Linking(node, height, 0, prev, false), [], []));
      var level: nat := 0;
      while level < height
        invariant level <= height && m.keys == old(m.keys)
        invariant level < height ==> Inv(State(m, linked, Linking(node, height, level, prev, false), [], []))
        invariant level == height ==> Inv(State(m, linked, Idle, [], []))
        invariant |linked| == MAX_LEVEL && linked[0] == if level == 0 then m.keys.Keys - {node} else m.keys.Keys
      {
        ghost var s := State(m, linked, Linking(node, height, level, prev, false), [], []);
        LinkingFacts(s);
        StoreStep(s);
        m := m.(next := m.next[(node, level) := NextOf(m, prev[level], level)]);
        ghost var s1 := Apply(s, StoreOwn);
        assert s1 == State(m, linked, Linking(node, height, level, prev, true), [], []);
        LinkStep(s1);
        m := m.(next := m.next[(prev[level], level) := Some(node)]);
        linked := linked[level := linked[level] + {node}];
        level := level + 1;
      }
      IdleFacts(State(m, linked, Idle, [], []));
    }

    method Contains(e: Entry) returns (r: bool)
      requires Valid()
      ensures r <==> exists x :: x in Elements() && SameVersion(x, e)
    {
      var o, prev := FindGreaterOrEqual(e);
      Duplicates(e, o);
      r := o.Some? && SameVersion(m.keys[o.value], e);
    }

    /** `MemTable::Get`: the newest version visible at `r`, a deletion mark included. */
    method Get(k: Key, r: nat) returns (found: Option<Entry>)
      requires Valid()
      ensures found.None? ==> NothingVisible(Elements(), k, r)
      ensures found.Some? ==> IsTop(Elements(), k, r, found.value)
    {
      var o, prev := FindGreaterOrEqual(Entry(k, r, Tombstone));
      LeastIsTop(k, r, o);
      if o.None? || m.keys[o.value].key != k { return None; }
      return Some(m.keys[o.value]);
    }

    lemma {:induction false} LeastIsTop(k: Key, r: nat, o: Option<nat>)
      requires Valid() && IsLeast(m, linked[0], Entry(k, r, Tombstone), o)
      ensures o.Some? ==> o.value in m.keys
      ensures o.Some? && m.keys[o.value].key == k ==> IsTop(Elements(), k, r, m.keys[o.value])
      ensures !(o.Some? && m.keys[o.value].key == k) ==> NothingVisible(Elements(), k, r)
    {
      hide Less, Chained;
      LessIsStrictTotalOrder();
    }

    /** Walks level 0: every entry once, in internal-key order. */
    method ForEach() returns (es: seq<Entry>)
      requires Valid()
      ensures Sorted(es) && Elems(es) == Elements()
    {
      hide Less, Before, IsNext;
      assert Chained(m, linked[0], 0);
      assert IsNext(m, linked[0], HEAD, NextOf(m, HEAD, 0));
      es := [];
      var at := HEAD;
      var o := NextOf(m, HEAD, 0);
      Nothing(m, linked[0]);
      while o.Some?
        invariant at == HEAD || at in linked[0]
        invariant o == NextOf(m, at, 0) && IsNext(m, linked[0], at, o)
        invariant Sorted(es) && WalkedTo(m, linked[0], at, es)
        decreases |RightOf(m, linked[0], at)|
      {
        NextIsRight(m, linked[0], at, o);
        WalkOn(m, linked[0], at, o.value, es);
        StepNarrows(m, linked[0], at, o.value);
        es := es + [m.keys[o.value]];
        at := o.value;
        o := NextOf(m, at, 0);
        assert IsNext(m, linked[0], at, o);
      }
      WalkedAll(m, linked[0], at, es);
    }
  }

  /** The entries up to and including node `at`. */
  ghost predicate WalkedTo(m: Memory, s: set<nat>, at: nat, es: seq<Entry>)
    requires s <= m.keys.Keys && IsNode(m, at)
  {
    forall e :: e in es <==> exists x :: x in s && m.keys[x] == e && !KeyBefore(m, at, m.keys[x])
  }

  lemma {:induction false} Nothing(m: Memory, s: set<nat>)
    requires s <= m.keys.Keys
    ensures WalkedTo(m, s, HEAD, [])
  {
  }

  lemma {:induction false} NextFacts(m: Memory, s: set<nat>, x: nat, o: Option<nat>, target: Entry)
    requires s <= m.keys.Keys && HEAD !in s && IsNode(m, x) && IsNext(m, s, x, o) && KeyBefore(m, x, target)
    ensures o.Some? ==> o.value in s && o.value != HEAD && KeyBefore(m, x, m.keys[o.value])
    ensures !(o.Some? && Before(m.keys[o.value], target)) ==> IsLeast(m, s, target, o)
  {
    hide Less;
    LessIsStrictTotalOrder();
  }

  lemma {:induction false} NextIsRight(m: Memory, s: set<nat>, x: nat, o: Option<nat>)
    requires s <= m.keys.Keys && HEAD !in s && IsNode(m, x) && IsNext(m, s, x, o)
    ensures o.Some? ==> o.value in s && o.value != HEAD && KeyBefore(m, x, m.keys[o.value])
  {
  }

  lemma {:induction false} StartLinking(
    m: Memory, linked: seq<set<nat>>, e: Entry, node: nat, height: nat, prev: map<nat, nat>, o: Option<nat>)
    requires ListOk(m, linked) && linked[0] == m.keys.Keys && node !in m.keys && node != HEAD
               && 1 <= height <= MAX_LEVEL
    requires PrevsOk(m, linked, prev, e, 0, MAX_LEVEL) && 0 in prev && o == NextOf(m, prev[0], 0)
    requires IsLeast(m, linked[0], e, o) && !(o.Some? && SameVersion(m.keys[o.value], e))
    requires forall z :: z in linked[0] && SameVersion(m.keys[z], e) ==> o.Some? && SameVersion(m.keys[o.value], e)
    ensures Inv(State(m.(keys := m.keys[node := e]), linked, Linking(node, height, 0, prev, false), [], []))
  {
    hide Less, Before, SameVersion, NoTwins, Chained, IsNext;
    var s := State(m, linked, Finding(e, prev[0], 0, prev), [], []);
    assert IsPrev(m, linked[0], prev[0], e);
    assert prev[0 := prev[0]] == prev;
    AllocateStep(s, node, height, o);
  }

  lemma {:induction false} LinkingFacts(s: State)
    requires Inv(s) && s.w.Linking?
    ensures |s.linked| == MAX_LEVEL && s.w.level in s.w.prev && s.w.level < MAX_LEVEL && s.w.node in s.m.keys
  {
    hide Chained, NoTwins, ReaderOk;
  }

  lemma {:induction false} IdleFacts(s: State)
    requires Inv(s)
    ensures ListOk(s.m, s.linked)
  {
    hide ListOk, ReaderOk, WriterOk;
  }

  lemma {:induction false} Extended(m: Memory, m': Memory, node: nat, e: Entry)
    requires node !in m.keys && m'.keys == m.keys[node := e]
    ensures (set x | x in m'.keys :: m'.keys[x]) == (set x | x in m.keys :: m.keys[x]) + {e}
  {
    var a, b := (set x | x in m'.keys :: m'.keys[x]), (set x | x in m.keys :: m.keys[x]) + {e};
    forall y ensures y in a <==> y in b {
      if y in a { var x :| x in m'.keys && m'.keys[x] == y; }
      if y in b && y != e {
        var x :| x in m.keys && m.keys[x] == y;
        assert m'.keys[x] == y;
      }
      assert m'.keys[node] == e;
    }
  }

  /** Each step of the walk adds the next entry and nothing else. */
  lemma {:induction false} WalkOn(m: Memory, s: set<nat>, at: nat, y: nat, es: seq<Entry>)
    requires s <= m.keys.Keys && HEAD !in s && NoTwins(m, s) && (at == HEAD || at in s) && IsNext(m, s, at, Some(y))
    requires Sorted(es) && WalkedTo(m, s, at, es)
    ensures Sorted(es + [m.keys[y]]) && y in s && WalkedTo(m, s, y, es + [m.keys[y]])
  {
    hide Less;
    LessIsStrictTotalOrder();
    var es' := es + [m.keys[y]];
    forall i | 0 <= i < |es| ensures Before(es[i], m.keys[y]) {
      assert es[i] in es;
      var x :| x in s && m.keys[x] == es[i] && !KeyBefore(m, at, m.keys[x]);
    }
    forall e ensures e in es' <==> exists x :: x in s && m.keys[x] == e && !KeyBefore(m, y, m.keys[x]) {
      if exists x :: x in s && m.keys[x] == e && !KeyBefore(m, y, m.keys[x]) {
        var x :| x in s && m.keys[x] == e && !KeyBefore(m, y, m.keys[x]);
        if x == y { assert es'[|es|] == e; } else { assert !KeyBefore(m, at, m.keys[x]); }
      }
      if e in es {
        var x :| x in s && m.keys[x] == e && !KeyBefore(m, at, m.keys[x]);
        assert !KeyBefore(m, y, m.keys[x]);
      }
    }
  }

  lemma {:induction false} WalkedAll(m: Memory, s: set<nat>, at: nat, es: seq<Entry>)
    requires s == m.keys.Keys && IsNode(m, at) && IsNext(m, s, at, None) && WalkedTo(m, s, at, es)
    ensures Elems(es) == set x | x in m.keys :: m.keys[x]
  {
    hide Before;
  }
}
