/** The sharded least-recently-used cache in front of value-log reads. */
module Lru {
  import opened Bytes

  datatype Pair = Pair(key: Bytes, value: Bytes)

  function Weight(s: seq<Pair>): nat {
    if s == [] then 0 else Weight(s[..|s| - 1]) + |s[|s| - 1].value|
  }

  predicate Has(s: seq<Pair>, k: Bytes) {
    exists i :: 0 <= i < |s| && s[i].key == k
  }

  ghost predicate DistinctKeys(s: seq<Pair>) {
    forall i, j :: 0 <= i < j < |s| ==> s[i].key != s[j].key
  }

  /** The set holds exactly the keys of the list. */
  ghost predicate Lists(members: set<Bytes>, s: seq<Pair>) {
    forall k :: k in members <==> Has(s, k)
  }

  function Without(s: seq<Pair>, k: Bytes): seq<Pair> {
    if s == [] then []
    else if s[|s| - 1].key == k then Without(s[..|s| - 1], k)
    else Without(s[..|s| - 1], k) + [s[|s| - 1]]
  }

  lemma {:induction false} WithoutMembers(s: seq<Pair>, k: Bytes)
    ensures forall p :: p in Without(s, k) <==> p in s && p.key != k
  {
    if s != [] {
      WithoutMembers(s[..|s| - 1], k);
      assert s == s[..|s| - 1] + [s[|s| - 1]];
    }
  }

  /** What eviction from the back leaves. */
  function Fit(s: seq<Pair>, cap: nat): seq<Pair> {
    if s == [] || Weight(s) <= cap then s else Fit(s[..|s| - 1], cap)
  }

  lemma {:induction false} WeightOfPrefix(s: seq<Pair>, n: nat)
    requires n <= |s|
    ensures Weight(s[..n]) <= Weight(s)
  {
    if n < |s| {
      WeightOfPrefix(s[..|s| - 1], n);
      assert s[..|s| - 1][..n] == s[..n];
    } else {
      assert s[..n] == s;
    }
  }

  /** Eviction keeps the longest run of most recently used pairs that fits. */
  lemma {:induction false} FitIsLongestPrefix(s: seq<Pair>, cap: nat)
    ensures Fit(s, cap) <= s && Weight(Fit(s, cap)) <= cap
    ensures forall n :: 0 <= n <= |s| && Weight(s[..n]) <= cap ==> n <= |Fit(s, cap)|
  {
    if s != [] && Weight(s) > cap {
      FitIsLongestPrefix(s[..|s| - 1], cap);
      assert s[..|s|] == s;
      forall n | 0 <= n <= |s| && Weight(s[..n]) <= cap ensures n <= |Fit(s, cap)| {
        assert n < |s| ==> s[..|s| - 1][..n] == s[..n];
      }
    }
  }

  /** One value above the shard's share empties the shard, itself included. */
  lemma {:induction false} OversizeEmptiesShard(k: Bytes, v: Bytes, s: seq<Pair>, cap: nat)
    requires |v| > cap
    ensures Fit([Pair(k, v)] + s, cap) == []
  {
    var t := [Pair(k, v)] + s;
    FitIsLongestPrefix(t, cap);
    var n := |Fit(t, cap)|;
    assert t[..1] == [Pair(k, v)];
    WeightOfOne(Pair(k, v));
    assert n > 0 ==> t[..n][..1] == t[..1] && Fit(t, cap) == t[..n];
    if n > 0 { WeightOfPrefix(t[..n], 1); }
  }

  lemma {:induction false} WithoutIsDistinct(s: seq<Pair>, k: Bytes)
    requires DistinctKeys(s)
    ensures DistinctKeys(Without(s, k))
  {
    if s != [] {
      WithoutIsDistinct(s[..|s| - 1], k);
      WithoutMembers(s[..|s| - 1], k);
      var r := Without(s[..|s| - 1], k);
      forall i | 0 <= i < |r| ensures r[i].key != s[|s| - 1].key { assert r[i] in s[..|s| - 1]; }
    }
  }

  lemma {:induction false} WeightConcat(a: seq<Pair>, b: seq<Pair>)
    ensures Weight(a + b) == Weight(a) + Weight(b)
  {
    if b == [] {
      assert a + b == a;
    } else {
      WeightConcat(a, b[..|b| - 1]);
      assert (a + b)[..|a + b| - 1] == a + b[..|b| - 1];
    }
  }

  /** Cutting out the pair of a key that occurs once. */
  lemma {:induction false} WithoutCuts(s: seq<Pair>, i: nat, k: Bytes)
    requires i < |s| && s[i].key == k && forall j :: 0 <= j < |s| && j != i ==> s[j].key != k
    ensures Without(s, k) == s[..i] + s[i + 1..]
  {
    var init := s[..|s| - 1];
    if i == |s| - 1 {
      WithoutNothing(init, k);
      assert s[..i] + s[i + 1..] == init;
    } else {
      WithoutCuts(init, i, k);
      assert init[..i] == s[..i];
      assert s[i + 1..] == init[i + 1..] + [s[|s| - 1]];
      assert s[..i] + s[i + 1..] == (init[..i] + init[i + 1..]) + [s[|s| - 1]];
    }
  }

  lemma {:induction false} WithoutNothing(s: seq<Pair>, k: Bytes)
    requires !Has(s, k)
    ensures Without(s, k) == s
  {
    if s != [] {
      assert forall i :: 0 <= i < |s| ==> s[i].key != k;
      WithoutNothing(s[..|s| - 1], k);
    }
  }

  class Shard {
    var lru: seq<Pair>
    var members: set<Bytes>
    var weight: nat

    constructor ()
      ensures Valid() && lru == [] && weight == 0
    {
      lru, members, weight := [], {}, 0;
    }

    ghost predicate Valid()
      reads this
    {
      DistinctKeys(lru) && weight == Weight(lru) && Lists(members, lru)
    }

    method Position(k: Bytes) returns (i: nat)
      requires Valid() && k in members
      ensures i < |lru| && lru[i].key == k
    {
      i := 0;
      while lru[i].key != k
        invariant i < |lru| && forall j :: 0 <= j < i ==> lru[j].key != k
        decreases |lru| - i
      {
        i := i + 1;
      }
    }

    /** A hit moves to the front; nothing else changes. */
    method Get(k: Bytes) returns (hit: Option<Bytes>)
      requires Valid()
      modifies this
      ensures Valid() && weight == old(weight)
      ensures hit.Some? <==> Has(old(lru), k)
      ensures hit.Some? ==> Pair(k, hit.value) in old(lru) && lru == [Pair(k, hit.value)] + Without(old(lru), k)
      ensures hit.None? ==> lru == old(lru)
    {
      hide Weight, Has;
      if k !in members { return None; }
      var i := Position(k);
      var p := lru[i];
      WithoutCuts(lru, i, k);
      CutWeight(lru, i);
      PutWeight(p, lru[..i] + lru[i + 1..]);
      FullMembers(lru, k, p.value);
      lru := [p] + (lru[..i] + lru[i + 1..]);
      hit := Some(p.value);
    }

    /** Inserts or overwrites at the front, then evicts from the back. */
    method Put(k: Bytes, v: Bytes, cap: nat)
      requires Valid()
      modifies this
      ensures Valid() && weight <= cap
      ensures lru == Fit([Pair(k, v)] + Without(old(lru), k), cap)
    {
      hide Weight, Has, DistinctKeys;
      ghost var full := [Pair(k, v)] + Without(lru, k);
      FullMembers(lru, k, v);
      PutWeight(Pair(k, v), Without(lru, k));
      Placed(k, v);
      if k in members {
        var i := Position(k);
        CutWeight(lru, i);
        weight := weight - |lru[i].value| + |v|;
        lru := [Pair(k, v)] + (lru[..i] + lru[i + 1..]);
      } else {
        lru := [Pair(k, v)] + lru;
        members := members + {k};
        weight := weight + |v|;
      }
      assert lru == full;
      Evict(cap);
    }

    method Evict(cap: nat)
      requires Valid()
      modifies this
      ensures Valid() && weight <= cap && lru == Fit(old(lru), cap)
    {
      hide Has, DistinctKeys, Weight, Lists;
      while weight > cap && lru != []
        invariant Valid() && Fit(lru, cap) == Fit(old(lru), cap)
        decreases |lru|
      {
        var victim := lru[|lru| - 1];
        Dropped(lru, members);
        LastWeight(lru);
        weight := weight - |victim.value|;
        var rest := lru[..|lru| - 1];
        members := members - {victim.key};
        lru := rest;
      }
      NoWeight();
    }

    /** What the list is without `k`, in terms of where `k` is. */
    lemma {:induction false} Placed(k: Bytes, v: Bytes)
      requires Valid()
      ensures k in members ==> forall i :: 0 <= i < |lru| && lru[i].key == k ==>
                Without(lru, k) == lru[..i] + lru[i + 1..]
      ensures k !in members ==> Without(lru, k) == lru
    {
      if k in members {
        forall i | 0 <= i < |lru| && lru[i].key == k ensures Without(lru, k) == lru[..i] + lru[i + 1..] {
          WithoutCuts(lru, i, k);
        }
      } else {
        WithoutNothing(lru, k);
      }
    }
  }

  lemma {:induction false} LastWeight(s: seq<Pair>)
    requires s != []
    ensures Weight(s) == Weight(s[..|s| - 1]) + |s[|s| - 1].value|
  {
  }

  lemma {:induction false} NoWeight()
    ensures Weight([]) == 0
  {
  }

  lemma {:induction false} WeightOfOne(p: Pair)
    ensures Weight([p]) == |p.value|
  {
    assert [p][..0] == [];
  }

  lemma {:induction false} CutWeight(s: seq<Pair>, i: nat)
    requires i < |s|
    ensures Weight(s[..i] + s[i + 1..]) == Weight(s) - |s[i].value|
  {
    hide Weight;
    assert s == s[..i] + ([s[i]] + s[i + 1..]);
    WeightConcat(s[..i], s[i + 1..]);
    WeightConcat(s[..i], [s[i]] + s[i + 1..]);
    WeightConcat([s[i]], s[i + 1..]);
    WeightOfOne(s[i]);
  }

  lemma {:induction false} PutWeight(p: Pair, s: seq<Pair>)
    ensures Weight([p] + s) == |p.value| + Weight(s)
  {
    hide Weight;
    WeightConcat([p], s);
    WeightOfOne(p);
  }

  lemma {:induction false} FullMembers(s: seq<Pair>, k: Bytes, v: Bytes)
    requires DistinctKeys(s)
    ensures DistinctKeys([Pair(k, v)] + Without(s, k))
    ensures forall k' :: Has([Pair(k, v)] + Without(s, k), k') <==> k' == k || Has(s, k')
  {
    WithoutIsDistinct(s, k);
    WithoutMembers(s, k);
    var r := Without(s, k);
    var t := [Pair(k, v)] + r;
    forall k' ensures Has(t, k') <==> k' == k || Has(s, k') {
      if k' == k {
        assert t[0].key == k;
      } else if Has(s, k') {
        var i :| 0 <= i < |s| && s[i].key == k';
        assert s[i] in r;
        var j :| 0 <= j < |r| && r[j] == s[i];
        assert t[j + 1].key == k';
      } else {
        forall j | 0 <= j < |t| ensures t[j].key != k' { assert j > 0 ==> r[j - 1] in s; }
      }
    }
    forall j | 0 < j < |t| ensures t[j].key != k { assert t[j] in r; }
  }

  lemma {:induction false} Dropped(s: seq<Pair>, members: set<Bytes>)
    requires s != [] && DistinctKeys(s) && Lists(members, s)
    ensures DistinctKeys(s[..|s| - 1]) && Lists(members - {s[|s| - 1].key}, s[..|s| - 1])
  {
    var t, last := s[..|s| - 1], s[|s| - 1].key;
    forall k ensures k in members - {last} <==> Has(t, k) {
      if Has(s, k) && k != last {
        var i :| 0 <= i < |s| && s[i].key == k;
        assert t[i].key == k;
      }
      if Has(t, k) {
        var i :| 0 <= i < |t| && t[i].key == k;
        assert s[i].key == k;
      }
    }
  }

  class Cache {
    const shards: seq<Shard>
    const maxWeight: nat
    const shardCap: nat
    const hash: Bytes -> nat

    ghost predicate Valid()
      reads shards
    {
      && shards != []
      && (forall i, j :: 0 <= i < j < |shards| ==> shards[i] != shards[j])
      && shardCap >= 1
      && forall i :: 0 <= i < |shards| ==> shards[i].Valid() && shards[i].weight <= shardCap
    }

    function ShardOf(k: Bytes): (i: nat)
      requires shards != []
      ensures i < |shards|
    {
      hash(k) % |shards|
    }

    /** The cache would answer `k` with `v`. */
    ghost predicate Holds(k: Bytes, v: Bytes)
      reads shards
      requires shards != []
    {
      Pair(k, v) in shards[hash(k) % |shards|].lru
    }

    constructor (n: nat, maxWeight: nat, hash: Bytes -> nat)
      requires n > 0
      ensures Valid() && |shards| == n && fresh(shards) && this.maxWeight == maxWeight && this.hash == hash
      ensures shardCap == if maxWeight < n then 1 else maxWeight / n
      ensures forall k, v :: !Holds(k, v)
    {
      var all := NewShards(n);
      shards, this.maxWeight, this.hash := all, maxWeight, hash;
      shardCap := if maxWeight / n == 0 then 1 else maxWeight / n;
    }

    static method NewShards(n: nat) returns (all: seq<Shard>)
      ensures |all| == n && fresh(all) && forall i, j :: 0 <= i < j < n ==> all[i] != all[j]
      ensures forall i :: 0 <= i < n ==> all[i].Valid() && all[i].lru == [] && all[i].weight == 0
    {
      all := [];
      for i := 0 to n
        invariant |all| == i && fresh(all)
        invariant forall i, j :: 0 <= i < j < |all| ==> all[i] != all[j]
        invariant forall j :: 0 <= j < |all| ==> all[j].Valid() && all[j].lru == [] && all[j].weight == 0
      {
        var s := new Shard();
        all := all + [s];
      }
    }

    method Get(k: Bytes) returns (hit: Option<Bytes>)
      requires Valid()
      modifies shards
      ensures Valid()
      ensures hit.Some? ==> old(Holds(k, hit.value))
      ensures hit.None? ==> forall v :: !old(Holds(k, v))
      ensures forall k', v' :: Holds(k', v') <==> old(Holds(k', v'))
    {
      var s := shards[ShardOf(k)];
      ghost var before := s.lru;
      hit := s.Get(k);
      if hit.Some? { PromotionKeeps(before, k, hit.value); }
      assert forall p :: p in s.lru <==> p in before;
    }

    /**
     * Afterwards a hit for `k` can only be `v`, and every other hit was one before. A value heavier
     * than the whole cache changes nothing; any other goes to the front of its shard, whose most
     * recent pairs stay as long as they fit.
     */
    method Put(k: Bytes, v: Bytes)
      requires Valid()
      modifies shards
      ensures Valid()
      ensures forall k', v' :: Holds(k', v') ==> old(Holds(k', v')) || (k' == k && v' == v)
      ensures |v| <= maxWeight ==> forall v' :: Holds(k, v') ==> v' == v
      ensures |v| <= shardCap && |v| <= maxWeight ==> Holds(k, v)
      ensures forall i :: 0 <= i < |shards| && (|v| > maxWeight || i != hash(k) % |shards|) ==>
                shards[i].lru == old(shards[i].lru)
      ensures |v| <= maxWeight ==>
                var i := hash(k) % |shards|;
                shards[i].lru == Fit([Pair(k, v)] + Without(old(shards[i].lru), k), shardCap)
    {
      hide Fit, Without, Weight, Has, DistinctKeys;
      if |v| > maxWeight { return; }
      var s := shards[ShardOf(k)];
      PutEffect(s.lru, k, v, shardCap);
      s.Put(k, v, shardCap);
    }
  }

  lemma {:induction false} PutEffect(s: seq<Pair>, k: Bytes, v: Bytes, cap: nat)
    ensures var t := Fit([Pair(k, v)] + Without(s, k), cap);
            && (forall p :: p in t ==> p == Pair(k, v) || (p in s && p.key != k))
            && (|v| <= cap ==> Pair(k, v) in t)
  {
    hide Weight, Without;
    var full := [Pair(k, v)] + Without(s, k);
    WithoutMembers(s, k);
    FitIsLongestPrefix(full, cap);
    assert full[..1] == [Pair(k, v)];
    WeightOfOne(Pair(k, v));
    assert |v| <= cap ==> Fit(full, cap)[0] == Pair(k, v);
  }

  lemma {:induction false} PromotionKeeps(s: seq<Pair>, k: Bytes, v: Bytes)
    requires DistinctKeys(s) && Pair(k, v) in s
    ensures forall p :: p in [Pair(k, v)] + Without(s, k) <==> p in s
  {
    WithoutMembers(s, k);
    forall p | p in s && p.key == k ensures p == Pair(k, v) {
      var i :| 0 <= i < |s| && s[i] == p;
      var j :| 0 <= j < |s| && s[j] == Pair(k, v);
      assert i == j;
    }
  }
}
