/** The k-way merge over sorted sources. */
module Merging {
  import opened Keys
  import opened Entries
  import opened Versions

  /** No entry is followed by one that should precede it; equal internal keys may repeat. */
  predicate WeaklySorted(es: seq<Entry>) {
    forall i, j :: 0 <= i < j < |es| ==> !Before(es[j], es[i])
  }

  /** Child `c` is the first one whose head no other head precedes. */
  predicate IsSmallest(rests: seq<seq<Entry>>, c: nat) {
    && c < |rests| && rests[c] != []
    && (forall j :: 0 <= j < |rests| && rests[j] != [] ==> !Before(rests[j][0], rests[c][0]))
    && forall j :: 0 <= j < c && rests[j] != [] ==> Before(rests[c][0], rests[j][0])
  }

  predicate Exhausted(rests: seq<seq<Entry>>) {
    forall j :: 0 <= j < |rests| ==> rests[j] == []
  }

  lemma {:induction false} SmallestIsUnique(rests: seq<seq<Entry>>, c: nat, d: nat)
    requires IsSmallest(rests, c) && IsSmallest(rests, d)
    ensures c == d
  {
  }

  function Total(rests: seq<seq<Entry>>): nat {
    if rests == [] then 0 else |rests[0]| + Total(rests[1..])
  }

  lemma {:induction false} TotalAfterPop(rests: seq<seq<Entry>>, c: nat)
    requires c < |rests| && rests[c] != []
    ensures Total(Pop(rests, c)) == Total(rests) - 1
  {
    if c == 0 {
      assert Pop(rests, c)[1..] == rests[1..];
    } else {
      TotalAfterPop(rests[1..], c - 1);
      assert Pop(rests, c)[1..] == Pop(rests[1..], c - 1);
    }
  }

  function Pop(rests: seq<seq<Entry>>, c: nat): seq<seq<Entry>>
    requires c < |rests| && rests[c] != []
  {
    rests[c := rests[c][1..]]
  }

  /** Some child is smallest, unless all are exhausted. */
  function Smallest(rests: seq<seq<Entry>>): (c: nat)
    requires !Exhausted(rests)
    ensures IsSmallest(rests, c)
  {
    var n := |rests| - 1;
    var init := rests[..n];
    assert forall j :: 0 <= j < n ==> init[j] == rests[j];
    LessIsStrictTotalOrder();
    if Exhausted(init) then n
    else
      var c := Smallest(init);
      if rests[n] != [] && Before(rests[n][0], rests[c][0]) then n else c
  }

  /** What the iterator yields from here on. */
  function Merge(rests: seq<seq<Entry>>): seq<Entry>
    decreases Total(rests)
  {
    if Exhausted(rests) then []
    else
      var c := Smallest(rests);
      TotalAfterPop(rests, c);
      [rests[c][0]] + Merge(Pop(rests, c))
  }

  function Multiset(rests: seq<seq<Entry>>): multiset<Entry> {
    if rests == [] then multiset{} else multiset(rests[0]) + Multiset(rests[1..])
  }

  lemma {:induction false} MultisetAfterPop(rests: seq<seq<Entry>>, c: nat)
    requires c < |rests| && rests[c] != []
    ensures Multiset(rests) == Multiset(Pop(rests, c)) + multiset{rests[c][0]}
  {
    if c == 0 {
      assert rests[0] == [rests[0][0]] + rests[0][1..];
      assert Pop(rests, c)[1..] == rests[1..];
    } else {
      MultisetAfterPop(rests[1..], c - 1);
      assert Pop(rests, c)[1..] == Pop(rests[1..], c - 1);
    }
  }

  lemma {:induction false} ExhaustedIsEmpty(rests: seq<seq<Entry>>)
    requires Exhausted(rests)
    ensures Multiset(rests) == multiset{}
  {
    if rests != [] { ExhaustedIsEmpty(rests[1..]); }
  }

  lemma {:induction false} MultisetMembers(rests: seq<seq<Entry>>, e: Entry)
    ensures e in Multiset(rests) <==> e in TableElems(rests)
  {
    if rests != [] {
      MultisetMembers(rests[1..], e);
      TableElemsCons(rests[0], rests[1..]);
      assert rests == [rests[0]] + rests[1..];
    }
  }

  /** The merge neither loses, invents nor repeats an entry. */
  lemma {:induction false} MergeIsUnion(rests: seq<seq<Entry>>)
    ensures multiset(Merge(rests)) == Multiset(rests)
    decreases Total(rests)
  {
    if Exhausted(rests) {
      ExhaustedIsEmpty(rests);
    } else {
      var c := Smallest(rests);
      TotalAfterPop(rests, c);
      MultisetAfterPop(rests, c);
      MergeIsUnion(Pop(rests, c));
    }
  }

  lemma {:induction false} MergeElems(rests: seq<seq<Entry>>)
    ensures forall e :: e in Merge(rests) <==> e in TableElems(rests)
  {
    MergeIsUnion(rests);
    forall e ensures e in Merge(rests) <==> e in TableElems(rests) {
      MultisetMembers(rests, e);
      assert e in Merge(rests) <==> e in multiset(Merge(rests));
    }
  }

  predicate AllSorted(rests: seq<seq<Entry>>) {
    forall i :: 0 <= i < |rests| ==> Sorted(rests[i])
  }

  lemma {:induction false} PopKeepsSorted(rests: seq<seq<Entry>>, c: nat)
    requires AllSorted(rests) && c < |rests| && rests[c] != []
    ensures AllSorted(Pop(rests, c))
    ensures TableElems(Pop(rests, c)) <= TableElems(rests)
  {
    forall e | e in TableElems(Pop(rests, c)) ensures e in TableElems(rests) {
      var i :| 0 <= i < |rests| && e in Pop(rests, c)[i];
      assert e in rests[i];
    }
  }

  lemma {:induction false} HeadIsLeast(rests: seq<seq<Entry>>, c: nat, e: Entry)
    requires AllSorted(rests) && IsSmallest(rests, c) && e in TableElems(rests)
    ensures !Before(e, rests[c][0])
  {
    var i :| 0 <= i < |rests| && e in rests[i];
    var j :| 0 <= j < |rests[i]| && rests[i][j] == e;
    if Before(e, rests[c][0]) && j > 0 {
      BeforeTransitive(rests[i][0], e, rests[c][0]);
    }
  }

  lemma {:induction false} MergeIsSorted(rests: seq<seq<Entry>>)
    requires AllSorted(rests)
    ensures WeaklySorted(Merge(rests))
    decreases Total(rests)
  {
    if !Exhausted(rests) {
      var c := Smallest(rests);
      var rest := Pop(rests, c);
      TotalAfterPop(rests, c);
      PopKeepsSorted(rests, c);
      MergeIsSorted(rest);
      MergeElems(rest);
      var m := Merge(rest);
      forall j | 0 <= j < |m| ensures !Before(m[j], rests[c][0]) {
        assert m[j] in TableElems(rest);
        HeadIsLeast(rests, c, m[j]);
      }
    }
  }

  /** Different children never hold the same internal key. */
  ghost predicate NoTies(rests: seq<seq<Entry>>) {
    forall i, j :: 0 <= i < j < |rests| ==> NoTie(rests[i], rests[j])
  }

  ghost predicate NoTie(a: seq<Entry>, b: seq<Entry>) {
    forall x, y :: x in a && y in b ==> !(x.key == y.key && x.seqno == y.seqno)
  }

  lemma {:induction false} HeadIsStrictlyLeast(rests: seq<seq<Entry>>, c: nat, e: Entry)
    requires AllSorted(rests) && NoTies(rests) && IsSmallest(rests, c) && e in TableElems(Pop(rests, c))
    ensures Before(rests[c][0], e)
  {
    var i :| 0 <= i < |rests| && e in Pop(rests, c)[i];
    if i == c {
      var j :| 0 <= j < |rests[c]| - 1 && rests[c][1..][j] == e;
      assert rests[c][j + 1] == e;
    } else {
      assert e in rests[i];
      HeadIsLeast(rests, c, e);
      assert if i < c then NoTie(rests[i], rests[c]) else NoTie(rests[c], rests[i]);
      LessTotal(e.key, rests[c][0].key);
    }
  }

  /** Sources without a common internal key merge into one strictly increasing table. */
  lemma {:induction false} MergeIsStrict(rests: seq<seq<Entry>>)
    requires AllSorted(rests) && NoTies(rests)
    ensures Sorted(Merge(rests))
    decreases Total(rests)
  {
    if !Exhausted(rests) {
      var c := Smallest(rests);
      var rest := Pop(rests, c);
      TotalAfterPop(rests, c);
      PopKeepsSorted(rests, c);
      forall i, j | 0 <= i < j < |rest| ensures NoTie(rest[i], rest[j]) {
        assert NoTie(rests[i], rests[j]);
      }
      MergeIsStrict(rest);
      MergeElems(rest);
      var m := Merge(rest);
      forall j | 0 <= j < |m| ensures Before(rests[c][0], m[j]) {
        assert m[j] in TableElems(rest);
        HeadIsStrictlyLeast(rests, c, m[j]);
      }
    }
  }

  /** The first entry of a sorted table not before the target, as every source's `Seek` finds it. */
  function SeekIn(es: seq<Entry>, target: Entry): (n: nat)
    ensures n <= |es|
    ensures forall i :: 0 <= i < n ==> Before(es[i], target)
    ensures n < |es| ==> !Before(es[n], target)
  {
    if es == [] || !Before(es[0], target) then 0 else 1 + SeekIn(es[1..], target)
  }

  function Suffixes(tables: seq<seq<Entry>>, at: seq<nat>): (r: seq<seq<Entry>>)
    requires |at| == |tables| && forall i :: 0 <= i < |at| ==> at[i] <= |tables[i]|
  {
    seq(|tables|, i requires 0 <= i < |tables| => tables[i][at[i]..])
  }

  /** What is left of each source after seeking it. */
  function SoughtIn(tables: seq<seq<Entry>>, target: Entry): (r: seq<seq<Entry>>) {
    seq(|tables|, i requires 0 <= i < |tables| => tables[i][SeekIn(tables[i], target)..])
  }

  /** A cursor per child; `current` is the child the merge stands on, or -1. */
  class MergingIterator {
    const tables: seq<seq<Entry>>
    var at: seq<nat>
    var current: int

    ghost predicate Positioned()
      reads this
    {
      |at| == |tables| && forall i :: 0 <= i < |at| ==> at[i] <= |tables[i]|
    }

    ghost predicate Ok()
      reads this
    {
      && Positioned()
      && (if Exhausted(Suffixes(tables, at)) then current == -1
          else current >= 0 && IsSmallest(Suffixes(tables, at), current))
    }

    /** The entries still to come. */
    ghost function Rest(): seq<Entry>
      requires Positioned()
      reads this
    {
      Merge(Suffixes(tables, at))
    }

    constructor (tables: seq<seq<Entry>>)
      ensures this.tables == tables && Positioned()
      ensures forall i :: 0 <= i < |at| ==> at[i] == 0
    {
      this.tables := tables;
      at := seq(|tables|, _ => 0);
      current := -1;
    }

    function Valid(): bool
      reads this
    {
      current != -1
    }

    function Current(): Entry
      requires Ok() && Valid()
      reads this
    {
      tables[current][at[current]]
    }

    /** The iterator has yielded `m[..i]` and stands on `m[i]`, if there is one. */
    ghost predicate StandsAt(m: seq<Entry>, i: nat)
      reads this
    {
      && Ok() && i <= |m| && Rest() == m[i..]
      && (Valid() <==> i < |m|)
      && (Valid() ==> Current() == m[i])
    }

    method FindSmallest()
      requires Positioned()
      modifies this`current
      ensures Ok()
    {
      hide Less;
      current := -1;
      ghost var rests := Suffixes(tables, at);
      LessIsStrictTotalOrder();
      for i := 0 to |tables|
        invariant -1 <= current < i
        invariant current == -1 ==> Exhausted(rests[..i])
        invariant current >= 0 ==> IsSmallest(rests[..i], current)
      {
        assert rests[..i + 1] == rests[..i] + [rests[i]];
        assert rests[i] == tables[i][at[i]..];
        if at[i] < |tables[i]| &&
           (current == -1 || Before(tables[i][at[i]], tables[current][at[current]])) {
          current := i;
        }
      }
      assert rests[..|tables|] == rests;
    }

    method SeekToFirst()
      requires Positioned()
      modifies this
      ensures StandsAt(Merge(tables), 0)
    {
      at := seq(|tables|, _ => 0);
      assert Suffixes(tables, at) == tables;
      FindSmallest();
      RestHead();
    }

    method Seek(target: Entry)
      requires Positioned()
      modifies this
      ensures StandsAt(Merge(SoughtIn(tables, target)), 0)
    {
      at := seq(|tables|, i requires 0 <= i < |tables| => SeekIn(tables[i], target));
      assert Suffixes(tables, at) == SoughtIn(tables, target);
      FindSmallest();
      RestHead();
    }

    method Next(ghost m: seq<Entry>, ghost i: nat)
      requires Valid() && StandsAt(m, i)
      modifies this
      ensures StandsAt(m, i + 1)
    {
      ghost var rests := Suffixes(tables, at);
      SmallestIsUnique(rests, current, Smallest(rests));
      at := at[current := at[current] + 1];
      assert Suffixes(tables, at) == Pop(rests, current);
      assert Rest() == m[i..][1..] == m[i + 1..];
      FindSmallest();
      RestHead();
    }

    lemma {:induction false} RestHead()
      requires Ok()
      ensures Valid() <==> Rest() != []
      ensures Valid() ==> Rest()[0] == Current()
    {
      if Valid() {
        var rests := Suffixes(tables, at);
        SmallestIsUnique(rests, current, Smallest(rests));
      }
    }
  }
}
