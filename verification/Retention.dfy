/** Which versions a compaction keeps, and why no reader can tell. */
module Retention {
  import opened Bytes
  import opened Keys
  import opened Entries
  import opened Lsm

  /**
   * With snapshot floor `f`: every version above the floor, and the newest one at or below it,
   * unless that one is a tombstone on its way into the bottom level.
   */
  ghost predicate Kept(s: set<Entry>, f: nat, bottom: bool, e: Entry) {
    e in s && (e.seqno > f || (IsTop(s, e.key, f, e) && !(bottom && e.slot.Tombstone?)))
  }

  ghost function Retained(s: set<Entry>, f: nat, bottom: bool): (t: set<Entry>)
    ensures forall e :: e in t <==> Kept(s, f, bottom, e)
  {
    set e | e in s && Kept(s, f, bottom, e)
  }

  /** `after` answers every read at `r` as `before` did; only a bottom tombstone may become absence. */
  ghost predicate KeepsAnswers(before: set<Entry>, after: set<Entry>, bottom: bool, r: nat) {
    && after <= before
    && forall k, e :: IsTop(before, k, r, e)
                      ==> IsTop(after, k, r, e) || (bottom && e.slot.Tombstone? && NothingVisible(after, k, r))
  }

  /** A read point the compaction may not disturb: at or above its floor, or past all its inputs. */
  ghost predicate SafePoint(s: set<Entry>, f: nat, r: nat) {
    r >= f || forall e :: e in s ==> e.seqno <= r
  }

  lemma {:induction false} TopStaysTopAtFloor(s: set<Entry>, f: nat, r: nat, k: Key, e: Entry)
    requires SafePoint(s, f, r) && IsTop(s, k, r, e) && e.seqno <= f
    ensures IsTop(s, k, f, e)
  {
  }

  lemma {:induction false} RetentionKeepsAnswers(s: set<Entry>, f: nat, bottom: bool, r: nat)
    requires Distinct(s) && SafePoint(s, f, r)
    ensures KeepsAnswers(s, Retained(s, f, bottom), bottom, r)
  {
    var t := Retained(s, f, bottom);
    forall k, e | IsTop(s, k, r, e)
      ensures IsTop(t, k, r, e) || (bottom && e.slot.Tombstone? && NothingVisible(t, k, r))
    {
      if e.seqno <= f { TopStaysTopAtFloor(s, f, r, k, e); }
    }
  }

  /** Nothing below the floor piles up: at most one such version of a key survives. */
  lemma {:induction false} OneVersionBelowFloor(s: set<Entry>, f: nat, bottom: bool, x: Entry, y: Entry)
    requires Distinct(s)
    requires x in Retained(s, f, bottom) && y in Retained(s, f, bottom)
    requires x.key == y.key && x.seqno <= f && y.seqno <= f
    ensures x == y
  {
  }

  /** The floor is exact: the newest version at or below it is dropped only as a bottom tombstone. */
  lemma {:induction false} FloorVersionSurvives(s: set<Entry>, f: nat, bottom: bool, k: Key, e: Entry)
    requires IsTop(s, k, f, e)
    ensures e in Retained(s, f, bottom) <==> !(bottom && e.slot.Tombstone?)
  {
    assert Kept(s, f, bottom, e) <==> !(bottom && e.slot.Tombstone?);
  }

  // ---- replacing inputs by outputs inside the layers --------------------------------------------

  /** Layers after moving `a` (layer `p`) and `b` (layer `p + 1`) into `out` (layer `p + 1`). */
  ghost function Replace(g: seq<set<Entry>>, p: nat, a: set<Entry>, b: set<Entry>, out: set<Entry>): seq<set<Entry>>
    requires p + 1 < |g|
  {
    g[p := g[p] - a][p + 1 := (g[p + 1] - b) + out]
  }

  /** The inputs are whole keys of their layers, so nothing they shadow stays behind. */
  ghost predicate WholeKeys(g: seq<set<Entry>>, p: nat, a: set<Entry>, b: set<Entry>)
    requires p + 1 < |g|
  {
    && a <= g[p] && b <= g[p + 1]
    && NoSharedKey(g[p] - a, a)
    && NoSharedKey(g[p + 1] - b, a + b)
  }

  lemma {:induction false} ReplaceKeepsRecency(
    g: seq<set<Entry>>, p: nat, a: set<Entry>, b: set<Entry>, out: set<Entry>)
    requires p + 1 < |g| && Recency(g) && WholeKeys(g, p, a, b) && out <= a + b
    ensures Recency(Replace(g, p, a, b, out))
  {
    var h := Replace(g, p, a, b, out);
    assert Newer(g[p], g[p + 1]);
    forall i, j | 0 <= i < j < |h| ensures Newer(h[i], h[j]) {
      assert Newer(g[i], g[j]);
      assert i < p ==> Newer(g[i], g[p]);
      assert j > p + 1 ==> Newer(g[p], g[j]);
    }
  }

  lemma {:induction false} ReplaceUnion(
    g: seq<set<Entry>>, p: nat, a: set<Entry>, b: set<Entry>, out: set<Entry>, x: Entry)
    requires p + 1 < |g| && a <= g[p] && b <= g[p + 1] && out <= a + b
    ensures x in Union(Replace(g, p, a, b, out)) ==> x in Union(g)
    ensures x in out ==> x in Union(Replace(g, p, a, b, out))
    ensures x in Union(g) && x !in a + b ==> x in Union(Replace(g, p, a, b, out))
    ensures x in a + b ==> x in Union(g)
  {
    var h := Replace(g, p, a, b, out);
    if x in Union(h) {
      var i :| 0 <= i < |h| && x in h[i];
      assert i != p && i != p + 1 ==> h[i] == g[i];
      assert i == p ==> x in g[p];
      var j := if x in a then p else if x in b then p + 1 else i;
      assert x in g[j];
    }
    if x in out { assert x in h[p + 1]; }
    if x in a { assert x in g[p]; }
    if x in b { assert x in g[p + 1]; }
    if x in Union(g) && x !in a + b {
      var i :| 0 <= i < |g| && x in g[i];
      assert x in h[i];
    }
  }

  /** What was read at `r` through all layers is still read after the replacement. */
  lemma {:induction false} ReplaceKeepsReads(
    g: seq<set<Entry>>, p: nat, a: set<Entry>, b: set<Entry>, out: set<Entry>, bottom: bool,
    k: Key, r: nat, v: Option<Bytes>)
    requires p + 1 < |g| && Recency(g) && WholeKeys(g, p, a, b) && (bottom ==> p + 2 == |g|)
    requires KeepsAnswers(a + b, out, bottom, r)
    requires Reads(Union(g), k, r, v)
    ensures Reads(Union(Replace(g, p, a, b, out)), k, r, v)
  {
    hide Recency, NoSharedKey, Replace, Union;
    var all, all' := Union(g), Union(Replace(g, p, a, b, out));
    forall x ensures (x in all' ==> x in all) && (x in out ==> x in all') && (x in a + b ==> x in all)
                     && (x in all && x !in a + b ==> x in all')
    {
      ReplaceUnion(g, p, a, b, out, x);
    }
    if !NothingVisible(all, k, r) {
      var e :| IsTop(all, k, r, e) && v == Answer(e.slot);
      if e !in a + b {
        assert IsTop(all', k, r, e);
      } else {
        assert IsTop(a + b, k, r, e);
        if IsTop(out, k, r, e) {
          assert IsTop(all', k, r, e);
        } else {
          forall x | x in all' ensures !Visible(x, k, r) {
            if Visible(x, k, r) { DroppedTombstoneHidesNothing(g, p, a, b, out, k, r, e, x); }
          }
        }
      }
    }
  }

  lemma {:induction false} DroppedTombstoneHidesNothing(
    g: seq<set<Entry>>, p: nat, a: set<Entry>, b: set<Entry>, out: set<Entry>, k: Key, r: nat, e: Entry, x: Entry)
    requires p + 2 == |g| && Recency(g) && WholeKeys(g, p, a, b) && out <= a + b
    requires IsTop(Union(g), k, r, e) && e in a + b && NothingVisible(out, k, r)
    requires x in Union(Replace(g, p, a, b, out))
    ensures !Visible(x, k, r)
  {
    ReplaceUnion(g, p, a, b, out, x);
    var h := Replace(g, p, a, b, out);
    var i :| 0 <= i < |h| && x in h[i];
    assert Newer(g[p], g[p + 1]);
    assert i < p ==> Newer(g[i], g[p]) && Newer(g[i], g[p + 1]);
    assert i == p ==> x in g[p] - a;
    assert i == p + 1 ==> x in out || x in g[p + 1] - b;
  }
}
