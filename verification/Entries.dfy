/** Versioned entries, the internal-key order, and what a read at a sequence point must see. */
module Entries {
  import opened Bytes
  import opened Keys

  /** What a write stores under a key: the bytes of a value slot, or a deletion mark. */
  datatype Slot = Put(value: Bytes) | Tombstone

  datatype Entry = Entry(key: Key, seqno: nat, slot: Slot)

  /** The read point of a latest read; every assigned sequence number is below it. */
  const MAX_SEQ: nat := U64 - 1

  /** Sequence numbers share a 64-bit tag with an 8-bit type. */
  const SEQ_LIMIT: nat := 0x100_0000_0000_0000

  const TYPE_DELETION: byte := 0
  const TYPE_VALUE: byte := 1

  /** Internal-key order: user key ascending, and the newer version of a key first. */
  predicate Before(a: Entry, b: Entry) {
    Less(a.key, b.key) || (a.key == b.key && a.seqno > b.seqno)
  }

  predicate Sorted(es: seq<Entry>) {
    forall i, j :: 0 <= i < j < |es| ==> Before(es[i], es[j])
  }

  predicate Visible(e: Entry, k: Key, r: nat) {
    e.key == k && e.seqno <= r
  }

  ghost function Elems(es: seq<Entry>): (s: set<Entry>)
    ensures forall e :: e in s <==> e in es
  {
    set e | e in es
  }

  /** `e` is the newest version of `k` that a read at point `r` may see. */
  ghost predicate IsTop(s: set<Entry>, k: Key, r: nat, e: Entry) {
    && e in s
    && Visible(e, k, r)
    && forall x :: x in s && Visible(x, k, r) ==> x.seqno <= e.seqno
  }

  ghost predicate NothingVisible(s: set<Entry>, k: Key, r: nat) {
    forall x :: x in s ==> !Visible(x, k, r)
  }

  /** What a reader is told: a deleted key and a missing key look the same. */
  function Answer(slot: Slot): Option<Bytes> {
    match slot
    case Put(v) => Some(v)
    case Tombstone => None
  }

  /** A read of `k` at point `r` over the versions in `s` must answer `v`. */
  ghost predicate Reads(s: set<Entry>, k: Key, r: nat, v: Option<Bytes>) {
    || (v.None? && NothingVisible(s, k, r))
    || exists e :: IsTop(s, k, r, e) && v == Answer(e.slot)
  }

  /** At most one entry per key and sequence number. */
  ghost predicate Distinct(s: set<Entry>) {
    forall x, y :: x in s && y in s && x.key == y.key && x.seqno == y.seqno ==> x == y
  }

  /** For any key they share, every version in `a` is newer than every version in `b`. */
  ghost predicate Newer(a: set<Entry>, b: set<Entry>) {
    forall x, y :: x in a && y in b && x.key == y.key ==> x.seqno > y.seqno
  }

  ghost predicate NoSharedKey(a: set<Entry>, b: set<Entry>) {
    forall x, y :: x in a && y in b ==> x.key != y.key
  }

  /** The newest version of `k` visible at `r` in one table, found or not. */
  function Newest(es: seq<Entry>, k: Key, r: nat): (o: Option<Entry>)
    ensures o.None? ==> NothingVisible(Elems(es), k, r)
    ensures o.Some? ==> IsTop(Elems(es), k, r, o.value)
  {
    if es == [] then None
    else
      var rest := Newest(es[1..], k, r);
      if Visible(es[0], k, r) && (rest.None? || rest.value.seqno <= es[0].seqno) then Some(es[0]) else rest
  }

  lemma {:induction false} ReadsIsFunctional(s: set<Entry>, k: Key, r: nat, v: Option<Bytes>, w: Option<Bytes>)
    requires Distinct(s)
    requires Reads(s, k, r, v) && Reads(s, k, r, w)
    ensures v == w
  {
  }

  lemma {:induction false} SortedIsDistinct(es: seq<Entry>)
    requires Sorted(es)
    ensures Distinct(Elems(es))
  {
    forall x, y | x in es && y in es && x.key == y.key && x.seqno == y.seqno ensures x == y {
      var i :| 0 <= i < |es| && es[i] == x;
      var j :| 0 <= j < |es| && es[j] == y;
      LessIrreflexive(x.key);
    }
  }

  /** Every finite set of versions has an answer at every point. */
  lemma {:induction false} ReadsIsTotal(s: set<Entry>, k: Key, r: nat) returns (v: Option<Bytes>)
    ensures Reads(s, k, r, v)
  {
    if s == {} {
      v := None;
    } else {
      var x :| x in s;
      v := ReadsIsTotal(s - {x}, k, r);
      if !Visible(x, k, r) {
        if !NothingVisible(s - {x}, k, r) {
          var e :| IsTop(s - {x}, k, r, e) && v == Answer(e.slot);
          assert IsTop(s, k, r, e);
        }
      } else if NothingVisible(s - {x}, k, r) {
        v := Answer(x.slot);
        assert IsTop(s, k, r, x);
      } else {
        var e :| IsTop(s - {x}, k, r, e) && v == Answer(e.slot);
        if x.seqno <= e.seqno {
          assert IsTop(s, k, r, e);
        } else {
          v := Answer(x.slot);
          assert IsTop(s, k, r, x);
        }
      }
    }
  }

  predicate SameVersion(a: Entry, b: Entry) {
    a.key == b.key && a.seqno == b.seqno
  }

  /** Memtable insertion: `e` goes where the internal-key order puts it; an equal internal key wins. */
  function Insert(es: seq<Entry>, e: Entry): (r: seq<Entry>)
    ensures Elems(es) <= Elems(r) <= Elems(es) + {e}
    ensures (forall x :: x in es ==> !SameVersion(x, e)) ==> Elems(r) == Elems(es) + {e}
  {
    if es == [] || Before(e, es[0]) then [e] + es
    else if SameVersion(es[0], e) then es
    else [es[0]] + Insert(es[1..], e)
  }

  lemma {:induction false} InsertKeepsSorted(es: seq<Entry>, e: Entry)
    requires Sorted(es)
    ensures Sorted(Insert(es, e))
  {
    if es == [] {
    } else if Before(e, es[0]) {
      forall j | 0 <= j < |es| ensures Before(e, es[j]) {
        if j > 0 { BeforeTransitive(e, es[0], es[j]); }
      }
    } else if !SameVersion(es[0], e) {
      LessTotal(e.key, es[0].key);
      assert Before(es[0], e);
      InsertKeepsSorted(es[1..], e);
      var rest := Insert(es[1..], e);
      forall j | 0 <= j < |rest| ensures Before(es[0], rest[j]) {
        assert rest[j] in Elems(rest);
        if rest[j] != e {
          var i :| 0 <= i < |es[1..]| && es[1..][i] == rest[j];
          assert es[i + 1] == rest[j];
        }
      }
    }
  }

  /** Inserting one of a distinct set of entries makes it present, whether or not it was. */
  lemma {:induction false} InsertElems(es: seq<Entry>, e: Entry)
    requires Distinct(Elems(es) + {e})
    ensures Elems(Insert(es, e)) == Elems(es) + {e}
  {
    hide Less, Before;
    if es != [] && !Before(e, es[0]) {
      assert es == [es[0]] + es[1..];
      if SameVersion(es[0], e) {
        assert es[0] in Elems(es) + {e} && e in Elems(es) + {e};
      } else {
        InsertElems(es[1..], e);
      }
    }
  }

  lemma {:induction false} BeforeTransitive(a: Entry, b: Entry, c: Entry)
    requires Before(a, b) && Before(b, c)
    ensures Before(a, c)
  {
    if Less(a.key, b.key) && Less(b.key, c.key) { LessTransitive(a.key, b.key, c.key); }
  }
}
