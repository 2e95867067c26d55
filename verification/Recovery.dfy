/** Log replay: what `DB::Open` makes of the write-ahead logs at or above the replay floor. */
module Recovery {
  import opened Bytes
  import opened Keys
  import opened Entries
  import opened Versions
  import opened Lsm

  /** Every record in a log numbered `lo` or higher. */
  ghost function LogElems(logs: map<nat, seq<Entry>>, lo: nat): (s: set<Entry>)
    ensures forall e :: e in s <==> exists n :: n in logs && n >= lo && e in logs[n]
  {
    set n, e | n in logs && n >= lo && e in logs[n] :: e
  }

  function ReplayLog(mem: seq<Entry>, log: seq<Entry>): seq<Entry>
    decreases |log|
  {
    if log == [] then mem else ReplayLog(Insert(mem, log[0]), log[1..])
  }

  /** Replays every log numbered `lo..hi`, oldest first. */
  function Replay(mem: seq<Entry>, logs: map<nat, seq<Entry>>, lo: nat, hi: nat): seq<Entry>
    decreases hi + 1 - lo
  {
    if lo > hi then mem
    else Replay(if lo in logs then ReplayLog(mem, logs[lo]) else mem, logs, lo + 1, hi)
  }

  lemma {:induction false} ReplayLogElems(mem: seq<Entry>, log: seq<Entry>)
    requires Sorted(mem) && Distinct(Elems(mem) + Elems(log))
    ensures Sorted(ReplayLog(mem, log)) && Elems(ReplayLog(mem, log)) == Elems(mem) + Elems(log)
    decreases |log|
  {
    hide Sorted, Less;
    if log != [] {
      assert log == [log[0]] + log[1..];
      InsertKeepsSorted(mem, log[0]);
      InsertElems(mem, log[0]);
      ReplayLogElems(Insert(mem, log[0]), log[1..]);
    }
  }

  lemma {:induction false} PartOfDistinct(a: set<Entry>, b: set<Entry>)
    requires a <= b && Distinct(b)
    ensures Distinct(a)
  {
  }

  lemma {:induction false} LogElemsSplit(logs: map<nat, seq<Entry>>, lo: nat)
    ensures LogElems(logs, lo) == LogElems(logs, lo + 1) + (if lo in logs then Elems(logs[lo]) else {})
  {
  }

  /** The rebuilt memtable is sorted and holds exactly the records of the replayed logs. */
  lemma {:induction false} ReplayElems(mem: seq<Entry>, logs: map<nat, seq<Entry>>, lo: nat, hi: nat)
    requires forall n :: n in logs ==> n <= hi
    requires Sorted(mem) && Distinct(Elems(mem) + LogElems(logs, lo))
    ensures Sorted(Replay(mem, logs, lo, hi)) && Elems(Replay(mem, logs, lo, hi)) == Elems(mem) + LogElems(logs, lo)
    decreases hi + 1 - lo
  {
    hide Sorted, LogElems, Distinct;
    if lo > hi {
      assert LogElems(logs, lo) == {};
    } else {
      LogElemsSplit(logs, lo);
      var mem' := if lo in logs then ReplayLog(mem, logs[lo]) else mem;
      if lo in logs {
        PartOfDistinct(Elems(mem) + Elems(logs[lo]), Elems(mem) + LogElems(logs, lo));
        ReplayLogElems(mem, logs[lo]);
      }
      assert Elems(mem') + LogElems(logs, lo + 1) == Elems(mem) + LogElems(logs, lo);
      ReplayElems(mem', logs, lo + 1, hi);
    }
  }

  /** One past the highest sequence number that survived. */
  ghost predicate IsNextSeq(all: set<Entry>, n: nat) {
    && n >= 1
    && (forall e :: e in all ==> e.seqno < n)
    && (n > 1 ==> exists e :: e in all && e.seqno == n - 1)
  }

  lemma {:induction false} FrontMerged(g: seq<set<Entry>>, h: seq<set<Entry>>)
    requires |h| == |g| >= 2 && h[0] == g[0] + g[1] && h[1] == {}
    requires forall i :: 2 <= i < |g| ==> h[i] == g[i]
    ensures Union(h) == Union(g)
    ensures Recency(g) ==> Recency(h)
  {
    forall x ensures x in Union(h) <==> x in Union(g) {
      if x in Union(g) {
        var i :| 0 <= i < |g| && x in g[i];
        assert x in h[if i == 1 then 0 else i];
      }
    }
    if Recency(g) {
      forall i, j | 0 <= i < j < |h| ensures Newer(h[i], h[j]) {
        assert Newer(g[i], g[j]);
        assert i == 0 && j > 1 ==> Newer(g[1], g[j]);
      }
    }
  }

  /** The store `Open` assembles from a published version and a replayed memtable. */
  function Reopened(s: Store, mem: seq<Entry>, next: nat): Store {
    s.(mem := mem, imm := None, installed := false, nextSeq := next, snapshots := [])
  }

  lemma {:induction false} ReopenGroups(s: Store, mem: seq<Entry>, next: nat)
    requires Shape(s) && Sorted(mem) && Elems(mem) == Elems(s.mem) + Elems(Pending(s))
    ensures Shape(Reopened(s, mem, next)) && All(Reopened(s, mem, next)) == All(s)
  {
    hide Sorted, L0Ok, LevelOk, Recency;
    FrontMerged(Groups(s), Groups(Reopened(s, mem, next)));
  }

  /** Replaying every unflushed record restores the latest view; snapshots do not survive. */
  lemma {:induction false} ReopenKeepsInv(s: Store, w: View, mem: seq<Entry>, next: nat)
    requires Inv(s, w) && Sorted(mem) && Elems(mem) == Elems(s.mem) + Elems(Pending(s))
    requires IsNextSeq(All(s), next)
    ensures Inv(Reopened(s, mem, next), View(w.now, [])) && next <= s.nextSeq
  {
    hide Sorted, L0Ok, LevelOk, Recency, ReadsAs;
    ReopenGroups(s, mem, next);
  }
}
