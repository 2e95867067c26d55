/** A sorted table from entries to bytes and back: writing, opening, looking up and listing. */
module Tables {
  import opened Bytes
  import opened Keys
  import opened Entries
  import opened InternalKeys
  import opened Block
  import opened Sst
  import opened SstBuild
  import opened SstRead
  import opened SstIterator

  /**
   * For any strictly increasing list of entries, block size, restart interval, filter density and
   * hash, a lookup in the written table answers what searching the list for the newest visible
   * version does.
   */
  method WrittenTableAnswers(
    es: seq<Entry>, blockSize: nat, restartInterval: nat, bitsPerKey: nat, hash: Bytes -> nat, k: Key, r: nat)
    returns (res: Lookup)
    requires es != [] && Sorted(es) && AllStorable(es) && FitsFormat(es, blockSize, bitsPerKey) && ReadPoint(r)
    ensures res == Outcome(Newest(es, k, r))
  {
    hide IsTable, IsOpen, Sorted, AllStorable, FitsFormat, Newest;
    var bytes, m;
    ghost var t, data, index, il;
    bytes, m, t, data, index, il := WriteTable(es, blockSize, restartInterval, bitsPerKey, hash);
    var o := SstRead.Open(bytes, t, hash, data, index, il);
    res := SstRead.Get(o.value, k, r, hash, t);
  }

  /** Walking an open table yields every entry once, in order. */
  method ListTable(tb: Table, ghost t: TableLayout, ghost hash: Bytes -> nat) returns (items: seq<Item>)
    requires IsOpen(tb, t, hash) && InRange(tb)
    ensures items == ItemsOf(AllEntries(t))
  {
    hide IsOpen, InRange, TableIterator.On, KeyOf;
    ghost var es := AllEntries(t);
    var it := new TableIterator(tb, t, hash);
    it.SeekToFirst();
    items := [];
    while it.valid
      invariant fresh(it) && fresh(it.block) && it.t == t && it.Valid() && it.at == |items| <= |es|
      invariant forall i :: 0 <= i < |items| ==> items[i] == ItemOf(es[i])
      decreases |es| - |items|
    {
      it.Current();
      items := items + [Item(it.block.curKey, it.block.curValue)];
      it.Next();
    }
  }

  method WrittenTableLists(es: seq<Entry>, blockSize: nat, restartInterval: nat, bitsPerKey: nat, hash: Bytes -> nat)
    returns (items: seq<Item>)
    requires es != [] && Sorted(es) && AllStorable(es) && FitsFormat(es, blockSize, bitsPerKey)
    ensures items == ItemsOf(es)
  {
    hide IsTable, IsOpen, Sorted, AllStorable, FitsFormat, InRange, ItemsOf;
    var bytes, m;
    ghost var t, data, index, il;
    bytes, m, t, data, index, il := WriteTable(es, blockSize, restartInterval, bitsPerKey, hash);
    var o := SstRead.Open(bytes, t, hash, data, index, il);
    items := ListTable(o.value, t, hash);
  }
}
