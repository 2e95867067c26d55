/** The sorted-table format: data blocks, a filter per block, an index of last keys, a footer. */
module Sst {
  import opened Bytes
  import opened Keys
  import opened Entries
  import opened InternalKeys
  import opened Crc
  import opened Block
  import opened BlockIo
  import opened Bloom

  // ---- entries and blocks -------------------------------------------------------------------------------

  function ItemOf(e: Entry): Item {
    Item(KeyOf(e), if e.slot.Put? then e.slot.value else [])
  }

  function ItemsOf(es: seq<Entry>): (r: seq<Item>)
    ensures |r| == |es| && forall i :: 0 <= i < |es| ==> r[i] == ItemOf(es[i])
  {
    if es == [] then [] else ItemsOf(es[..|es| - 1]) + [ItemOf(es[|es| - 1])]
  }

  function Flat(blocks: seq<seq<Entry>>): seq<Entry> {
    if blocks == [] then [] else Flat(blocks[..|blocks| - 1]) + blocks[|blocks| - 1]
  }

  /** Where block `b` starts in the whole list. */
  function StartOf(blocks: seq<seq<Entry>>, b: nat): nat
    requires b <= |blocks|
  {
    |Flat(blocks[..b])|
  }

  lemma {:induction false} FlatAt(blocks: seq<seq<Entry>>, b: nat)
    requires b < |blocks|
    ensures StartOf(blocks, b + 1) == StartOf(blocks, b) + |blocks[b]| <= |Flat(blocks)|
    ensures Flat(blocks)[StartOf(blocks, b)..StartOf(blocks, b + 1)] == blocks[b]
  {
    var init, last := blocks[..|blocks| - 1], blocks[|blocks| - 1];
    assert blocks[..b + 1][..b] == blocks[..b];
    if b < |init| {
      FlatAt(init, b);
      assert init[..b] == blocks[..b] && init[..b + 1] == blocks[..b + 1];
      var lo, hi := StartOf(blocks, b), StartOf(blocks, b + 1);
      assert Flat(blocks)[lo..hi] == Flat(init)[lo..hi];
    } else {
      assert blocks[..b + 1] == blocks && blocks[..b] == init;
    }
  }

  lemma {:induction false} FlatItem(blocks: seq<seq<Entry>>, b: nat, i: nat)
    requires b < |blocks| && i < |blocks[b]|
    ensures StartOf(blocks, b) + i < |Flat(blocks)| && Flat(blocks)[StartOf(blocks, b) + i] == blocks[b][i]
  {
    FlatAt(blocks, b);
    var lo, hi := StartOf(blocks, b), StartOf(blocks, b + 1);
    assert Flat(blocks)[lo..hi][i] == Flat(blocks)[lo + i];
  }

  // ---- search on the list -------------------------------------------------------------------------------

  ghost predicate AllStorable(es: seq<Entry>) {
    forall i :: 0 <= i < |es| ==> Storable(es[i])
  }

  /** `p` is where the entries at or past the target begin. */
  ghost predicate Splits(es: seq<Entry>, target: Bytes, p: nat) {
    && p <= |es|
    && (forall i :: 0 <= i < p ==> InternalLess(KeyOf(es[i]), target))
    && forall i :: p <= i < |es| ==> !InternalLess(KeyOf(es[i]), target)
  }

  /** The first entry at or past the search key decides the lookup. */
  lemma {:induction false} FirstPastIsNewest(es: seq<Entry>, k: Key, r: nat, p: nat)
    requires Sorted(es) && AllStorable(es) && ReadPoint(r) && Splits(es, SeekKey(k, r), p)
    ensures Newest(es, k, r) == if p < |es| && es[p].key == k then Some(es[p]) else None
  {
    hide Less, KeyOf, SeekKey, InternalLess;
    LessIsStrictTotalOrder();
    SortedIsDistinct(es);
    forall i | 0 <= i < |es|
      ensures InternalLess(KeyOf(es[i]), SeekKey(k, r)) <==> Less(es[i].key, k) || (es[i].key == k && es[i].seqno > r)
    {
      SeekKeyOrder(es[i], k, r);
    }
    var o := Newest(es, k, r);
    if p < |es| && es[p].key == k {
      assert Visible(es[p], k, r);
      var q :| 0 <= q < |es| && es[q] == o.value;
      assert p <= q;
    }
  }

  // ---- the file -----------------------------------------------------------------------------------------

  /** Where a data block lies in the file. */
  datatype Handle = Handle(offset: nat, size: nat)

  function EncodeHandle(h: Handle): (s: Bytes)
    ensures |s| == 12
  {
    Fixed64(h.offset) + Fixed32(h.size)
  }

  lemma {:induction false} HandleRoundTrip(h: Handle)
    requires h.offset < U64 && h.size < U32
    ensures GetFixed64(EncodeHandle(h), 0) == h.offset && GetFixed32(EncodeHandle(h), 8) == h.size
  {
    hide FromLittleEndian, Fixed64, Fixed32;
    assert EncodeHandle(h)[0..8] == Fixed64(h.offset);
    assert EncodeHandle(h)[8..12] == Fixed32(h.size);
  }

  /** How a table is laid out: the entries of each data block, its block layout, place and filter. */
  datatype TableLayout = TableLayout(
    blocks: seq<seq<Entry>>, layouts: seq<Layout>, handles: seq<Handle>, filters: seq<Bytes>)

  function AllEntries(t: TableLayout): seq<Entry> {
    Flat(t.blocks)
  }

  /** The index: the last key of each block, and where the block is. */
  function IndexItems(t: TableLayout): (r: seq<Item>)
    requires |t.blocks| == |t.handles| && forall b :: 0 <= b < |t.blocks| ==> t.blocks[b] != []
    ensures |r| == |t.blocks|
  {
    seq(|t.blocks|, b requires 0 <= b < |t.blocks| =>
      Item(KeyOf(t.blocks[b][|t.blocks[b]| - 1]), EncodeHandle(t.handles[b])))
  }

  function FilterStarts(filters: seq<Bytes>): (r: seq<nat>)
    ensures |r| == |filters|
  {
    seq(|filters|, b requires 0 <= b < |filters| => |Concat(filters[..b])|)
  }

  /** The filters, where each starts, and where that array starts. */
  function FilterBlock(filters: seq<Bytes>): Bytes {
    Concat(filters) + RestartBytes(FilterStarts(filters)) + Fixed32(|Concat(filters)|)
  }

  /** Block `b` holds its entries, and its filter lets every one of their keys through. */
  ghost predicate BlockOk(file: Bytes, t: TableLayout, hash: Bytes -> nat, b: nat)
    requires |t.layouts| == |t.handles| == |t.filters| == |t.blocks| && b < |t.blocks|
  {
    var h := t.handles[b];
    && h.offset + h.size <= |file| && h.offset < U64
    && Finished(file[h.offset..h.offset + h.size], t.layouts[b])
    && t.layouts[b].items == ItemsOf(t.blocks[b])
    && forall e :: e in t.blocks[b] ==> MayMatch(t.filters[b], hash, e.key)
  }

  ghost predicate BlocksOk(file: Bytes, t: TableLayout, hash: Bytes -> nat) {
    && |t.layouts| == |t.handles| == |t.filters| == |t.blocks|
    && (forall b :: 0 <= b < |t.blocks| ==> t.blocks[b] != [])
    && forall b: nat :: b < |t.blocks| ==> BlockOk(file, t, hash, b)
  }

  const MAGIC: Bytes := [0x42, 0x52, 0x4B, 0x56, 0x53, 0x53, 0x54, 0x31]
  const FOOTER_SIZE: nat := 44

  function Footer(filter: Handle, index: Handle, entries: nat, crc: nat): (s: Bytes)
    ensures |s| == FOOTER_SIZE
  {
    EncodeHandle(filter) + EncodeHandle(index) + Fixed64(entries) + Fixed32(crc) + MAGIC
  }

  /** The data blocks behind each other, the filter block, the index block and the footer. */
  ghost predicate IsTable(file: Bytes, t: TableLayout, hash: Bytes -> nat, data: Bytes, index: Bytes, il: Layout) {
    && BlocksOk(data, t, hash) && t.blocks != []
    && Ascending(ItemsOf(AllEntries(t))) && AllStorable(AllEntries(t))
    && Finished(index, il) && il.items == IndexItems(t)
    && |FilterBlock(t.filters)| < U32
    && var front := data + FilterBlock(t.filters) + index;
       && |front| < U64
       && file == front
            + Footer(Handle(|data|, |FilterBlock(t.filters)|), Handle(|data| + |FilterBlock(t.filters)|, |index|),
                                 |AllEntries(t)|, Crc32(front))
  }
}
