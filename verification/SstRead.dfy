/** Opening a sorted table and looking a key up through index, filter and block. */
module SstRead {
  import opened Seqs
  import opened Bytes
  import opened Keys
  import opened Entries
  import opened InternalKeys
  import opened Crc
  import opened Block
  import opened BlockIo
  import opened Bloom
  import opened Sst

  datatype IndexEntry = IndexEntry(key: Bytes, handle: Handle)

  /** An open table: the file's bytes, the decoded index, the filter block and the key range. */
  datatype Table = Table(file: Bytes, index: seq<IndexEntry>, filter: Bytes, smallest: Key, largest: Key)

  /** Block handles lie inside the file. */
  ghost predicate InRange(tb: Table) {
    forall b :: 0 <= b < |tb.index| ==> tb.index[b].handle.offset + tb.index[b].handle.size <= |tb.file|
  }

  /** The open table is the one laid out by `t`. */
  ghost predicate IsOpen(tb: Table, t: TableLayout, hash: Bytes -> nat) {
    && BlocksOk(tb.file, t, hash) && t.blocks != []
    && Ascending(ItemsOf(AllEntries(t))) && AllStorable(AllEntries(t))
    && |tb.index| == |t.blocks|
    && (forall b :: 0 <= b < |t.blocks| ==> tb.index[b] == IndexEntry(KeyOf(Last(t.blocks[b])), t.handles[b]))
    && tb.filter == FilterBlock(t.filters) && |tb.filter| < U32
    && AllEntries(t) != []
    && tb.smallest == AllEntries(t)[0].key && tb.largest == Last(AllEntries(t)).key
  }

  // ---- the filter of a block ------------------------------------------------------------------------------

  lemma {:induction false} ConcatSlice(filters: seq<Bytes>, b: nat)
    requires b < |filters|
    ensures |Concat(filters[..b])| + |filters[b]| == |Concat(filters[..b + 1])| <= |Concat(filters)|
    ensures Concat(filters)[|Concat(filters[..b])|..|Concat(filters[..b + 1])|] == filters[b]
  {
    var init := filters[..|filters| - 1];
    assert filters[..b + 1][..b] == filters[..b];
    if b < |init| {
      ConcatSlice(init, b);
      assert init[..b] == filters[..b] && init[..b + 1] == filters[..b + 1];
      var lo, hi := |Concat(filters[..b])|, |Concat(filters[..b + 1])|;
      assert Concat(filters)[lo..hi] == Concat(init)[lo..hi];
    } else {
      assert filters[..b + 1] == filters && filters[..b] == init;
    }
  }

  /** The numbers at the end of a filter block. */
  lemma {:induction false} FilterFields(filters: seq<Bytes>, b: nat)
    requires |FilterBlock(filters)| < U32 && b < |filters|
    ensures var f, n := FilterBlock(filters), |Concat(filters)|;
            && |f| == n + 4 * |filters| + 4 && GetFixed32(f, |f| - 4) == n
            && GetFixed32(f, n + 4 * b) == |Concat(filters[..b])|
            && (b + 1 < |filters| ==> GetFixed32(f, n + 4 * (b + 1)) == |Concat(filters[..b + 1])|)
  {
    hide Fixed32, FromLittleEndian, RestartBytes, Concat;
    var f, c, starts := FilterBlock(filters), Concat(filters), FilterStarts(filters);
    assert f[|f| - 4..|f|] == Fixed32(|c|);
    forall i | 0 <= i < |starts| ensures starts[i] < U32 { ConcatSlice(filters, i); }
    RestartAt(c, starts, Fixed32(|c|), b);
    if b + 1 < |filters| { RestartAt(c, starts, Fixed32(|c|), b + 1); }
  }

  lemma {:induction false} FilterBytes(filters: seq<Bytes>, b: nat)
    requires |FilterBlock(filters)| < U32 && b < |filters|
    ensures var lo, hi := |Concat(filters[..b])|, |Concat(filters[..b + 1])|;
            lo <= hi <= |Concat(filters)| && FilterBlock(filters)[lo..hi] == filters[b]
    ensures b + 1 == |filters| ==> |Concat(filters[..b + 1])| == |Concat(filters)|
  {
    hide RestartBytes, Fixed32;
    ConcatSlice(filters, b);
    var lo, hi := |Concat(filters[..b])|, |Concat(filters[..b + 1])|;
    assert FilterBlock(filters)[lo..hi] == Concat(filters)[lo..hi];
    if b + 1 == |filters| { assert filters[..b + 1] == filters; }
  }

  /** The filter of data block `b`, looked up in the filter block. */
  method KeyMayMatchInBlock(f: Bytes, b: nat, hash: Bytes -> nat, key: Key, ghost filters: seq<Bytes>) returns (r: bool)
    ensures f == FilterBlock(filters) && |f| < U32 && b < |filters| ==> r == MayMatch(filters[b], hash, key)
  {
    hide FilterBlock, GetFixed32, MayMatch, Concat;
    if f == FilterBlock(filters) && |f| < U32 && b < |filters| {
      FilterFields(filters, b);
      FilterBytes(filters, b);
    }
    if |f| < 4 { return true; }
    var arrayStart := GetFixed32(f, |f| - 4);
    if arrayStart + 4 > |f| { return true; }
    var n := (|f| - 4 - arrayStart) / 4;
    if b >= n { return true; }
    var start := GetFixed32(f, arrayStart + b * 4);
    var end := if b + 1 < n then GetFixed32(f, arrayStart + (b + 1) * 4) else arrayStart;
    if start > end || end > arrayStart { return true; }
    r := KeyMayMatch(f[start..end], hash, key);
  }

  // ---- search -------------------------------------------------------------------------------------------

  /** Everything up to position `p` is before the target if the entry there is, everything from it if it is not. */
  lemma {:induction false} SplitAt(es: seq<Entry>, target: Bytes, p: nat, q: nat)
    requires Ascending(ItemsOf(es)) && p < |es| && q < |es|
    ensures InternalLess(KeyOf(es[p]), target) && q <= p ==> InternalLess(KeyOf(es[q]), target)
    ensures !InternalLess(KeyOf(es[p]), target) && q >= p ==> !InternalLess(KeyOf(es[q]), target)
  {
    hide InternalLess, KeyOf;
    var items := ItemsOf(es);
    assert q < p ==> InternalLess(items[q].key, items[p].key);
    assert p < q ==> InternalLess(items[p].key, items[q].key);
    InternalLessIsStrictOrder(KeyOf(es[q]), KeyOf(es[p]), target);
    InternalLessIsStrictOrder(KeyOf(es[p]), KeyOf(es[q]), target);
  }

  /** Blocks are runs of the whole list, so they ascend too. */
  lemma {:induction false} BlockAscends(blocks: seq<seq<Entry>>, b: nat)
    requires Ascending(ItemsOf(Flat(blocks))) && b < |blocks|
    ensures Ascending(ItemsOf(blocks[b]))
  {
    hide InternalLess, KeyOf, Flat;
    var all, part, s := ItemsOf(Flat(blocks)), ItemsOf(blocks[b]), StartOf(blocks, b);
    forall i, j | 0 <= i < j < |part| ensures InternalLess(part[i].key, part[j].key) {
      FlatItem(blocks, b, i);
      FlatItem(blocks, b, j);
      assert all[s + i] == part[i] && all[s + j] == part[j];
    }
  }

  /** Entry `i` of block `b` is the first at or past the target. */
  ghost predicate FirstPast(t: TableLayout, target: Bytes, b: nat, i: nat)
    requires b < |t.blocks| && i < |t.blocks[b]|
  {
    var p := StartOf(t.blocks, b) + i;
    p < |AllEntries(t)| && AllEntries(t)[p] == t.blocks[b][i] && Splits(AllEntries(t), target, p)
  }

  /** The first block whose last key is not before the target holds the first entry that is not. */
  lemma {:induction false} BlockSplits(t: TableLayout, target: Bytes, b: nat)
    requires Ascending(ItemsOf(AllEntries(t))) && b < |t.blocks| && forall c :: 0 <= c < |t.blocks| ==>
               t.blocks[c] != []
    requires forall c :: 0 <= c < b ==> InternalLess(KeyOf(Last(t.blocks[c])), target)
    requires !InternalLess(KeyOf(Last(t.blocks[b])), target)
    ensures LowerBound(ItemsOf(t.blocks[b]), target) < |t.blocks[b]|
    ensures FirstPast(t, target, b, LowerBound(ItemsOf(t.blocks[b]), target))
  {
    hide InternalLess, KeyOf, Flat, LowerBound, Ascending, ItemsOf;
    var es, block, s := AllEntries(t), t.blocks[b], StartOf(t.blocks, b);
    var items := ItemsOf(block);
    var i := LowerBound(items, target);
    assert items[|block| - 1] == ItemOf(Last(block));
    assert i < |block|;
    FlatItem(t.blocks, b, i);
    var p := s + i;
    forall q | p <= q < |es| ensures !InternalLess(KeyOf(es[q]), target) { SplitAt(es, target, p, q); }
    forall q: nat | q < p ensures InternalLess(KeyOf(es[q]), target) {
      if i > 0 {
        FlatItem(t.blocks, b, i - 1);
        SplitAt(es, target, p - 1, q);
      } else {
        assert b > 0 by { StartsAtZero(t.blocks, b, q); }
        LastOfBlock(t.blocks, b - 1);
        assert InternalLess(KeyOf(Last(t.blocks[b - 1])), target);
        SplitAt(es, target, p - 1, q);
      }
    }
  }

  lemma {:induction false} StartsAtZero(blocks: seq<seq<Entry>>, b: nat, q: nat)
    requires b <= |blocks| && q < StartOf(blocks, b)
    ensures b > 0
  {
  }

  lemma {:induction false} LastOfBlock(blocks: seq<seq<Entry>>, b: nat)
    requires b < |blocks| && blocks[b] != []
    ensures 0 < StartOf(blocks, b + 1) <= |Flat(blocks)|
    ensures Flat(blocks)[StartOf(blocks, b + 1) - 1] == Last(blocks[b])
  {
    FlatAt(blocks, b);
    FlatItem(blocks, b, |blocks[b]| - 1);
  }

  /** If every block's last key is before the target, everything is. */
  lemma {:induction false} NothingPast(t: TableLayout, target: Bytes)
    requires Ascending(ItemsOf(AllEntries(t))) && forall c :: 0 <= c < |t.blocks| ==> t.blocks[c] != []
    requires forall c :: 0 <= c < |t.blocks| ==> InternalLess(KeyOf(Last(t.blocks[c])), target)
    ensures Splits(AllEntries(t), target, |AllEntries(t)|)
  {
    hide InternalLess, KeyOf;
    var es, n := AllEntries(t), |t.blocks|;
    if es != [] {
      LastOfBlock(t.blocks, n - 1);
      assert t.blocks[..n] == t.blocks;
      forall q: nat | q < |es| ensures InternalLess(KeyOf(es[q]), target) { SplitAt(es, target, |es| - 1, q); }
    }
  }

  /** `std::lower_bound` over the index. */
  method FindBlock(index: seq<IndexEntry>, target: Bytes, ghost t: TableLayout) returns (b: nat)
    ensures b <= |index|
    ensures Indexes(index, t) && Ascending(ItemsOf(AllEntries(t))) ==>
              && (forall c :: 0 <= c < b ==> InternalLess(KeyOf(Last(t.blocks[c])), target))
              && (b < |index| ==> !InternalLess(KeyOf(Last(t.blocks[b])), target))
  {
    hide InternalLess, KeyOf, Ascending, AllEntries;
    ghost var good := Indexes(index, t) && Ascending(ItemsOf(AllEntries(t)));
    var lo: nat, hi: nat := 0, |index|;
    while lo < hi
      invariant lo <= hi <= |index|
      invariant good ==> forall c :: 0 <= c < lo ==> InternalLess(KeyOf(Last(t.blocks[c])), target)
      invariant good && hi < |index| ==> !InternalLess(KeyOf(Last(t.blocks[hi])), target)
    {
      var mid := lo + (hi - lo) / 2;
      if InternalLess(index[mid].key, target) {
        if good { EarlierBlocks(t, target, mid); }
        lo := mid + 1;
      } else {
        hi := mid;
      }
    }
    b := lo;
  }

  /** The index names the last key of every block. */
  ghost predicate Indexes(index: seq<IndexEntry>, t: TableLayout) {
    && |index| == |t.blocks|
    && forall b :: 0 <= b < |t.blocks| ==> t.blocks[b] != [] && index[b].key == KeyOf(Last(t.blocks[b]))
  }

  lemma {:induction false} EarlierBlocks(t: TableLayout, target: Bytes, b: nat)
    requires Ascending(ItemsOf(AllEntries(t))) && b < |t.blocks| && forall c :: 0 <= c < |t.blocks| ==>
               t.blocks[c] != []
    requires InternalLess(KeyOf(Last(t.blocks[b])), target)
    ensures forall c :: 0 <= c <= b ==> InternalLess(KeyOf(Last(t.blocks[c])), target)
  {
    hide InternalLess, KeyOf, Flat, Ascending;
    LastOfBlock(t.blocks, b);
    forall c: nat | c <= b ensures InternalLess(KeyOf(Last(t.blocks[c])), target) {
      LastOfBlock(t.blocks, c);
      StartsAscend(t.blocks, c + 1, b + 1);
      SplitAt(AllEntries(t), target, StartOf(t.blocks, b + 1) - 1, StartOf(t.blocks, c + 1) - 1);
    }
  }

  lemma {:induction false} StartsAscend(blocks: seq<seq<Entry>>, b: nat, c: nat)
    requires b <= c <= |blocks|
    ensures StartOf(blocks, b) <= StartOf(blocks, c)
    decreases c - b
  {
    hide Flat;
    if b < c {
      FlatAt(blocks, b);
      StartsAscend(blocks, b + 1, c);
    }
  }

  // ---- lookup -------------------------------------------------------------------------------------------

  datatype Lookup = Present(value: Bytes) | Deleted | Missing | Unreadable

  function Outcome(o: Option<Entry>): Lookup {
    if o.None? then Missing else if o.value.slot.Put? then Present(o.value.slot.value) else Deleted
  }

  /** The bytes of block `b`. */
  function BlockBytes(tb: Table, b: nat): Bytes
    requires b < |tb.index| && tb.index[b].handle.offset + tb.index[b].handle.size <= |tb.file|
  {
    tb.file[tb.index[b].handle.offset..tb.index[b].handle.offset + tb.index[b].handle.size]
  }

  lemma {:induction false} OpenBlock(tb: Table, t: TableLayout, hash: Bytes -> nat, b: nat)
    requires IsOpen(tb, t, hash) && InRange(tb) && b < |tb.index|
    ensures |t.layouts| == |t.filters| == |t.blocks| == |tb.index| && Finished(BlockBytes(tb, b), t.layouts[b])
    ensures t.layouts[b].items == ItemsOf(t.blocks[b]) && Ascending(t.layouts[b].items) && t.blocks[b] != []
    ensures forall e :: e in t.blocks[b] ==> MayMatch(t.filters[b], hash, e.key)
  {
    hide Finished, MayMatch, Ascending, ItemsOf, FilterBlock, Flat;
    assert BlockOk(tb.file, t, hash, b);
    BlockAscends(t.blocks, b);
  }

  lemma {:induction false} OpenIndex(tb: Table, t: TableLayout, hash: Bytes -> nat)
    requires IsOpen(tb, t, hash)
    ensures Indexes(tb.index, t) && Ascending(ItemsOf(AllEntries(t))) && AllStorable(AllEntries(t))
    ensures tb.filter == FilterBlock(t.filters) && |tb.filter| < U32
  {
    hide BlockOk, Ascending, ItemsOf, FilterBlock, Flat, KeyOf;
  }

  /** What the block found by the index search says about the lookup. */
  lemma {:induction false} BlockDecides(t: TableLayout, k: Key, r: nat, b: nat)
    requires Sorted(AllEntries(t)) && Ascending(ItemsOf(AllEntries(t))) && AllStorable(AllEntries(t)) && ReadPoint(r)
    requires b <= |t.blocks| && forall c :: 0 <= c < |t.blocks| ==> t.blocks[c] != []
    requires forall c :: 0 <= c < b ==> InternalLess(KeyOf(Last(t.blocks[c])), SeekKey(k, r))
    requires b < |t.blocks| ==> !InternalLess(KeyOf(Last(t.blocks[b])), SeekKey(k, r))
    ensures b == |t.blocks| ==> Newest(AllEntries(t), k, r) == None
    ensures b < |t.blocks| ==>
              var i := LowerBound(ItemsOf(t.blocks[b]), SeekKey(k, r));
              && i < |t.blocks[b]|
              && Newest(AllEntries(t), k, r) == if t.blocks[b][i].key == k then Some(t.blocks[b][i]) else None
  {
    hide InternalLess, KeyOf, SeekKey, Flat, Ascending, AllStorable, Sorted, Newest, LowerBound, ItemsOf, Splits;
    var target := SeekKey(k, r);
    if b == |t.blocks| {
      NothingPast(t, target);
      FirstPastIsNewest(AllEntries(t), k, r, |AllEntries(t)|);
    } else {
      BlockSplits(t, target, b);
      FirstPastIsNewest(AllEntries(t), k, r, StartOf(t.blocks, b) + LowerBound(ItemsOf(t.blocks[b]), target));
    }
  }

  lemma {:induction false} KeyFields(e: Entry)
    requires Storable(e)
    ensures var ik := KeyOf(e);
            |ik| == |e.key| + TAG_SIZE && ik[..|ik| - TAG_SIZE] == e.key
              && GetFixed64(ik, |ik| - TAG_SIZE) % 256 == TypeOf(e)
  {
    var ik := KeyOf(e);
    assert UserKey(ik) == e.key && TagOf(ik) == e.seqno * 256 + TypeOf(e);
  }

  lemma {:induction false} BlockIsStorable(t: TableLayout, b: nat)
    requires AllStorable(AllEntries(t)) && b < |t.blocks|
    ensures AllStorable(t.blocks[b])
  {
    hide Flat;
    forall i: nat | i < |t.blocks[b]| ensures Storable(t.blocks[b][i]) { FlatItem(t.blocks, b, i); }
  }

  /**
   * Through index, filter and block, a lookup finds the newest version visible at the read point,
   * or a deletion, or nothing, as searching the list would.
   */
  method Get(tb: Table, k: Key, r: nat, hash: Bytes -> nat, ghost t: TableLayout) returns (res: Lookup)
    requires InRange(tb)
    ensures IsOpen(tb, t, hash) && ReadPoint(r) && Sorted(AllEntries(t)) ==> res == Outcome(Newest(AllEntries(t), k, r))
  {
    hide IsOpen, InternalLess, KeyOf, SeekKey, Flat, Ascending, AllStorable, Sorted, Newest, LowerBound, ItemsOf,
      MayMatch,
      FilterBlock, Finished, GetFixed64;
    ghost var good := IsOpen(tb, t, hash) && ReadPoint(r) && Sorted(AllEntries(t));
    var target := SeekKey(k, r);
    if good { OpenIndex(tb, t, hash); }
    var b := FindBlock(tb.index, target, t);
    if good { BlockDecides(t, k, r, b); }
    if b == |tb.index| { return Missing; }
    if good {
      OpenBlock(tb, t, hash, b);
      BlockIsStorable(t, b);
    }
    var may := KeyMayMatchInBlock(tb.filter, b, hash, k, t.filters);
    if !may { return Missing; }
    res := SearchBlock(BlockBytes(tb, b), k, target, good, if good then t.layouts[b] else EMPTY, if good
      then t.blocks[b] else []);
  }

  /** The last part of a lookup: seek in the block and look at what is there. */
  method SearchBlock(bytes: Bytes, k: Key, target: Bytes, ghost good: bool, ghost l: Layout, ghost es: seq<Entry>)
    returns (res: Lookup)
    requires good ==> Finished(bytes, l) && l.items == ItemsOf(es) && Ascending(l.items) && AllStorable(es)
    requires good ==> LowerBound(ItemsOf(es), target) < |es|
    ensures good ==> var e := es[LowerBound(ItemsOf(es), target)];
                     res == if e.key == k then Outcome(Some(e)) else Missing
  {
    hide InternalLess, KeyOf, Ascending, LowerBound, Finished, GetFixed64;
    var c := new BlockCursor(bytes, l);
    if c.corrupted { return Unreadable; }
    c.Seek(target, l);
    if c.corrupted { return Unreadable; }
    if !c.valid { return Missing; }
    if good { KeyFields(es[LowerBound(ItemsOf(es), target)]); }
    var found := c.curKey;
    if |found| >= TAG_SIZE && found[..|found| - TAG_SIZE] == k {
      var tag := GetFixed64(found, |found| - TAG_SIZE);
      return if tag % 256 == TYPE_VALUE then Present(c.curValue) else Deleted;
    }
    return Missing;
  }

  // ---- opening ------------------------------------------------------------------------------------------

  /** Where the parts of a table are, read off its footer. */
  lemma {:induction false} FooterFields(front: Bytes, filter: Handle, index: Handle, entries: nat, crc: nat)
    requires filter.offset < U64 && filter.size < U32 && index.offset < U64 && index.size < U32 && crc < U32
    ensures var file, fs := front + Footer(filter, index, entries, crc), |front|;
            && |file| == fs + FOOTER_SIZE && file[..fs] == front
            && GetFixed64(file, fs) == filter.offset && GetFixed32(file, fs + 8) == filter.size
            && GetFixed64(file, fs + 12) == index.offset && GetFixed32(file, fs + 20) == index.size
            && GetFixed32(file, fs + 32) == crc && file[fs + 36..] == MAGIC
  {
    hide Fixed32, Fixed64, FromLittleEndian;
    var file, fs := front + Footer(filter, index, entries, crc), |front|;
    var a, b, c, d := EncodeHandle(filter), EncodeHandle(index), Fixed64(entries), Fixed32(crc);
    assert file[fs..] == a + b + c + d + MAGIC;
    AtSplit(file, fs, a + b + c + d, MAGIC);
    AtSplit(file, fs, a + b + c, d);
    AtSplit(file, fs, a + b, c);
    AtSplit(file, fs, a, b);
    AtSplit(file, fs, Fixed64(filter.offset), Fixed32(filter.size));
    AtSplit(file, fs + 12, Fixed64(index.offset), Fixed32(index.size));
    assert file[fs + 36..] == file[fs + 36..fs + 44];
  }

  /** A table's parts lie where its footer says. */
  lemma {:induction false} TableParts(
    file: Bytes, t: TableLayout, hash: Bytes -> nat, data: Bytes, index: Bytes, il: Layout)
    requires IsTable(file, t, hash, data, index, il)
    ensures |file| >= FOOTER_SIZE
    ensures var fs, f := |file| - FOOTER_SIZE, FilterBlock(t.filters);
            && file[fs + 36..] == MAGIC && |data| + |f| + |index| == fs
            && GetFixed64(file, fs) == |data| && GetFixed32(file, fs + 8) == |f|
            && GetFixed64(file, fs + 12) == |data| + |f| && GetFixed32(file, fs + 20) == |index|
            && GetFixed32(file, fs + 32) == Crc32(file[..fs])
            && file[|data|..|data| + |f|] == f && file[|data| + |f|..fs] == index && file[..|data|] == data
  {
    hide BlocksOk, Ascending, AllStorable, IndexItems, FilterBlock, Footer, Crc32, GetFixed32, GetFixed64, Laid,
      StartsOk;
    var f := FilterBlock(t.filters);
    var front := data + f + index;
    FooterFields(front, Handle(|data|, |f|), Handle(|data| + |f|, |index|), |AllEntries(t)|, Crc32(front));
    var fs := |front|;
    assert front[|data|..|data| + |f|] == f && front[|data| + |f|..] == index && front[..|data|] == data;
    assert file[|data|..|data| + |f|] == file[..fs][|data|..|data| + |f|];
    assert file[|data| + |f|..fs] == file[..fs][|data| + |f|..];
    assert file[..|data|] == file[..fs][..|data|];
  }

  ghost predicate HandlesFit(items: seq<Item>, hs: seq<Handle>, limit: nat) {
    && |hs| == |items|
    && forall i :: 0 <= i < |hs| ==>
        && items[i].value == EncodeHandle(hs[i]) && hs[i].offset < U64 && hs[i].size < U32
        && hs[i].offset + hs[i].size <= limit
  }

  // ---- the index, whatever the bytes ------------------------------------------------------------------------

  /** The value is a handle of a block that lies below `limit`. */
  ghost predicate HandleOk(v: Bytes, limit: nat) {
    |v| == 12 && GetFixed64(v, 0) + GetFixed32(v, 8) <= limit
  }

  /** The entries are the items' keys and handles. */
  ghost predicate ListsHandles(items: seq<Item>, limit: nat, entries: seq<IndexEntry>) {
    && |entries| == |items|
    && forall i :: 0 <= i < |items| ==>
        && HandleOk(items[i].value, limit) && entries[i].key == items[i].key
        && entries[i].handle == Handle(GetFixed64(items[i].value, 0), GetFixed32(items[i].value, 8))
  }

  /** Every entry of the block parses, there is one, and all are handles. */
  ghost predicate IndexOk(b: Bytes, limit: nat) {
    TrailerOk(b) && AreHandles(Walk(b, EntriesEnd(b), 0, []), limit)
  }

  ghost predicate AreHandles(o: Option<seq<Item>>, limit: nat) {
    o.Some? && o.value != [] && forall i :: 0 <= i < |o.value| ==> HandleOk(o.value[i].value, limit)
  }

  /** The item at hand and those behind it. */
  ghost function Ahead(b: Bytes, end: nat, key: Bytes, value: Bytes, off: nat): Option<seq<Item>>
    requires end <= |b|
  {
    var rest := Walk(b, end, off, key);
    if rest.None? then None else Some([Item(key, value)] + rest.value)
  }

  /** What the cursor meets next, and the rest. */
  lemma {:induction false} WalkStep(b: Bytes, end: nat, off: nat, scratch: Bytes)
    requires end <= |b|
    ensures Walk(b, end, off, scratch) ==
            match Parse(b, end, off, scratch)
            case AtEnd => Some([])
            case Corrupt => None
            case Parsed(k, v, e) => Ahead(b, end, k, v, e)
  {
    hide Parse;
  }

  /** `entries` have been read of the items in `o`, and `rest` is to come. */
  ghost predicate Reached(o: Option<seq<Item>>, rest: Option<seq<Item>>, limit: nat, entries: seq<IndexEntry>) {
    if rest.None? then o.None?
    else
      && o.Some? && |o.value| == |entries| + |rest.value| && o.value[|entries|..] == rest.value
      && ListsHandles(o.value[..|entries|], limit, entries)
  }

  lemma {:induction false} NothingIndexed(limit: nat, o: Option<seq<Item>>)
    ensures Reached(o, o, limit, [])
  {
    if o.Some? { assert o.value[0..] == o.value; }
  }

  lemma {:induction false} OneMoreIndexed(
    o: Option<seq<Item>>, b: Bytes, end: nat, key: Bytes, v: Bytes, off: nat, limit: nat, entries: seq<IndexEntry>)
    requires end <= |b| && Reached(o, Ahead(b, end, key, v, off), limit, entries) && HandleOk(v, limit)
    ensures Reached(o, Walk(b, end, off, key), limit,
                    entries + [IndexEntry(key, Handle(GetFixed64(v, 0), GetFixed32(v, 8)))])
  {
    hide Walk, GetFixed64, GetFixed32;
    var rest := Walk(b, end, off, key);
    if rest.Some? {
      var all, n := o.value, |entries|;
      assert all[n] == all[n..][0] == Item(key, v);
      assert all[n + 1..] == all[n..][1..];
      assert forall i :: 0 <= i < n ==> all[..n][i] == all[..n + 1][i];
    }
  }

  lemma {:induction false} BadHandle(
    o: Option<seq<Item>>, b: Bytes, end: nat, key: Bytes, v: Bytes, off: nat, limit: nat, entries: seq<IndexEntry>)
    requires end <= |b| && Reached(o, Ahead(b, end, key, v, off), limit, entries) && !HandleOk(v, limit)
    ensures !AreHandles(o, limit)
  {
    hide Walk, HandleOk;
    if o.Some? { assert o.value[|entries|] == o.value[|entries|..][0] == Item(key, v); }
  }

  lemma {:induction false} AllIndexed(
    o: Option<seq<Item>>, rest: Option<seq<Item>>, limit: nat, entries: seq<IndexEntry>)
    requires Reached(o, rest, limit, entries) && (rest.Some? ==> rest.value == [])
    ensures rest.Some? && entries != [] <==> AreHandles(o, limit)
    ensures AreHandles(o, limit) ==> ListsHandles(o.value, limit, entries)
  {
    if o.Some? { assert o.value[..|entries|] == o.value; }
  }

  method ReadIndex(bytes: Bytes, limit: nat, ghost il: Layout, ghost hs: seq<Handle>)
    returns (ok: bool, entries: seq<IndexEntry>)
    ensures forall i :: 0 <= i < |entries| ==> entries[i].handle.offset + entries[i].handle.size <= limit
    ensures ok <==> IndexOk(bytes, limit)
    ensures ok ==> ListsHandles(Walk(bytes, EntriesEnd(bytes), 0, []).value, limit, entries)
    ensures Finished(bytes, il) && HandlesFit(il.items, hs, limit) ==>
              ok && |entries| == |hs| && forall i :: 0 <= i < |hs| ==> entries[i] == IndexEntry(il.items[i].key, hs[i])
  {
    hide Finished, EncodeHandle, GetFixed64, GetFixed32, Walk, Parse, Ahead, Reached, AreHandles, TrailerOk, EntriesEnd,
      ListsHandles;
    ghost var good := Finished(bytes, il) && HandlesFit(il.items, hs, limit);
    entries := [];
    var c := new BlockCursor(bytes, il);
    if c.corrupted { return false, []; }
    ghost var o := Walk(bytes, EntriesEnd(bytes), 0, []);
    WalkStep(bytes, c.limit, 0, []);
    c.SeekToFirst(il);
    NothingIndexed(limit, o);
    while c.valid
      invariant fresh(c) && c.data == bytes && c.Sound() && (c.valid ==> c.entryEnd <= c.limit)
      invariant forall i :: 0 <= i < |entries| ==> entries[i].handle.offset + entries[i].handle.size <= limit
      invariant !(c.valid && c.corrupted) && c.limit == EntriesEnd(bytes) && (c.valid ==> c.scratch == c.curKey)
      invariant Reached(o, if c.valid then Ahead(bytes, c.limit, c.curKey, c.curValue, c.entryEnd)
                        else if c.corrupted then None else Some([]), limit, entries)
      invariant good ==> c.Opened(il) && |entries| <= |hs| && c.Standing(il, |entries|)
      invariant good ==> forall i :: 0 <= i < |entries| ==> entries[i] == IndexEntry(il.items[i].key, hs[i])
      decreases if c.valid then c.limit - c.entryEnd + 1 else 0
    {
      var handle := c.curValue;
      if good { HandleRoundTrip(hs[|entries|]); }
      if |handle| != 12 {
        BadHandle(o, bytes, c.limit, c.curKey, handle, c.entryEnd, limit, entries);
        return false, [];
      }
      var h := Handle(GetFixed64(handle, 0), GetFixed32(handle, 8));
      if h.offset > limit || h.offset + h.size > limit {
        BadHandle(o, bytes, c.limit, c.curKey, handle, c.entryEnd, limit, entries);
        return false, [];
      }
      OneMoreIndexed(o, bytes, c.limit, c.curKey, handle, c.entryEnd, limit, entries);
      WalkStep(bytes, c.limit, c.entryEnd, c.curKey);
      entries := entries + [IndexEntry(c.curKey, h)];
      c.Next(il, |entries| - 1);
    }
    ok := !c.corrupted && entries != [];
    AllIndexed(o, if c.corrupted then None else Some([]), limit, entries);
    if good { HasItems(bytes, il); }
  }

  lemma {:induction false} HasItems(b: Bytes, l: Layout)
    requires Finished(b, l)
    ensures l.items != []
  {
  }

  /** The key of the first entry, if trailer and entry are well-formed. */
  ghost function KeyInFront(b: Bytes): Option<Bytes> {
    var p := Parse(b, EntriesEnd(b), 0, []);
    if TrailerOk(b) && p.Parsed? then Some(p.key) else None
  }

  /** The first key of a block. */
  method FirstKey(bytes: Bytes, ghost l: Layout) returns (o: Option<Bytes>)
    ensures Finished(bytes, l) ==> l.items != [] && o == Some(l.items[0].key)
    ensures o == KeyInFront(bytes)
  {
    hide Finished, Parse, TrailerOk, EntriesEnd;
    if Finished(bytes, l) { HasItems(bytes, l); }
    var c := new BlockCursor(bytes, l);
    if c.corrupted { return None; }
    c.SeekToFirst(l);
    if !c.valid { return None; }
    return Some(c.curKey);
  }

  /** Blocks stay where they are when more is appended. */
  lemma {:induction false} BlocksInFile(file: Bytes, data: Bytes, t: TableLayout, hash: Bytes -> nat)
    requires BlocksOk(data, t, hash) && |data| <= |file| && file[..|data|] == data
    ensures BlocksOk(file, t, hash)
  {
    hide Finished, MayMatch, ItemsOf;
    forall b: nat | b < |t.blocks| ensures BlockOk(file, t, hash, b) {
      assert BlockOk(data, t, hash, b);
      var h := t.handles[b];
      assert data[h.offset..h.offset + h.size] == file[..|data|][h.offset..h.offset + h.size]
        == file[h.offset..h.offset + h.size];
    }
  }

  lemma {:induction false} IndexFits(data: Bytes, t: TableLayout, hash: Bytes -> nat, limit: nat)
    requires BlocksOk(data, t, hash) && |data| <= limit
    ensures HandlesFit(IndexItems(t), t.handles, limit)
  {
    hide MayMatch, ItemsOf, KeyOf, EncodeHandle, Laid, StartsOk;
    forall b: nat | b < |t.blocks|
      ensures t.handles[b].offset < U64 && t.handles[b].size < U32 && t.handles[b].offset + t.handles[b].size <= limit
    {
      assert BlockOk(data, t, hash, b);
    }
  }

  lemma {:induction false} FirstEntry(t: TableLayout)
    requires t.blocks != [] && forall b :: 0 <= b < |t.blocks| ==> t.blocks[b] != []
    ensures AllEntries(t) != [] && AllEntries(t)[0] == t.blocks[0][0] && Last(AllEntries(t)) == Last(Last(t.blocks))
  {
    FlatItem(t.blocks, 0, 0);
    assert t.blocks[..0] == [];
  }

  /** The handles of filter and index block, if magic, ranges and checksum are right. */
  method ReadFooter(file: Bytes) returns (o: Option<(Handle, Handle)>)
    ensures o.Some? <==> FooterOk(file)
    ensures o.Some? ==> var f, i, fs := o.value.0, o.value.1, |file| - FOOTER_SIZE;
              f.offset + f.size <= fs && i.offset + i.size <= fs
    ensures FooterOk(file) ==>
              var fs := |file| - FOOTER_SIZE;
              o == Some((Handle(GetFixed64(file, fs), GetFixed32(file, fs + 8)),
                Handle(GetFixed64(file, fs + 12), GetFixed32(file, fs + 20))))
  {
    hide Crc32, GetFixed64, GetFixed32;
    if |file| < FOOTER_SIZE { return None; }
    var fs := |file| - FOOTER_SIZE;
    if file[fs + 36..] != MAGIC { return None; }
    var filterOffset, filterSize := GetFixed64(file, fs), GetFixed32(file, fs + 8);
    var indexOffset, indexSize := GetFixed64(file, fs + 12), GetFixed32(file, fs + 20);
    if filterOffset > fs || filterOffset + filterSize > fs || indexOffset > fs
      || indexOffset + indexSize > fs { return None; }
    if Crc32(file[..fs]) != GetFixed32(file, fs + 32) { return None; }
    return Some((Handle(filterOffset, filterSize), Handle(indexOffset, indexSize)));
  }

  ghost predicate FooterOk(file: Bytes) {
    && |file| >= FOOTER_SIZE
    && var fs := |file| - FOOTER_SIZE;
       && file[fs + 36..] == MAGIC && Crc32(file[..fs]) == GetFixed32(file, fs + 32)
       && GetFixed64(file, fs) + GetFixed32(file, fs + 8) <= fs
            && GetFixed64(file, fs + 12) + GetFixed32(file, fs + 20) <= fs
  }

  /** The index block a footer points at. */
  ghost function IndexBlock(file: Bytes): Bytes
    requires |file| >= FOOTER_SIZE
  {
    var fs := |file| - FOOTER_SIZE;
    var offset, size := GetFixed64(file, fs + 12), GetFixed32(file, fs + 20);
    if offset + size <= fs then file[offset..offset + size] else []
  }

  /** The items of the index block. */
  ghost function IndexOf(file: Bytes): seq<Item>
    requires FooterOk(file) && IndexOk(IndexBlock(file), |file| - FOOTER_SIZE)
  {
    Walk(IndexBlock(file), EntriesEnd(IndexBlock(file)), 0, []).value
  }

  /** Footer, index and the first entry of the first block are in order. */
  ghost predicate Opens(file: Bytes) {
    && FooterOk(file) && IndexOk(IndexBlock(file), |file| - FOOTER_SIZE)
    && KeyInFront(BlockAt(file, IndexOf(file)[0].value)).Some?
  }

  /** The block that a handle below the end of the file points at. */
  ghost function BlockAt(file: Bytes, handle: Bytes): Bytes
    requires HandleOk(handle, |file|)
  {
    file[GetFixed64(handle, 0)..GetFixed64(handle, 0) + GetFixed32(handle, 8)]
  }

  lemma {:induction false} IsIndexOf(file: Bytes)
    requires FooterOk(file) && IndexOk(IndexBlock(file), |file| - FOOTER_SIZE)
    ensures IndexOf(file) == Walk(IndexBlock(file), EntriesEnd(IndexBlock(file)), 0, []).value
  {
  }

  lemma {:induction false} FirstBlock(file: Bytes, entries: seq<IndexEntry>)
    requires FooterOk(file) && IndexOk(IndexBlock(file), |file| - FOOTER_SIZE)
    requires ListsHandles(IndexOf(file), |file| - FOOTER_SIZE, entries)
    ensures entries != [] && IndexOf(file) != [] && HandleOk(IndexOf(file)[0].value, |file|)
    ensures var h := entries[0].handle;
            h.offset + h.size <= |file| && BlockAt(file, IndexOf(file)[0].value) == file[h.offset..h.offset + h.size]
  {
    hide Walk, GetFixed64, GetFixed32, FooterOk;
  }

  /** Checks the footer, the whole-file checksum and the index; a table that was built opens. */
  method Open(
    file: Bytes, ghost t: TableLayout, ghost hash: Bytes -> nat, ghost data: Bytes, ghost index: Bytes,
    ghost il: Layout)
    returns (o: Option<Table>)
    ensures o.Some? <==> Opens(file)
    ensures o.Some? ==> InRange(o.value) && o.value.file == file
                          && ListsHandles(IndexOf(file), |file| - FOOTER_SIZE, o.value.index)
    ensures IsTable(file, t, hash, data, index, il) ==> o.Some? && IsOpen(o.value, t, hash)
  {
    hide IsTable, IsOpen, Crc32, GetFixed64, GetFixed32, FilterBlock, Finished, KeyOf, UserKey, Flat, IndexItems,
      IndexOk, ListsHandles, KeyInFront, Walk, BlockAt, EntriesEnd, IndexOf;
    ghost var good := IsTable(file, t, hash, data, index, il);
    if good { TableParts(file, t, hash, data, index, il); }
    var footer := ReadFooter(file);
    if footer.None? { return None; }
    var filterHandle, indexHandle, fs := footer.value.0, footer.value.1, |file| - FOOTER_SIZE;
    if good { IndexFacts(file, t, hash, data, index, il, fs); }
    var ok, entries := ReadIndex(file[indexHandle.offset..indexHandle.offset + indexHandle.size], fs, il, t.handles);
    if ok {
      IsIndexOf(file);
      FirstBlock(file, entries);
    }
    if !ok || entries == [] { return None; }
    var h := entries[0].handle;
    var first := FirstKey(file[h.offset..h.offset + h.size], if good then t.layouts[0] else EMPTY);
    if first.None? { return None; }
    var tb := Table(file, entries, file[filterHandle.offset..filterHandle.offset + filterHandle.size],
      UserKey(first.value),
                    UserKey(entries[|entries| - 1].key));
    if good { OpensTable(tb, t, hash, data, index, il); }
    return Some(tb);
  }

  /** What reading the index of a table gives. */
  lemma {:induction false} IndexFacts(
    file: Bytes, t: TableLayout, hash: Bytes -> nat, data: Bytes, index: Bytes, il: Layout, fs: nat)
    requires IsTable(file, t, hash, data, index, il) && |data| <= fs
    ensures Finished(index, il) && HandlesFit(il.items, t.handles, fs)
    ensures t.handles != [] && |t.layouts| == |t.handles| == |t.blocks|
    ensures forall b :: 0 <= b < |t.blocks| ==> t.blocks[b] != [] && il.items[b].key == KeyOf(Last(t.blocks[b]))
    ensures |data| <= |file| && file[..|data|] == data && t.handles[0].offset + t.handles[0].size <= |file|
    ensures Finished(file[t.handles[0].offset..t.handles[0].offset + t.handles[0].size], t.layouts[0])
    ensures t.layouts[0].items == ItemsOf(t.blocks[0])
  {
    hide Finished, FilterBlock, Footer, Crc32, KeyOf, Ascending, AllStorable, MayMatch, EncodeHandle, GetFixed32,
      GetFixed64,
      ItemsOf, Flat;
    TableParts(file, t, hash, data, index, il);
    IndexFits(data, t, hash, fs);
    BlocksInFile(file, data, t, hash);
    assert BlockOk(file, t, hash, 0);
  }

  lemma {:induction false} OpensTable(
    tb: Table, t: TableLayout, hash: Bytes -> nat, data: Bytes, index: Bytes, il: Layout)
    requires IsTable(tb.file, t, hash, data, index, il) && |data| <= |tb.file| && tb.file[..|data|] == data
    requires |tb.index| == |t.handles| == |t.blocks| == |il.items| && tb.index != []
    requires forall b :: 0 <= b < |t.handles| ==> tb.index[b] == IndexEntry(il.items[b].key, t.handles[b])
    requires forall b :: 0 <= b < |t.blocks| ==> t.blocks[b] != [] && il.items[b].key == KeyOf(Last(t.blocks[b]))
    requires tb.filter == FilterBlock(t.filters)
    requires tb.smallest == UserKey(KeyOf(t.blocks[0][0])) && tb.largest == UserKey(KeyOf(Last(Last(t.blocks))))
    ensures IsOpen(tb, t, hash)
  {
    hide Finished, FilterBlock, Footer, Crc32, Ascending, AllStorable, BlockOk, Flat, GetFixed64, IndexItems;
    BlocksInFile(tb.file, data, t, hash);
    FirstEntry(t);
  }
}
