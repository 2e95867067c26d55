/** Writing a sorted table entry by entry. */
module SstBuild {
  import opened Bytes
  import opened Keys
  import opened Entries
  import opened InternalKeys
  import opened Crc
  import opened Block
  import opened BlockIo
  import opened Bloom
  import opened Sst

  function KeysOf(es: seq<Entry>): (r: seq<Key>)
    ensures |r| == |es| && forall i :: 0 <= i < |es| ==> r[i] == es[i].key
  {
    if es == [] then [] else KeysOf(es[..|es| - 1]) + [es[|es| - 1].key]
  }

  /** The layout with one more data block. */
  function Sealed(t: TableLayout, es: seq<Entry>, l: Layout, h: Handle, f: Bytes): TableLayout {
    TableLayout(t.blocks + [es], t.layouts + [l], t.handles + [h], t.filters + [f])
  }

  lemma {:induction false} SliceOfAppend(d: Bytes, more: Bytes, lo: nat, hi: nat)
    requires lo <= hi <= |d|
    ensures (d + more)[lo..hi] == d[lo..hi]
  {
  }

  /** Appending a finished block keeps the ones before it. */
  lemma {:induction false} SealKeepsBlocks(
    d: Bytes, t: TableLayout, hash: Bytes -> nat, es: seq<Entry>, l: Layout, b: Bytes, f: Bytes)
    requires BlocksOk(d, t, hash) && es != [] && Finished(b, l) && l.items == ItemsOf(es) && |d| < U64
    requires forall e :: e in es ==> MayMatch(f, hash, e.key)
    ensures BlocksOk(d + b, Sealed(t, es, l, Handle(|d|, |b|), f), hash)
  {
    hide Finished, MayMatch, ItemsOf;
    var t' := Sealed(t, es, l, Handle(|d|, |b|), f);
    forall i: nat | i < |t'.blocks| ensures BlockOk(d + b, t', hash, i) {
      if i < |t.blocks| {
        assert BlockOk(d, t, hash, i);
        SliceOfAppend(d, b, t.handles[i].offset, t.handles[i].offset + t.handles[i].size);
        assert t'.blocks[i] == t.blocks[i] && t'.filters[i] == t.filters[i];
      } else {
        assert (d + b)[|d|..|d| + |b|] == b;
      }
    }
  }

  lemma {:induction false} SealExtendsIndex(t: TableLayout, es: seq<Entry>, l: Layout, h: Handle, f: Bytes)
    requires |t.blocks| == |t.handles| && es != [] && forall b :: 0 <= b < |t.blocks| ==> t.blocks[b] != []
    ensures IndexItems(Sealed(t, es, l, h, f)) == IndexItems(t) + [Item(KeyOf(es[|es| - 1]), EncodeHandle(h))]
  {
    hide KeyOf, EncodeHandle;
  }

  lemma {:induction false} SealExtendsFilters(t: TableLayout, es: seq<Entry>, l: Layout, h: Handle, f: Bytes)
    ensures var t' := Sealed(t, es, l, h, f);
            && Concat(t'.filters) == Concat(t.filters) + f
            && FilterStarts(t'.filters) == FilterStarts(t.filters) + [|Concat(t.filters)|]
            && AllEntries(t') == AllEntries(t) + es
  {
    var t' := Sealed(t, es, l, h, f);
    assert t'.filters[..|t.filters|] == t.filters;
    assert t'.blocks[..|t.blocks|] == t.blocks;
    var a, b := FilterStarts(t'.filters), FilterStarts(t.filters) + [|Concat(t.filters)|];
    forall i | 0 <= i < |a| ensures a[i] == b[i] {
      if i < |t.filters| { assert t'.filters[..i] == t.filters[..i]; }
    }
  }

  /** What a builder holds: sealed blocks and the one being built. */
  datatype Progress = Progress(
    file: Bytes, t: TableLayout, pending: seq<Entry>, blockItems: seq<Item>, indexItems: seq<Item>,
    userKeys: seq<Key>, filters: Bytes, filterOffsets: seq<nat>, lastKey: Bytes, hasLast: bool, count: nat, meta: Meta)

  /** The key and sequence ranges a table's MANIFEST record carries. */
  datatype Meta = Meta(smallest: Key, largest: Key, smallestSeq: nat, largestSeq: nat)

  ghost predicate IsMeta(es: seq<Entry>, m: Meta) {
    es != [] ==>
      && m.smallest == es[0].key && m.largest == es[|es| - 1].key
      && (forall e :: e in es ==> m.smallestSeq <= e.seqno <= m.largestSeq)
      && (exists e :: e in es && e.seqno == m.smallestSeq) && exists e :: e in es && e.seqno == m.largestSeq
  }

  function Widened(m: Meta, hasLast: bool, e: Entry): Meta {
    if !hasLast then Meta(e.key, e.key, e.seqno, e.seqno)
    else
      Meta(m.smallest, e.key, if e.seqno < m.smallestSeq then e.seqno else m.smallestSeq,
           if e.seqno > m.largestSeq then e.seqno else m.largestSeq)
  }

  lemma {:induction false} WidenedIsMeta(es: seq<Entry>, m: Meta, e: Entry)
    requires IsMeta(es, m)
    ensures IsMeta(es + [e], Widened(m, es != [], e))
  {
    var m', all := Widened(m, es != [], e), es + [e];
    assert all[|es|] == e;
    if es != [] {
      var x :| x in es && x.seqno == m.smallestSeq;
      var y :| y in es && y.seqno == m.largestSeq;
      assert x in all && y in all && e in all;
    }
  }

  /** Everything added so far. */
  function Added(s: Progress): seq<Entry> {
    AllEntries(s.t) + s.pending
  }

  ghost predicate Good(s: Progress, hash: Bytes -> nat) {
    && BlocksOk(s.file, s.t, hash) && |s.file| < U64
    && s.blockItems == ItemsOf(s.pending) && s.userKeys == KeysOf(s.pending)
    && s.indexItems == IndexItems(s.t)
    && s.filters == Concat(s.t.filters) && s.filterOffsets == FilterStarts(s.t.filters)
    && Ascending(ItemsOf(Added(s))) && AllStorable(Added(s))
    && (s.hasLast <==> Added(s) != []) && (s.hasLast ==> s.lastKey == KeyOf(Added(s)[|Added(s)| - 1]))
    && s.count == |Added(s)| && IsMeta(Added(s), s.meta)
  }

  function AfterSeal(s: Progress, l: Layout, block: Bytes, filter: Bytes): Progress {
    var h := Handle(|s.file|, |block|);
    s.(file := s.file + block, t := Sealed(s.t, s.pending, l, h, filter), pending := [], blockItems := [],
       indexItems := s.indexItems + [Item(s.lastKey, EncodeHandle(h))], userKeys := [],
       filters := s.filters + filter, filterOffsets := s.filterOffsets + [|s.filters|])
  }

  lemma {:induction false} SealKeepsGood(s: Progress, hash: Bytes -> nat, l: Layout, block: Bytes, filter: Bytes)
    requires Good(s, hash) && s.blockItems != [] && Finished(block, l) && l.items == s.blockItems
               && |s.file| + |block| < U64
    requires forall j :: 0 <= j < |s.userKeys| ==> MayMatch(filter, hash, s.userKeys[j])
    ensures Good(AfterSeal(s, l, block, filter), hash) && Added(AfterSeal(s, l, block, filter)) == Added(s)
  {
    hide Finished, MayMatch, KeyOf, EncodeHandle, BlockOk, Ascending, AllStorable, Concat, FilterStarts, AllEntries,
      IsMeta;
    FilterCovers(s.pending, filter, hash);
    SealKeepsBlocks(s.file, s.t, hash, s.pending, l, block, filter);
    SealExtendsIndex(s.t, s.pending, l, Handle(|s.file|, |block|), filter);
    SealExtendsFilters(s.t, s.pending, l, Handle(|s.file|, |block|), filter);
    assert Added(AfterSeal(s, l, block, filter)) == Added(s);
  }

  function AfterAdd(s: Progress, e: Entry): Progress {
    s.(pending := s.pending + [e], blockItems := s.blockItems + [ItemOf(e)], userKeys := s.userKeys + [e.key],
       lastKey := KeyOf(e), hasLast := true, count := s.count + 1, meta := Widened(s.meta, s.hasLast, e))
  }

  lemma {:induction false} AddKeepsGood(s: Progress, hash: Bytes -> nat, e: Entry)
    requires Good(s, hash) && Storable(e) && (s.hasLast ==> InternalLess(s.lastKey, KeyOf(e)))
    ensures Good(AfterAdd(s, e), hash) && Added(AfterAdd(s, e)) == Added(s) + [e]
  {
    hide KeyOf, BlocksOk, InternalLess, Concat, FilterStarts, AllEntries, IndexItems, ItemsOf, KeysOf, Ascending,
      AllStorable, IsMeta;
    WidenedIsMeta(Added(s), s.meta, e);
    assert Added(AfterAdd(s, e)) == Added(s) + [e];
    ListsSnoc(s.pending, e);
    ListsSnoc(Added(s), e);
    AscendingSnoc(Added(s), e);
  }

  lemma {:induction false} ListsSnoc(es: seq<Entry>, e: Entry)
    ensures ItemsOf(es + [e]) == ItemsOf(es) + [ItemOf(e)] && KeysOf(es + [e]) == KeysOf(es) + [e.key]
    ensures AllStorable(es) && Storable(e) ==> AllStorable(es + [e])
  {
    assert (es + [e])[..|es|] == es;
  }

  lemma {:induction false} AscendingSnoc(es: seq<Entry>, e: Entry)
    requires Ascending(ItemsOf(es)) && (es != [] ==> InternalLess(KeyOf(es[|es| - 1]), KeyOf(e)))
    ensures Ascending(ItemsOf(es + [e]))
  {
    hide KeyOf, InternalLess;
    var a, b := ItemsOf(es), ItemsOf(es + [e]);
    forall i, j | 0 <= i < j < |b| ensures InternalLess(b[i].key, b[j].key) {
      if j < |es| {
        assert InternalLess(a[i].key, a[j].key);
      } else if i < |es| - 1 {
        assert InternalLess(a[i].key, a[|es| - 1].key);
        InternalLessIsStrictOrder(a[i].key, a[|es| - 1].key, KeyOf(e));
      }
    }
  }

  lemma {:induction false} FilterCovers(es: seq<Entry>, f: Bytes, hash: Bytes -> nat)
    requires forall j :: 0 <= j < |es| ==> MayMatch(f, hash, KeysOf(es)[j])
    ensures forall e :: e in es ==> MayMatch(f, hash, e.key)
  {
    hide MayMatch;
    forall e | e in es ensures MayMatch(f, hash, e.key) {
      var j :| 0 <= j < |es| && es[j] == e;
      assert KeysOf(es)[j] == e.key;
    }
  }

  /** A bound on what an entry adds to the index and to the filters. */
  function Cost(e: Entry, bitsPerKey: nat): nat {
    |e.key| + bitsPerKey + 64
  }

  lemma {:induction false} FilterGrows(n: nat, bitsPerKey: nat)
    ensures FilterSize(n + 1, bitsPerKey) <= FilterSize(n, bitsPerKey) + bitsPerKey + 10
              && FilterSize(0, bitsPerKey) == 0
  {
    assert (n + 1) * bitsPerKey == n * bitsPerKey + bitsPerKey;
  }

  class Builder {
    const blockSize: nat
    const bitsPerKey: nat
    const hash: Bytes -> nat
    const crcTable: array<Word>
    const dataBlock: BlockBuilder
    const indexBlock: BlockBuilder
    var file: Bytes
    var crc: Word
    var filters: Bytes
    var filterOffsets: seq<nat>
    var blockUserKeys: seq<Key>
    var lastInternalKey: Bytes
    var hasLastKey: bool
    var numEntries: nat
    var meta: Meta
    ghost var t: TableLayout
    ghost var pending: seq<Entry>

    ghost function State(): Progress
      reads this, dataBlock, indexBlock
    {
      Progress(file, t, pending, dataBlock.layout.items, indexBlock.layout.items, blockUserKeys, filters, filterOffsets,
               lastInternalKey, hasLastKey, numEntries, meta)
    }

    ghost predicate Valid()
      reads this, dataBlock, indexBlock, crcTable
    {
      && dataBlock != indexBlock && dataBlock.Valid() && indexBlock.Valid()
      && IsCrcTable(crcTable) && crc == Crc32From(file, WordOf(0))
      && Good(State(), hash)
      && (dataBlock.layout.items != [] ==> CanSeal())
    }

    /** The block being built and its index entry stay within the format's 32-bit fields. */
    ghost predicate CanSeal()
      reads this, dataBlock, indexBlock
    {
      && |dataBlock.buffer| + 4 * (|dataBlock.restarts| + 1) < U32
      && |indexBlock.buffer| + ITEM_HEADER + |lastInternalKey| + 12 < U32
      && |file| + U32 < U64
    }

    /** The block being built is below its target size, or empty. */
    ghost predicate Small()
      reads dataBlock
    {
      || |dataBlock.buffer| + 4 * (|dataBlock.restarts| + 1) < blockSize
      || (|dataBlock.buffer| == 0 && |dataBlock.restarts| == 1)
    }

    /** Index and filters hold at most what entries costing `n` bytes account for. */
    ghost predicate Uses(n: nat)
      reads this, dataBlock, indexBlock
    {
      var open := dataBlock.layout.items != [];
      && |indexBlock.buffer| + 4 * |indexBlock.restarts|
           + (if open then 2 * ITEM_HEADER + |lastInternalKey| + 4 else 0) <= n + 4
      && |filters| + 4 * |filterOffsets| + (if open then FilterSize(|blockUserKeys|, bitsPerKey) + 4 else 0) <= n
      && |file| <= |filterOffsets| * U32
    }

    /** Every block sealed so far reached the target size. */
    ghost predicate FullBlocks()
      reads this`t
    {
      forall b :: 0 <= b < |t.handles| ==> t.handles[b].size >= blockSize
    }

    ghost predicate CanAdd(e: Entry)
      reads this, dataBlock, indexBlock
    {
      && |dataBlock.buffer| + ITEM_HEADER + |e.key| + TAG_SIZE + |ItemOf(e).value|
           + 4 * (|dataBlock.restarts| + 2) < U32
      && |indexBlock.buffer| + 2 * ITEM_HEADER + |e.key| + TAG_SIZE < U32
      && |file| + U32 < U64
    }

    constructor (blockSize: nat, restartInterval: nat, bitsPerKey: nat, hash: Bytes -> nat)
      ensures Valid() && Added(State()) == [] && fresh(dataBlock) && fresh(indexBlock) && fresh(crcTable)
      ensures this.hash == hash && this.bitsPerKey == bitsPerKey && this.blockSize == blockSize && Uses(0) && Small()
      ensures FullBlocks()
    {
      hide IsCrcTable, WordOf, BlockBuilder.Valid;
      var table := BuildTable();
      this.blockSize, this.bitsPerKey, this.hash, crcTable := blockSize, bitsPerKey, hash, table;
      dataBlock := new BlockBuilder(restartInterval);
      indexBlock := new BlockBuilder(restartInterval);
      file, crc, filters, filterOffsets, blockUserKeys := [], WordOf(0), [], [], [];
      lastInternalKey, hasLastKey, numEntries, meta := [], false, 0, Meta([], [], 0, 0);
      t, pending := TableLayout([], [], [], []), [];
      new;
      EmptyChecksum();
    }

    /** The finished block goes to the end of the file. */
    method TakeBlock() returns (block: Bytes)
      requires dataBlock.Valid() && dataBlock.layout.items != []
                 && |dataBlock.buffer| + 4 * (|dataBlock.restarts| + 1) < U32
      requires IsCrcTable(crcTable) && crc == Crc32From(file, WordOf(0))
      modifies this`file, this`crc, dataBlock
      ensures Finished(block, old(dataBlock.layout)) && |block| < U32
      ensures |block| == old(|dataBlock.buffer| + 4 * (|dataBlock.restarts| + 1))
      ensures file == old(file) + block && crc == Crc32From(file, WordOf(0))
      ensures dataBlock.Valid() && dataBlock.layout == EMPTY && |dataBlock.buffer| == 0 && |dataBlock.restarts| == 1
    {
      hide BlockBuilder.Valid, Finished, Crc32From, IsCrcTable, WordOf;
      ghost var l := dataBlock.layout;
      block := dataBlock.Finish();
      SealedSize(block, l);
      Streaming(file, block, WordOf(0));
      crc := ComputeCrc32(block, crc, crcTable);
      file := file + block;
      dataBlock.Reset();
    }

    /** Finishes the block being built, with its filter and index entry. */
    method FlushDataBlock(ghost n: nat)
      requires Valid()
      modifies this, dataBlock, indexBlock
      ensures Valid() && pending == [] && Added(State()) == old(Added(State())) && meta == old(meta)
      ensures (old(Uses(n)) ==> Uses(n)) && (old(dataBlock.layout.items) != [] ==> Small())
      ensures t.handles == old(t.handles) + if old(dataBlock.layout.items) == [] then []
                else [Handle(|old(file)|, old(|dataBlock.buffer| + 4 * (|dataBlock.restarts| + 1)))]
    {
      hide BlockBuilder.Valid, Good, Finished, MayMatch, Crc32From, IsCrcTable, EncodeHandle, WordOf, Added, FilterSize;
      var none := dataBlock.IsEmpty();
      if none {
        NothingPending(State(), hash);
        return;
      }
      ghost var s, l := State(), dataBlock.layout;
      var handle := Handle(|file|, 0);
      var block := TakeBlock();
      handle := handle.(size := |block|);
      filterOffsets := filterOffsets + [|filters|];
      var filter := BuildFilter(blockUserKeys, hash, bitsPerKey);
      filters := filters + filter;
      blockUserKeys := [];
      CountKeys(s, hash);
      SealKeepsGood(s, hash, l, block, filter);
      indexBlock.Add(lastInternalKey, EncodeHandle(handle));
      t := Sealed(t, pending, l, handle, filter);
      pending := [];
      assert State() == AfterSeal(s, l, block, filter);
    }

    method Append(e: Entry)
      requires Valid() && Storable(e) && CanAdd(e) && (hasLastKey ==> InternalLess(lastInternalKey, KeyOf(e)))
      modifies this`meta, this`lastInternalKey, this`hasLastKey, this`blockUserKeys, this`numEntries,
        this`pending, dataBlock
      ensures Valid() && State() == AfterAdd(old(State()), e)
      ensures |dataBlock.buffer| <= old(|dataBlock.buffer|) + ITEM_HEADER + |e.key| + TAG_SIZE + |ItemOf(e).value|
      ensures |dataBlock.restarts| <= old(|dataBlock.restarts|) + 1
    {
      hide BlockBuilder.Valid, Good, Crc32From, IsCrcTable, WordOf, KeyOf, InternalLess;
      AddKeepsGood(State(), hash, e);
      meta := Widened(meta, hasLastKey, e);
      lastInternalKey, hasLastKey := KeyOf(e), true;
      KeyLength(e);
      dataBlock.Add(lastInternalKey, if e.slot.Put? then e.slot.value else []);
      blockUserKeys := blockUserKeys + [e.key];
      numEntries := numEntries + 1;
      pending := pending + [e];
    }

    method Accept(e: Entry, ghost n: nat)
      requires Valid() && Storable(e) && CanAdd(e) && (hasLastKey ==> InternalLess(lastInternalKey, KeyOf(e)))
      modifies this, dataBlock
      ensures Valid() && State() == AfterAdd(old(State()), e) && t == old(t)
      ensures old(Uses(n)) ==> Uses(n + Cost(e, bitsPerKey))
    {
      hide BlockBuilder.Valid, Good, Crc32From, IsCrcTable, WordOf, KeyOf, InternalLess, FilterSize;
      CountKeys(State(), hash);
      FilterGrows(|blockUserKeys|, bitsPerKey);
      KeyLength(e);
      Append(e);
    }

    /** Accepts an entry that comes after the last one; seals the block once it is large enough. */
    method Add(e: Entry, ghost n: nat) returns (ok: bool)
      requires Valid() && Storable(e) && CanAdd(e)
      modifies this, dataBlock, indexBlock
      ensures Valid() && (old(Uses(n)) ==> Uses(n + Cost(e, bitsPerKey))) && (ok ==> Small())
      ensures old(FullBlocks()) ==> FullBlocks()
      ensures ok <==>
                old(Added(State())) == []
                || InternalLess(KeyOf(old(Added(State()))[|old(Added(State()))| - 1]), KeyOf(e))
      ensures Added(State()) == if ok then old(Added(State())) + [e] else old(Added(State()))
    {
      hide BlockBuilder.Valid, Good, Crc32From, IsCrcTable, WordOf, Added, KeyOf, InternalLess, AfterAdd, FilterSize,
        Cost;
      LastAdded(State(), hash);
      if hasLastKey && !InternalLess(lastInternalKey, KeyOf(e)) { return false; }
      AddKeepsGood(State(), hash, e);
      Accept(e, n);
      BlockIsOpen(State(), old(State()), e);
      if |dataBlock.buffer| + (|dataBlock.restarts| + 1) * 4 >= blockSize { FlushDataBlock(n + Cost(e, bitsPerKey)); }
      return true;
    }

    /** Seals the last block and appends filters, index and footer: a table of everything added. */
    method Finish(ghost n: nat)
      returns (bytes: Bytes, m: Meta, ghost out: TableLayout, ghost data: Bytes, ghost index: Bytes, ghost il: Layout)
      requires Valid() && Added(State()) != [] && Uses(n) && n + 64 < U32
      modifies this, dataBlock, indexBlock
      ensures IsTable(bytes, out, hash, data, index, il)
      ensures AllEntries(out) == old(Added(State())) && IsMeta(AllEntries(out), m)
      ensures old(FullBlocks()) ==> forall b :: 0 <= b < |out.handles| - 1 ==> out.handles[b].size >= blockSize
    {
      hide BlockBuilder.Valid, Good, Crc32From, Crc32, IsCrcTable, WordOf, Added, Footer, IsTable, IsMeta, Finished,
        FilterBlock, IndexItems, BlocksOk,
        Ascending, AllStorable, ItemsOf, RestartBytes, Fixed32;
      SealLast(n);
      out, data, il, m := t, file, indexBlock.layout, meta;
      ReadyToFinish(State(), hash);
      AddedEntries(State(), hash);
      var filterBlock := AppendFixed32s(filters, filterOffsets);
      filterBlock := filterBlock + Fixed32(|filters|);
      assert filterBlock == FilterBlock(t.filters);
      var indexBytes := indexBlock.Finish();
      index := indexBytes;
      SealedSize(index, il);
      bytes := AddFooter(filterBlock, indexBytes);
      MakesTable(data, t, hash, index, il, bytes);
    }

    /** The last block is sealed and the index and filter blocks are small enough to finish. */
    ghost predicate Ready()
      reads this, dataBlock, indexBlock, crcTable
    {
      && indexBlock.Valid() && IsCrcTable(crcTable) && crc == Crc32From(file, WordOf(0)) && Good(State(), hash)
           && pending == []
      && |indexBlock.buffer| + 4 * (|indexBlock.restarts| + 1) < U32
      && |filters| + 4 * |filterOffsets| + 4 < U32 && |file| + 2 * U32 < U64
    }

    method SealLast(ghost n: nat)
      requires Valid() && Uses(n) && n + 64 < U32
      modifies this, dataBlock, indexBlock
      ensures Ready() && Added(State()) == old(Added(State())) && meta == old(meta)
      ensures old(FullBlocks()) ==> forall b :: 0 <= b < |t.handles| - 1 ==> t.handles[b].size >= blockSize
    {
      hide BlockBuilder.Valid, Good, Crc32From, IsCrcTable, WordOf, Added, FilterSize;
      FlushDataBlock(n);
    }

    /** The filter and index blocks, and the footer with the checksum of everything before it. */
    method AddFooter(filterBlock: Bytes, indexBlockBytes: Bytes) returns (bytes: Bytes)
      requires IsCrcTable(crcTable) && crc == Crc32From(file, WordOf(0))
      modifies this`file, this`crc
      ensures var front := old(file) + filterBlock + indexBlockBytes;
              bytes == front
                + Footer(Handle(|old(file)|, |filterBlock|), Handle(|old(file)| + |filterBlock|, |indexBlockBytes|),
                                      numEntries, Crc32(front))
    {
      hide Crc32From, Crc32, IsCrcTable, WordOf, Footer;
      Streaming(file, filterBlock, WordOf(0));
      Streaming(file + filterBlock, indexBlockBytes, WordOf(0));
      crc := ComputeCrc32(filterBlock, crc, crcTable);
      crc := ComputeCrc32(indexBlockBytes, crc, crcTable);
      var filterHandle, indexHandle := Handle(|file|, |filterBlock|), Handle(|file| + |filterBlock|, |indexBlockBytes|);
      file := file + filterBlock + indexBlockBytes;
      ChecksumValue(file);
      bytes := file + Footer(filterHandle, indexHandle, numEntries, ValueOf(crc));
    }
  }

  function TotalCost(es: seq<Entry>, bitsPerKey: nat): nat {
    if es == [] then 0 else TotalCost(es[..|es| - 1], bitsPerKey) + Cost(es[|es| - 1], bitsPerKey)
  }

  lemma {:induction false} CostOfPrefix(es: seq<Entry>, bitsPerKey: nat, n: nat)
    requires n <= |es|
    ensures TotalCost(es[..n], bitsPerKey) <= TotalCost(es, bitsPerKey)
  {
    hide Cost;
    if n < |es| {
      CostOfPrefix(es[..|es| - 1], bitsPerKey, n);
      assert es[..|es| - 1][..n] == es[..n];
    } else {
      assert es[..n] == es;
    }
  }

  /** What leaves room for one more entry. */
  lemma {:induction false} RoomLeft(b: Builder, n: nat, e: Entry)
    requires b.Uses(n) && b.Small() && n + Cost(e, b.bitsPerKey) + 64 < U32
    requires b.blockSize + |e.key| + |ItemOf(e).value| + 64 < U32
    ensures b.CanAdd(e)
  {
    hide FilterSize;
  }

  lemma {:induction false} BlockIsOpen(s: Progress, before: Progress, e: Entry)
    requires s == AfterAdd(before, e)
    ensures s.blockItems != []
  {
  }

  /**
   * What the 32-bit length fields hold: each data block, and the index and filter blocks each on
   * its own. The table as a whole may be larger.
   */
  ghost predicate FitsFormat(es: seq<Entry>, blockSize: nat, bitsPerKey: nat) {
    && (forall i :: 0 <= i < |es| ==> blockSize + |es[i].key| + |ItemOf(es[i]).value| + 64 < U32)
    && TotalCost(es, bitsPerKey) + 64 < U32
  }

  /**
   * The loop that turns a sorted run of entries into a table, for any block size, restart interval
   * and filter density, as long as no single block outgrows its length field.
   */
  method WriteTable(es: seq<Entry>, blockSize: nat, restartInterval: nat, bitsPerKey: nat, hash: Bytes -> nat)
    returns (bytes: Bytes, m: Meta, ghost out: TableLayout, ghost data: Bytes, ghost index: Bytes, ghost il: Layout)
    requires es != [] && Sorted(es) && AllStorable(es) && FitsFormat(es, blockSize, bitsPerKey)
    ensures IsTable(bytes, out, hash, data, index, il) && AllEntries(out) == es && IsMeta(es, m)
    ensures forall b :: 0 <= b < |out.handles| - 1 ==> out.handles[b].size >= blockSize
  {
    hide IsTable, IsMeta, Cost, InternalLess, KeyOf, Sorted, Added, Builder.Valid;
    var b := new Builder(blockSize, restartInterval, bitsPerKey, hash);
    for i := 0 to |es|
      invariant fresh(b) && fresh(b.dataBlock) && fresh(b.indexBlock) && b.hash == hash && b.bitsPerKey == bitsPerKey
      invariant b.blockSize == blockSize && b.Small() && b.FullBlocks()
      invariant b.Valid() && Added(b.State()) == es[..i] && b.Uses(TotalCost(es[..i], bitsPerKey))
    {
      CostOfPrefix(es, bitsPerKey, i + 1);
      assert es[..i + 1][..i] == es[..i];
      RoomLeft(b, TotalCost(es[..i], bitsPerKey), es[i]);
      if i > 0 { InOrder(es, i); }
      var ok := b.Add(es[i], TotalCost(es[..i], bitsPerKey));
      assert es[..i + 1] == es[..i] + [es[i]];
    }
    assert es[..|es|] == es;
    bytes, m, out, data, index, il := b.Finish(TotalCost(es, bitsPerKey));
  }

  lemma {:induction false} InOrder(es: seq<Entry>, i: nat)
    requires Sorted(es) && AllStorable(es) && 0 < i < |es|
    ensures es[..i] != [] && InternalLess(KeyOf(es[..i][|es[..i]| - 1]), KeyOf(es[i]))
  {
    hide InternalLess, KeyOf, Less;
    LessIsStrictTotalOrder();
    assert Before(es[i - 1], es[i]);
    KeyOrderIsEntryOrder(es[i - 1], es[i]);
  }

  method AppendFixed32s(buf: Bytes, values: seq<nat>) returns (r: Bytes)
    ensures r == buf + RestartBytes(values)
  {
    hide Fixed32;
    r := buf;
    for i := 0 to |values|
      invariant r == buf + RestartBytes(values[..i])
    {
      assert values[..i + 1][..i] == values[..i];
      r := r + Fixed32(values[i]);
    }
    assert values[..|values|] == values;
  }

  lemma {:induction false} ChecksumValue(d: Bytes)
    ensures ValueOf(Crc32From(d, WordOf(0))) == Crc32(d)
  {
  }

  /** With nothing pending the sealed blocks are everything. */
  lemma {:induction false} ReadyToFinish(s: Progress, hash: Bytes -> nat)
    requires Good(s, hash) && s.pending == []
    ensures Added(s) == AllEntries(s.t) && BlocksOk(s.file, s.t, hash)
    ensures s.indexItems == IndexItems(s.t) && (Added(s) != [] ==> s.t.blocks != [])
    ensures s.filters == Concat(s.t.filters) && s.filterOffsets == FilterStarts(s.t.filters)
    ensures Ascending(ItemsOf(AllEntries(s.t))) && AllStorable(AllEntries(s.t)) && IsMeta(AllEntries(s.t), s.meta)
    ensures s.count == |AllEntries(s.t)|
  {
    hide BlocksOk, Ascending, AllStorable, IsMeta, Concat, FilterStarts, IndexItems, ItemsOf;
    assert Added(s) == AllEntries(s.t);
  }

  /** Entries have been added, so the index has items. */
  lemma {:induction false} AddedEntries(s: Progress, hash: Bytes -> nat)
    requires Good(s, hash) && s.pending == [] && Added(s) != []
    ensures s.indexItems != [] && |FilterBlock(s.t.filters)| == |s.filters| + 4 * |s.filterOffsets| + 4
    ensures FilterBlock(s.t.filters) == s.filters + RestartBytes(s.filterOffsets) + Fixed32(|s.filters|)
  {
    hide BlocksOk, Ascending, AllStorable, IsMeta, Concat, ItemsOf, RestartBytes;
    ReadyToFinish(s, hash);
  }

  lemma {:induction false} MakesTable(
    data: Bytes, t: TableLayout, hash: Bytes -> nat, index: Bytes, il: Layout, bytes: Bytes)
    requires BlocksOk(data, t, hash) && t.blocks != [] && Finished(index, il) && il.items == IndexItems(t)
    requires Ascending(ItemsOf(AllEntries(t))) && AllStorable(AllEntries(t))
    requires |FilterBlock(t.filters)| < U32 && |data| + |FilterBlock(t.filters)| + |index| < U64
    requires var front := data + FilterBlock(t.filters) + index;
             bytes == front
               + Footer(Handle(|data|, |FilterBlock(t.filters)|), Handle(|data| + |FilterBlock(t.filters)|, |index|),
                                     |AllEntries(t)|, Crc32(front))
    ensures IsTable(bytes, t, hash, data, index, il)
  {
    hide BlocksOk, Finished, Ascending, AllStorable, Footer, Crc32, FilterBlock;
  }

  lemma {:induction false} LastAdded(s: Progress, hash: Bytes -> nat)
    requires Good(s, hash)
    ensures s.hasLast <==> Added(s) != []
    ensures s.hasLast ==> s.lastKey == KeyOf(Added(s)[|Added(s)| - 1])
  {
    hide BlocksOk, Concat, FilterStarts, AllEntries, IndexItems, ItemsOf, KeysOf, Ascending, AllStorable, IsMeta;
  }

  lemma {:induction false} KeyLength(e: Entry)
    ensures |KeyOf(e)| == |e.key| + TAG_SIZE
  {
  }

  lemma {:induction false} NothingPending(s: Progress, hash: Bytes -> nat)
    requires Good(s, hash) && s.blockItems == []
    ensures s.pending == []
  {
  }

  lemma {:induction false} CountKeys(s: Progress, hash: Bytes -> nat)
    requires Good(s, hash)
    ensures |s.userKeys| == |s.blockItems| == |s.pending| && s.indexItems == IndexItems(s.t)
  {
  }

  lemma {:induction false} SealedSize(b: Bytes, l: Layout)
    requires Finished(b, l)
    ensures |b| < U32
  {
  }

  lemma {:induction false} EmptyChecksum()
    ensures Crc32From([], WordOf(0)) == WordOf(0)
  {
    InvertTwice(WordOf(0));
  }
}
