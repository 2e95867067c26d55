/** Walking a sorted table across its blocks. */
module SstIterator {
  import opened Bytes
  import opened InternalKeys
  import opened Block
  import opened BlockIo
  import opened Sst
  import opened SstRead

  class TableIterator {
    const table: Table
    ghost const t: TableLayout
    ghost const hash: Bytes -> nat
    var blockIndex: nat
    var block: BlockCursor
    var valid: bool
    var corrupted: bool
    /** Where in the table's entries the iterator stands. */
    ghost var at: nat

    ghost predicate Usable()
    {
      IsOpen(table, t, hash) && InRange(table)
    }

    /** The cursor is on entry `i` of block `b`. */
    ghost predicate On(b: nat, i: nat)
      reads this, block
    {
      && InRange(table) && |t.layouts| == |t.blocks| == |table.index| && b < |t.blocks| && blockIndex == b
           && i < |t.blocks[b]|
      && block.data == BlockBytes(table, b) && block.Sound() && block.Opened(t.layouts[b])
           && block.OnItem(t.layouts[b], i)
      && at == StartOf(t.blocks, b) + i && valid
    }

    ghost predicate Valid()
      reads this, block
    {
      && Usable() && !corrupted && at <= |AllEntries(t)| && (valid <==> at < |AllEntries(t)|)
      && (valid ==> exists b: nat, i: nat :: On(b, i))
    }

    constructor (table: Table, ghost t: TableLayout, ghost hash: Bytes -> nat)
      requires IsOpen(table, t, hash) && InRange(table)
      ensures Valid() && fresh(block) && this.table == table && this.t == t && this.hash == hash
    {
      hide IsOpen, InRange, AllEntries;
      this.table, this.t, this.hash := table, t, hash;
      blockIndex, valid, corrupted, at := 0, false, false, |AllEntries(t)|;
      block := new BlockCursor([], EMPTY);
    }

    /** Seats the cursor on another block; unless told to stay unpositioned, on its first entry. */
    method EnterBlock(b: nat, seekFirst: bool)
      requires Usable() && b < |table.index|
      modifies this
      ensures fresh(block) && !corrupted && blockIndex == b && |t.layouts| == |t.blocks| == |table.index|
      ensures block.data == BlockBytes(table, b) && block.Sound() && block.Opened(t.layouts[b])
      ensures seekFirst ==> at == StartOf(t.blocks, b) && On(b, 0) && valid
    {
      hide IsOpen, Flat, Finished, BlockBytes, BlockCursor.Sound, BlockCursor.Opened, ItemsOf, Ascending;
      OpenBlock(table, t, hash, b);
      blockIndex := b;
      block := new BlockCursor(BlockBytes(table, b), t.layouts[b]);
      corrupted := false;
      if seekFirst {
        block.SeekToFirst(t.layouts[b]);
        at := StartOf(t.blocks, b);
      }
      valid := block.valid;
    }

    method SeekToFirst()
      requires Usable()
      modifies this
      ensures Valid() && fresh(block) && at == 0 && valid
    {
      hide IsOpen, InRange, On, BlockBytes, BlockCursor.Sound, BlockCursor.Opened;
      HasEntries(table, t, hash);
      EnterBlock(0, true);
      assert t.blocks[..0] == [];
    }

    /** Lands on the first entry at or past the target. */
    method Seek(target: Bytes)
      requires Usable()
      modifies this
      ensures Valid() && (valid ==> fresh(block)) && Splits(AllEntries(t), target, at)
    {
      hide IsOpen, InRange, Flat, InternalLess, KeyOf, Ascending, AllStorable, ItemsOf, LowerBound, Splits, BlockBytes,
        Finished, BlockCursor.Sound, BlockCursor.Opened;
      OpenIndex(table, t, hash);
      var b := FindBlock(table.index, target, t);
      if b == |table.index| {
        NothingPast(t, target);
        valid, corrupted, at := false, false, |AllEntries(t)|;
        return;
      }
      BlockSplits(t, target, b);
      OpenBlock(table, t, hash, b);
      EnterBlock(b, false);
      block.Seek(target, t.layouts[b]);
      valid := block.valid;
      ghost var i := LowerBound(ItemsOf(t.blocks[b]), target);
      at := StartOf(t.blocks, b) + i;
      assert On(b, i);
    }

    /** One entry on, into the next block where this one ends. */
    method Next()
      requires Valid() && valid
      modifies this, block
      ensures Valid() && (block == old(block) || fresh(block)) && at == old(at) + 1
    {
      hide IsOpen, InRange, Flat, BlockCursor.Sound, BlockCursor.Opened, Finished, ItemsOf, Ascending, BlockBytes;
      ghost var b: nat, i: nat :| On(b, i);
      OpenBlock(table, t, hash, b);
      FlatAt(t.blocks, b);
      block.Next(t.layouts[b], i);
      if block.valid {
        at := at + 1;
        assert On(b, i + 1);
        FlatItem(t.blocks, b, i + 1);
        return;
      }
      LeaveBlock();
    }

    /** Behind the last entry of a block: on to the next block, or to the end. */
    method LeaveBlock()
      requires Usable() && !corrupted && blockIndex < |table.index| == |t.blocks|
                 && at + 1 == StartOf(t.blocks, blockIndex + 1)
      modifies this
      ensures Valid() && (block == old(block) || fresh(block)) && at == old(at) + 1
    {
      hide IsOpen, InRange, On, Flat, BlockBytes, BlockCursor.Sound, BlockCursor.Opened, ItemsOf, Ascending;
      if blockIndex + 1 >= |table.index| {
        valid := false;
        at := at + 1;
        assert t.blocks[..blockIndex + 1] == t.blocks;
        return;
      }
      OpenBlock(table, t, hash, blockIndex + 1);
      FlatItem(t.blocks, blockIndex + 1, 0);
      EnterBlock(blockIndex + 1, true);
    }

    /** The key and value under the cursor are those of the entry the iterator stands at. */
    lemma {:induction false} Current()
      requires Valid() && valid
      ensures at < |AllEntries(t)| && block.curKey == KeyOf(AllEntries(t)[at])
                && block.curValue == ItemOf(AllEntries(t)[at]).value
    {
      hide IsOpen, InRange, Flat, BlockBytes, Ascending, KeyOf, BlockCursor.Sound, Finished;
      var b: nat, i: nat :| On(b, i);
      OpenBlock(table, t, hash, b);
      FlatItem(t.blocks, b, i);
    }
  }

  lemma {:induction false} HasEntries(tb: Table, t: TableLayout, hash: Bytes -> nat)
    requires IsOpen(tb, t, hash)
    ensures |tb.index| == |t.blocks| > 0 && t.blocks[0] != [] && AllEntries(t) != []
  {
    hide BlockOk, Ascending, AllStorable, FilterBlock, Flat, KeyOf;
  }
}
