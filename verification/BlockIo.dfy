/** Building a block entry by entry, and the cursor that reads and searches one. */
module BlockIo {
  import opened Seqs
  import opened Bytes
  import opened InternalKeys
  import opened Block

  // ---- building -----------------------------------------------------------------------------------------

  lemma {:induction false} AtAppend(d: Bytes, more: Bytes, off: nat, x: Bytes)
    requires At(d, off, x)
    ensures At(d + more, off, x)
  {
    assert (d + more)[off..off + |x|] == d[off..off + |x|];
  }

  lemma {:induction false} LaidAppend(d: Bytes, more: Bytes, l: Layout)
    requires Laid(d, l)
    ensures Laid(d + more, l)
  {
    hide At, EncodeItem;
    forall i: nat | i < |l.items| ensures ItemAt(d + more, l, i) {
      assert ItemAt(d, l, i);
      AtAppend(d, more, l.offs[i], EncodeItem(l.items[i], l.shared[i]));
    }
  }

  /** The layout with one more item. */
  function Extended(l: Layout, it: Item, n: nat, end: nat): Layout {
    l.(items := l.items + [it], offs := l.offs + [end], shared := l.shared + [n])
  }

  /** The part of a key that the previous one supplies. */
  ghost predicate Fits(l: Layout, it: Item, n: nat) {
    && n <= |it.key| < U32
    && if l.items == [] then n == 0 else var k := l.items[|l.items| - 1].key; n <= |k| && k[..n] == it.key[..n]
  }

  lemma {:induction false} OldItem(d: Bytes, l: Layout, it: Item, n: nat, end: nat, i: nat)
    requires Sized(l) && i < |l.items| && ItemAt(d, l, i)
    ensures Sized(Extended(l, it, n, end)) && ItemAt(d, Extended(l, it, n, end), i)
  {
    hide At, EncodeItem;
  }

  lemma {:induction false} NewItem(d: Bytes, l: Layout, it: Item, n: nat)
    requires Sized(l) && End(l) == |d| && Fits(l, it, n)
    ensures var x := EncodeItem(it, n); ItemAt(d + x, Extended(l, it, n, |d| + |x|), |l.items|)
  {
    hide EncodeItem;
    var x := EncodeItem(it, n);
    assert (d + x)[|d|..|d| + |x|] == x;
  }

  lemma {:induction false} LaidExtends(d: Bytes, l: Layout, it: Item, n: nat)
    requires Laid(d, l) && End(l) == |d| && Fits(l, it, n)
    ensures var x := EncodeItem(it, n);
            && Laid(d + x, Extended(l, it, n, |d| + |x|))
            && End(Extended(l, it, n, |d| + |x|)) == |d + x|
  {
    hide EncodeItem, ItemAt;
    var x := EncodeItem(it, n);
    var d', l' := d + x, Extended(l, it, n, |d| + |x|);
    LaidAppend(d, x, l);
    NewItem(d, l, it, n);
    forall i: nat | i < |l'.items| ensures ItemAt(d', l', i) {
      if i < |l.items| { OldItem(d', l, it, n, |d| + |x|, i); }
    }
  }

  /** The restart offsets so far; the last one may be that of the item to come. */
  ghost predicate StartsMatch(l: Layout, rs: seq<nat>) {
    && Sized(l) && StartsOk(l) && |rs| == |l.starts|
    && forall j :: 0 <= j < |rs| ==> l.starts[j] <= |l.items| && rs[j] == l.offs[l.starts[j]]
  }

  lemma {:induction false} RestartHere(l: Layout, rs: seq<nat>)
    requires StartsMatch(l, rs)
    ensures StartsMatch(l.(starts := l.starts + [|l.items|]), rs + [End(l)])
  {
  }

  lemma {:induction false} ItemKeepsStarts(l: Layout, rs: seq<nat>, it: Item, n: nat, end: nat)
    requires StartsMatch(l, rs) && (|l.items| in l.starts ==> n == 0)
    ensures StartsMatch(Extended(l, it, n, end), rs)
    ensures forall j :: 0 <= j < |l.starts| ==> l.starts[j] < |l.items| + 1
  {
    var l' := Extended(l, it, n, end);
    forall j | 0 <= j < |l.starts| ensures l'.shared[l'.starts[j]] == 0 && rs[j] == l'.offs[l'.starts[j]] {
      assert l.starts[j] in l.starts;
    }
  }

  /** The restart array. */
  function RestartBytes(rs: seq<nat>): (s: Bytes)
    ensures |s| == 4 * |rs|
  {
    if rs == [] then [] else RestartBytes(rs[..|rs| - 1]) + Fixed32(rs[|rs| - 1])
  }

  lemma {:induction false} RestartAt(d: Bytes, rs: seq<nat>, more: Bytes, j: nat)
    requires j < |rs| && forall i :: 0 <= i < |rs| ==> rs[i] < U32
    ensures GetFixed32(d + RestartBytes(rs) + more, |d| + 4 * j) == rs[j]
  {
    hide Fixed32, FromLittleEndian;
    var init, last := rs[..|rs| - 1], Fixed32(rs[|rs| - 1]);
    var all := d + RestartBytes(rs) + more;
    if j < |rs| - 1 {
      assert all == d + RestartBytes(init) + (last + more);
      RestartAt(d, init, last + more, j);
    } else {
      assert all[|d| + 4 * j..|d| + 4 * j + 4] == last;
    }
  }

  /** A restart point every `interval` items. */
  ghost predicate Spaced(starts: seq<nat>, interval: nat) {
    forall j :: 0 < j < |starts| ==> starts[j] == starts[j - 1] + interval
  }

  /** `n` bytes are all that `key` begins with of `previous`. */
  ghost predicate Longest(previous: Bytes, key: Bytes, n: nat) {
    && n <= |previous| && n <= |key| && previous[..n] == key[..n]
    && (n == |previous| || n == |key| || previous[n] != key[n])
  }

  /** Between restart points every entry leaves out all of the previous key that it can. */
  ghost predicate Packed(l: Layout) {
    && |l.shared| == |l.items|
    && forall i :: 0 < i < |l.items| && i !in l.starts ==> Longest(l.items[i - 1].key, l.items[i].key, l.shared[i])
  }

  lemma {:induction false} PacksOn(l: Layout, it: Item, n: nat, end: nat)
    requires Packed(l)
    requires l.items != [] && |l.items| !in l.starts ==> Longest(l.items[|l.items| - 1].key, it.key, n)
    ensures Packed(Extended(l, it, n, end))
  {
    hide Longest;
  }

  lemma {:induction false} StaysPacked(l: Layout)
    requires Packed(l)
    ensures Packed(l.(starts := l.starts + [|l.items|]))
  {
    hide Longest;
  }

  class BlockBuilder {
    const interval: nat
    var buffer: Bytes
    var restarts: seq<nat>
    var lastKey: Bytes
    var counter: nat
    ghost var layout: Layout

    ghost predicate Valid()
      reads this
    {
      && Laid(buffer, layout) && StartsMatch(layout, restarts) && End(layout) == |buffer| && |buffer| < U32
      && (interval >= 1 ==>
           Spaced(layout.starts, interval) && counter == |layout.items| - Last(layout.starts) <= interval)
      && Packed(layout)
      && (layout.items == [] ==> lastKey == [] && counter == 0 && layout == EMPTY)
      && (layout.items != [] ==> counter >= 1 && lastKey == layout.items[|layout.items| - 1].key)
      && (layout.items != [] ==> forall j :: 0 <= j < |layout.starts| ==> layout.starts[j] < |layout.items|)
    }

    constructor (interval: nat)
      ensures Valid() && layout == EMPTY && this.interval == interval && |buffer| == 0 && |restarts| == 1
    {
      this.interval := interval;
      buffer, restarts, lastKey, counter, layout := [], [0], [], 0, EMPTY;
    }

    method Reset()
      modifies this
      ensures Valid() && layout == EMPTY && |buffer| == 0 && |restarts| == 1
    {
      buffer, restarts, lastKey, counter, layout := [], [0], [], 0, EMPTY;
    }

    method IsEmpty() returns (b: bool)
      requires Valid()
      ensures b == (layout.items == [])
    {
      b := counter == 0;
    }

    method SharedWithLast(key: Bytes) returns (shared: nat)
      ensures Longest(lastKey, key, shared)
    {
      var minLen := if |lastKey| < |key| then |lastKey| else |key|;
      shared := 0;
      while shared < minLen && lastKey[shared] == key[shared]
        invariant shared <= minLen && lastKey[..shared] == key[..shared]
      {
        shared := shared + 1;
      }
    }

    method Add(key: Bytes, value: Bytes)
      requires Valid() && |buffer| + ITEM_HEADER + |key| + |value| < U32
      modifies this
      ensures Valid() && layout.items == old(layout.items) + [Item(key, value)]
      ensures |buffer| <= |old(buffer)| + ITEM_HEADER + |key| + |value| && |restarts| <= |old(restarts)| + 1
    {
      hide Laid, EncodeItem, StartsMatch, Packed;
      LaidIsSized(buffer, layout);
      assert layout.items != [] ==> |layout.items| !in layout.starts;
      var shared := 0;
      if counter < interval {
        shared := SharedWithLast(key);
      } else {
        RestartHere(layout, restarts);
        MoreStarts(buffer, layout, layout.starts + [|layout.items|]);
        StaysPacked(layout);
        restarts := restarts + [|buffer|];
        layout := layout.(starts := layout.starts + [|layout.items|]);
        counter := 0;
      }
      Place(key, value, shared);
    }

    /** Appends the entry; `shared` bytes of its key are left out. */
    method Place(key: Bytes, value: Bytes, shared: nat)
      requires Laid(buffer, layout) && End(layout) == |buffer| && Fits(layout, Item(key, value), shared)
      requires StartsMatch(layout, restarts) && (|layout.items| in layout.starts ==> shared == 0)
      requires interval >= 1 ==>
                 Spaced(layout.starts, interval) && counter == |layout.items| - Last(layout.starts) < interval
      requires Packed(layout)
      requires layout.items != [] && |layout.items| !in layout.starts ==>
                 Longest(layout.items[|layout.items| - 1].key, key, shared)
      requires |buffer| + ITEM_HEADER + |key| + |value| < U32
      modifies this`buffer, this`lastKey, this`counter, this`layout
      ensures Valid() && layout.items == old(layout.items) + [Item(key, value)]
      ensures |buffer| <= |old(buffer)| + ITEM_HEADER + |key| + |value|
    {
      hide Laid, EncodeItem, StartsMatch, Packed, Longest;
      LaidIsSized(buffer, layout);
      ghost var end := |buffer| + |EncodeItem(Item(key, value), shared)|;
      ItemKeepsStarts(layout, restarts, Item(key, value), shared, end);
      LaidExtends(buffer, layout, Item(key, value), shared);
      PacksOn(layout, Item(key, value), shared, end);
      ItemBytes(buffer, Item(key, value), shared);
      layout := Extended(layout, Item(key, value), shared, end);
      buffer := buffer + Fixed32(shared);
      buffer := buffer + Fixed32(|key| - shared);
      buffer := buffer + Fixed32(|value|);
      buffer := buffer + key[shared..];
      buffer := buffer + value;
      lastKey := key;
      counter := counter + 1;
    }

    method Finish() returns (b: Bytes)
      requires Valid() && layout.items != [] && |buffer| + 4 * (|restarts| + 1) < U32
      modifies this
      ensures Finished(b, old(layout)) && Packed(old(layout))
      ensures interval >= 1 ==> Spaced(old(layout).starts, interval)
      ensures buffer == [] && counter == 0 && restarts == [0] && |b| == |old(buffer)| + 4 * (|old(restarts)| + 1)
    {
      hide Laid, EncodeItem, GetFixed32, Fixed32, StartsOk;
      ghost var l, d, rs := layout, buffer, restarts;
      LaidIsSized(d, l);
      for i := 0 to |restarts|
        invariant restarts == rs && buffer == d + RestartBytes(rs[..i])
      {
        assert restarts[..i + 1][..i] == restarts[..i];
        buffer := buffer + Fixed32(restarts[i]);
      }
      assert restarts[..|restarts|] == restarts;
      buffer := buffer + Fixed32(|restarts|);
      b := buffer;
      FinishedBlock(d, l, rs, b);
      buffer, counter, restarts := [], 0, [0];
    }
  }

  lemma {:induction false} ItemBytes(d: Bytes, it: Item, shared: nat)
    requires shared <= |it.key|
    ensures d + Fixed32(shared) + Fixed32(|it.key| - shared) + Fixed32(|it.value|) + it.key[shared..] + it.value
            == d + EncodeItem(it, shared)
  {
    hide Fixed32;
  }

  lemma {:induction false} LaidIsSized(d: Bytes, l: Layout)
    requires Laid(d, l)
    ensures Sized(l)
  {
  }

  /** Restart points do not matter to where the entries are. */
  lemma {:induction false} MoreStarts(d: Bytes, l: Layout, starts: seq<nat>)
    requires Laid(d, l)
    ensures Laid(d, l.(starts := starts)) && End(l.(starts := starts)) == End(l)
  {
    hide At, EncodeItem;
    var l' := l.(starts := starts);
    forall i: nat | i < |l.items| ensures ItemAt(d, l', i) { assert ItemAt(d, l, i); }
  }

  lemma {:induction false} FinishedBlock(d: Bytes, l: Layout, rs: seq<nat>, b: Bytes)
    requires Laid(d, l) && StartsOk(l) && End(l) == |d| && l.items != [] && |rs| == |l.starts|
    requires forall j :: 0 <= j < |rs| ==> l.starts[j] < |l.items| && rs[j] == l.offs[l.starts[j]]
    requires b == d + RestartBytes(rs) + Fixed32(|rs|) && |b| < U32
    ensures Finished(b, l)
  {
    hide ItemAt, Fixed32, FromLittleEndian, RestartBytes, StartsOk;
    LaidAppend(d, RestartBytes(rs) + Fixed32(|rs|), l);
    assert d + (RestartBytes(rs) + Fixed32(|rs|)) == b;
    assert b[|b| - 4..|b|] == Fixed32(|rs|);
    forall j: nat | j < |rs| ensures rs[j] < U32 { OffsAscend(d, l, l.starts[j], |l.items|); }
    forall j: nat | j < |rs| ensures GetFixed32(b, End(l) + 4 * j) == rs[j] { RestartAt(d, rs, Fixed32(|rs|), j); }
  }

  // ---- reading ------------------------------------------------------------------------------------------

  class BlockCursor {
    const data: Bytes
    var limit: nat
    var numRestarts: nat
    var valid: bool
    var corrupted: bool
    var scratch: Bytes
    var curKey: Bytes
    var curValue: Bytes
    var entryEnd: nat

    /** What the constructor has checked, whatever the bytes. */
    ghost predicate Sound()
      reads this
    {
      && limit <= |data|
      && (!corrupted ==>
          && numRestarts >= 1 && limit + 4 * (numRestarts + 1) == |data|
          && forall j: nat :: j < numRestarts ==> GetFixed32(data, limit + 4 * j) < limit)
    }

    /** On item `i` of the block. */
    ghost predicate OnItem(l: Layout, i: nat)
      reads this
    {
      && Sized(l) && i < |l.items| && valid && !corrupted
      && curKey == l.items[i].key && curValue == l.items[i].value && scratch == curKey && entryEnd == l.offs[i + 1]
    }

    /** On item `i`, or past the last one. */
    ghost predicate Standing(l: Layout, i: nat)
      reads this
    {
      !corrupted && i <= |l.items| && (valid <==> i < |l.items|) && (valid ==> OnItem(l, i))
    }

    constructor (contents: Bytes, ghost l: Layout)
      ensures data == contents && Sound() && !valid && scratch == []
      ensures (corrupted <==> !TrailerOk(contents)) && (!corrupted ==> limit == EntriesEnd(contents))
      ensures Finished(contents, l) ==> Opened(l)
    {
      hide Finished, GetFixed32;
      var ok, lim, n := CheckTrailer(contents, l);
      data, limit, numRestarts, corrupted := contents, lim, n, !ok;
      valid, scratch, curKey, curValue, entryEnd := false, [], [], [], 0;
      new;
    }

    static method CheckTrailer(d: Bytes, ghost l: Layout) returns (ok: bool, lim: nat, n: nat)
      ensures lim <= |d| && (Finished(d, l) ==> ok && lim == End(l) && n == |l.starts|)
      ensures ok ==> n >= 1 && lim + 4 * (n + 1) == |d| && forall j: nat :: j < n ==> GetFixed32(d, lim + 4 * j) < lim
      ensures (ok <==> TrailerOk(d)) && (ok ==> lim == EntriesEnd(d))
    {
      hide Laid, GetFixed32;
      ok, lim, n := false, 0, 0;
      if |d| < 4 { return; }
      n := GetFixed32(d, |d| - 4);
      var trailer := (n + 1) * 4;
      if trailer > |d| || n == 0 { return; }
      lim := |d| - trailer;
      var i: nat := 0;
      while i < n
        invariant i <= n && !ok
        invariant forall j: nat :: j < i ==> GetFixed32(d, lim + 4 * j) < lim
      {
        if Finished(d, l) { RestartInside(d, l, i); }
        assert lim + i * 4 == EntriesEnd(d) + 4 * i;
        if GetFixed32(d, lim + i * 4) >= lim { return; }
        i := i + 1;
      }
      ok := true;
    }

    ghost predicate Opened(l: Layout)
      reads this
    {
      Finished(data, l) && !corrupted && limit == End(l) && numRestarts == |l.starts|
    }

    method ParseEntry(offset: nat) returns (ok: bool)
      requires Sound()
      modifies this`valid, this`corrupted, this`scratch, this`curKey, this`curValue, this`entryEnd
      ensures Sound() && !valid
      ensures match Parse(data, limit, offset, old(scratch))
              case Parsed(k, v, end) =>
                ok && scratch == curKey == k && curValue == v && entryEnd == end && corrupted == old(corrupted)
              case AtEnd => !ok && corrupted == old(corrupted) && scratch == old(scratch)
              case Corrupt => !ok && corrupted
    {
      hide GetFixed32;
      valid := false;
      if offset == limit { return false; }
      if offset > limit || offset + ITEM_HEADER > limit {
        corrupted := true;
        return false;
      }
      var shared, nonShared, valueLen := GetFixed32(data, offset), GetFixed32(data, offset + 4),
        GetFixed32(data, offset + 8);
      if shared > |scratch| || nonShared + valueLen > limit - offset - ITEM_HEADER {
        corrupted := true;
        return false;
      }
      var body := offset + ITEM_HEADER;
      scratch := scratch[..shared] + data[body..body + nonShared];
      curKey := scratch;
      curValue := data[body + nonShared..body + nonShared + valueLen];
      entryEnd := body + nonShared + valueLen;
      return true;
    }

    /** The cursor stands where a parse of the next entry leads. */
    ghost predicate Follows(p: Parsed)
      reads this
    {
      match p
      case Parsed(k, v, end) => valid && !corrupted && scratch == curKey == k && curValue == v && entryEnd == end
      case AtEnd => !valid && !corrupted
      case Corrupt => !valid && corrupted
    }

    method SeekToFirst(ghost l: Layout)
      requires Sound()
      modifies this`valid, this`corrupted, this`scratch, this`curKey, this`curValue, this`entryEnd
      ensures Sound()
      ensures old(Opened(l)) ==> Opened(l) && Standing(l, 0)
      ensures valid ==> entryEnd <= limit
      ensures if old(corrupted) then !valid && corrupted else Follows(Parse(data, limit, 0, old(scratch)))
    {
      hide Laid, Parse, GetFixed32, StartsOk;
      if corrupted {
        valid := false;
        return;
      }
      if Opened(l) { FirstParses(data, l, scratch); }
      ParseMoves(data, limit, 0, scratch);
      valid := ParseEntry(0);
    }

    method Next(ghost l: Layout, ghost i: nat)
      requires Sound()
      modifies this`valid, this`corrupted, this`scratch, this`curKey, this`curValue, this`entryEnd
      ensures Sound()
      ensures old(Opened(l) && OnItem(l, i)) ==> Opened(l) && Standing(l, i + 1)
      ensures valid ==> old(entryEnd) < entryEnd <= limit
      ensures old(valid && !corrupted) ==> Follows(Parse(data, limit, old(entryEnd), old(scratch)))
    {
      hide Laid, Parse, GetFixed32, StartsOk;
      if corrupted || !valid {
        valid := false;
        return;
      }
      if Opened(l) && OnItem(l, i) { NextParses(data, l, i); }
      ParseMoves(data, limit, entryEnd, scratch);
      valid := ParseEntry(entryEnd);
    }

    /** The full key at a restart point; empty where the entry does not fit. */
    method KeyAtRestart(j: nat, ghost l: Layout) returns (key: Bytes)
      requires Sound() && !corrupted && j < numRestarts
      ensures Opened(l) ==> key == l.items[l.starts[j]].key
    {
      hide GetFixed32, Laid, StartsOk;
      var off := GetFixed32(data, limit + j * 4);
      if Opened(l) { RestartKey(data, l, j); }
      if off + ITEM_HEADER > limit { return []; }
      var nonShared := GetFixed32(data, off + 4);
      var end := off + ITEM_HEADER + nonShared;
      key := data[off + ITEM_HEADER..if end < |data| then end else |data|];
    }

    /** Lands on the first item at or past the target. */
    method Seek(target: Bytes, ghost l: Layout)
      requires Sound()
      modifies this`valid, this`corrupted, this`scratch, this`curKey, this`curValue, this`entryEnd
      ensures Sound()
      ensures old(Opened(l)) && Ascending(l.items) ==> Opened(l) && Standing(l, LowerBound(l.items, target))
    {
      hide GetFixed32, Laid, InternalLess, LowerBound, Finished;
      if corrupted {
        valid := false;
        return;
      }
      ghost var good := Opened(l) && Ascending(l.items);
      var left := FindRestart(target, l);
      valid := false;
      var offset := GetFixed32(data, limit + left * 4);
      if good { RestartOffset(data, l, left); }
      ScanFrom(offset, target, l, if good then l.starts[left] else 0);
    }

    /** The last restart whose key is before the target, or the first. */
    method FindRestart(target: Bytes, ghost l: Layout) returns (left: nat)
      requires Sound() && !corrupted
      ensures left < numRestarts
      ensures Opened(l) && Ascending(l.items) ==> left < |l.starts| && l.starts[left] <= LowerBound(l.items, target)
    {
      hide GetFixed32, Laid, InternalLess, LowerBound, StartsOk;
      left := 0;
      var right := numRestarts - 1;
      while left < right
        invariant left <= right < numRestarts
        invariant left == 0 || (Opened(l) && Ascending(l.items) ==> l.starts[left] < LowerBound(l.items, target))
      {
        var mid := (left + right + 1) / 2;
        var key := KeyAtRestart(mid, l);
        if InternalLess(key, target) {
          if Opened(l) && Ascending(l.items) { PastLowerBound(l.items, target, l.starts[mid]); }
          left := mid;
        } else {
          right := mid - 1;
        }
      }
      if Opened(l) { FirstStart(data, l); }
    }

    method ScanFrom(from: nat, target: Bytes, ghost l: Layout, ghost first: nat)
      requires Sound() && !corrupted && !valid
      requires Opened(l) && Ascending(l.items) ==>
                 first < |l.items| && from == l.offs[first] && l.shared[first] == 0
                   && first <= LowerBound(l.items, target)
      modifies this`valid, this`corrupted, this`scratch, this`curKey, this`curValue, this`entryEnd
      ensures Sound()
      ensures old(Opened(l)) && Ascending(l.items) ==> Opened(l) && Standing(l, LowerBound(l.items, target))
    {
      hide GetFixed32, Laid, InternalLess, LowerBound, Parse, StartsOk;
      var offset := from;
      ghost var good: bool, i: nat := Opened(l) && Ascending(l.items), first;
      while offset < limit
        invariant Sound() && (good ==> Opened(l))
        invariant good ==> i <= LowerBound(l.items, target) <= |l.items| && offset == l.offs[i]
        invariant good ==> i < |l.items| ==> l.shared[i] == 0 || (i > 0 && scratch == l.items[i - 1].key)
        decreases limit - offset
      {
        if good { ScanStep(data, l, i, scratch, target); }
        ParseMoves(data, limit, offset, scratch);
        var ok := ParseEntry(offset);
        if !ok { return; }
        valid := true;
        if !InternalLess(curKey, target) { return; }
        offset := entryEnd;
        i := i + 1;
      }
      if good { EndsPast(data, l, i); }
      valid := false;
    }
  }

  // ---- what the cursor meets in a finished block ----------------------------------------------------------

  lemma {:induction false} RestartInside(b: Bytes, l: Layout, j: nat)
    requires Finished(b, l) && j < |l.starts|
    ensures GetFixed32(b, End(l) + j * 4) < End(l) && l.starts[j] < |l.items|
  {
    hide GetFixed32, ItemAt;
    OffsAscend(b, l, l.starts[j], |l.items|);
  }

  lemma {:induction false} RestartOffset(b: Bytes, l: Layout, j: nat)
    requires Finished(b, l) && j < |l.starts|
    ensures l.starts[j] < |l.items| && GetFixed32(b, End(l) + j * 4) == l.offs[l.starts[j]]
              && l.shared[l.starts[j]] == 0
  {
    hide GetFixed32, ItemAt;
  }

  lemma {:induction false} FirstStart(b: Bytes, l: Layout)
    requires Finished(b, l)
    ensures l.starts != [] && l.starts[0] == 0
  {
  }

  lemma {:induction false} FirstParses(b: Bytes, l: Layout, scratch: Bytes)
    requires Finished(b, l)
    ensures Parse(b, End(l), 0, scratch) == Parsed(l.items[0].key, l.items[0].value, l.offs[1])
  {
    hide GetFixed32, Parse, EncodeItem;
    assert ItemAt(b, l, 0);
    ParseItem(b, l, 0, scratch);
  }

  lemma {:induction false} NextParses(b: Bytes, l: Layout, i: nat)
    requires Finished(b, l) && i < |l.items|
    ensures Parse(b, End(l), l.offs[i + 1], l.items[i].key) ==
            if i + 1 < |l.items| then Parsed(l.items[i + 1].key, l.items[i + 1].value, l.offs[i + 2]) else AtEnd
  {
    hide GetFixed32, ItemAt;
    if i + 1 < |l.items| { ParseItem(b, l, i + 1, l.items[i].key); }
  }

  lemma {:induction false} RestartKey(b: Bytes, l: Layout, j: nat)
    requires Finished(b, l) && j < |l.starts|
    ensures var off := GetFixed32(b, End(l) + j * 4);
            && off + ITEM_HEADER <= End(l) && l.starts[j] < |l.items|
            && off + ITEM_HEADER + GetFixed32(b, off + 4) <= End(l)
            && b[off + ITEM_HEADER..off + ITEM_HEADER + GetFixed32(b, off + 4)] == l.items[l.starts[j]].key
  {
    hide GetFixed32, EncodeItem, Parse;
    RestartOffset(b, l, j);
    var i := l.starts[j];
    assert ItemAt(b, l, i);
    ItemFields(b, l.offs[i], l.items[i], 0);
    OffsAscend(b, l, i, |l.items|);
    if i + 1 < |l.items| { OffsAscend(b, l, i + 1, |l.items|); }
    assert l.items[i].key[0..] == l.items[i].key;
  }

  lemma {:induction false} ScanStep(b: Bytes, l: Layout, i: nat, scratch: Bytes, target: Bytes)
    requires Finished(b, l) && Ascending(l.items) && i <= LowerBound(l.items, target) && l.offs[i] < End(l)
    requires i < |l.items| ==> l.shared[i] == 0 || (i > 0 && scratch == l.items[i - 1].key)
    ensures i < |l.items|
              && Parse(b, End(l), l.offs[i], scratch) == Parsed(l.items[i].key, l.items[i].value, l.offs[i + 1])
    ensures InternalLess(l.items[i].key, target) <==> i < LowerBound(l.items, target)
  {
    hide GetFixed32, ItemAt, Parse, InternalLess, LowerBound, StartsOk;
    assert i < |l.items|;
    ParseItem(b, l, i, scratch);
    PastLowerBound(l.items, target, i);
  }

  lemma {:induction false} ParseMoves(d: Bytes, limit: nat, off: nat, scratch: Bytes)
    requires limit <= |d|
    ensures var r := Parse(d, limit, off, scratch); r.Parsed? ==> off < r.end <= limit
  {
  }

  /** Past the last entry there is no item left. */
  lemma {:induction false} EndsPast(b: Bytes, l: Layout, i: nat)
    requires Finished(b, l) && i <= |l.items| && l.offs[i] >= End(l)
    ensures i == |l.items|
  {
    hide GetFixed32, ItemAt, StartsOk;
    if i < |l.items| { OffsAscend(b, l, i, |l.items|); }
  }

  /** Decoding a finished block yields exactly the items added to it. */
  method Decode(b: Bytes, ghost l: Layout) returns (items: seq<Item>)
    requires Finished(b, l)
    ensures items == l.items
  {
    hide Finished;
    var c := new BlockCursor(b, l);
    c.SeekToFirst(l);
    items := [];
    while c.valid
      invariant fresh(c) && c.data == b && c.Sound() && c.Opened(l) && |items| <= |l.items|
      invariant items == l.items[..|items|] && c.Standing(l, |items|)
      decreases |l.items| - |items|
    {
      items := items + [Item(c.curKey, c.curValue)];
      c.Next(l, |items| - 1);
    }
  }
}
