/**
 * The block format: entries compressed against the key before them, restart points that are not,
 * and a trailing array of restart offsets.
 */
module Block {
  import opened Bytes
  import opened InternalKeys

  datatype Item = Item(key: Bytes, value: Bytes)

  const ITEM_HEADER: nat := 12

  function EncodeItem(it: Item, shared: nat): (s: Bytes)
    requires shared <= |it.key|
    ensures |s| == ITEM_HEADER + |it.key| - shared + |it.value|
  {
    Fixed32(shared) + Fixed32(|it.key| - shared) + Fixed32(|it.value|) + it.key[shared..] + it.value
  }

  /**
   * How a block is laid out: its items, the offset of each and of the end, how much of the previous
   * key each shares, and the item at each restart point.
   */
  datatype Layout = Layout(items: seq<Item>, offs: seq<nat>, shared: seq<nat>, starts: seq<nat>)

  const EMPTY: Layout := Layout([], [0], [], [0])

  ghost predicate Sized(l: Layout) {
    |l.offs| == |l.items| + 1 && |l.shared| == |l.items| && l.offs[0] == 0
  }

  /** The previous key supplies the part of item `i`'s key that its entry leaves out. */
  ghost predicate Shares(l: Layout, i: nat)
    requires Sized(l) && i < |l.items|
  {
    var n := l.shared[i];
    && n <= |l.items[i].key| < U32
    && if i == 0 then n == 0 else n <= |l.items[i - 1].key| && l.items[i - 1].key[..n] == l.items[i].key[..n]
  }

  ghost predicate ItemAt(d: Bytes, l: Layout, i: nat)
    requires Sized(l) && i < |l.items|
  {
    && Shares(l, i)
    && At(d, l.offs[i], EncodeItem(l.items[i], l.shared[i]))
    && l.offs[i + 1] == l.offs[i] + ITEM_HEADER + |l.items[i].key| - l.shared[i] + |l.items[i].value|
  }

  ghost predicate Laid(d: Bytes, l: Layout) {
    Sized(l) && forall i: nat :: i < |l.items| ==> ItemAt(d, l, i)
  }

  /** Restart points start at item 0, never go back, and share nothing. */
  ghost predicate StartsOk(l: Layout) {
    && |l.shared| == |l.items|
    && l.starts != [] && l.starts[0] == 0
    && (forall j :: 0 <= j < |l.starts| && l.starts[j] < |l.items| ==> l.shared[l.starts[j]] == 0)
    && forall i, j :: 0 <= i < j < |l.starts| ==> l.starts[i] <= l.starts[j]
  }

  /** Where the entries end and the restart array begins. */
  ghost function End(l: Layout): nat
    requires Sized(l)
  {
    l.offs[|l.items|]
  }

  /** A finished block. */
  ghost predicate Finished(b: Bytes, l: Layout) {
    && Sized(l) && Laid(b, l) && StartsOk(l) && l.items != []
    && |b| == End(l) + 4 * (|l.starts| + 1) && |b| < U32
    && GetFixed32(b, |b| - 4) == |l.starts|
    && forall j: nat :: j < |l.starts| ==>
        l.starts[j] < |l.items| && GetFixed32(b, End(l) + 4 * j) == l.offs[l.starts[j]]
  }

  lemma {:induction false} OffsAscend(d: Bytes, l: Layout, i: nat, j: nat)
    requires Laid(d, l) && i < j <= |l.items|
    ensures l.offs[i] + ITEM_HEADER <= l.offs[j]
    decreases j - i
  {
    hide At, EncodeItem;
    assert ItemAt(d, l, i);
    if i + 1 < j { OffsAscend(d, l, i + 1, j); }
  }

  // ---- reading ------------------------------------------------------------------------------------------

  datatype Parsed = Parsed(key: Bytes, value: Bytes, end: nat) | AtEnd | Corrupt

  /** `ParseEntry` in a block whose entries end at `limit`, the previous key being `scratch`. */
  function Parse(d: Bytes, limit: nat, off: nat, scratch: Bytes): (r: Parsed)
    requires limit <= |d|
    ensures r.Parsed? ==> off < r.end <= limit
  {
    if off == limit then AtEnd
    else if off > limit || off + ITEM_HEADER > limit then Corrupt
    else
      var shared, rest, vlen := GetFixed32(d, off), GetFixed32(d, off + 4), GetFixed32(d, off + 8);
      var body := off + ITEM_HEADER;
      if shared > |scratch| then Corrupt
      else if rest + vlen > limit - body then Corrupt
      else Parsed(scratch[..shared] + d[body..body + rest], d[body + rest..body + rest + vlen], body + rest + vlen)
  }

  /** The trailer names at least one restart point, and all of them lie before it. */
  predicate TrailerOk(d: Bytes) {
    && |d| >= 4
    && var n := GetFixed32(d, |d| - 4);
       n >= 1 && 4 * (n + 1) <= |d| && forall j: nat :: j < n ==> GetFixed32(d, EntriesEnd(d) + 4 * j) < EntriesEnd(d)
  }

  /** Where the entries end, by the trailer. */
  function EntriesEnd(d: Bytes): (e: nat)
    ensures e <= |d|
  {
    if |d| < 4 || 4 * (GetFixed32(d, |d| - 4) + 1) > |d| then 0 else |d| - 4 * (GetFixed32(d, |d| - 4) + 1)
  }

  /** All entries from `off` on, if they parse up to the end. */
  function Walk(d: Bytes, limit: nat, off: nat, scratch: Bytes): Option<seq<Item>>
    requires limit <= |d|
    decreases limit - off
  {
    match Parse(d, limit, off, scratch)
    case AtEnd => Some([])
    case Corrupt => None
    case Parsed(k, v, end) =>
      var rest := Walk(d, limit, end, k);
      if rest.None? then None else Some([Item(k, v)] + rest.value)
  }

  /** The fields of an entry sit where the reader looks for them. */
  lemma {:induction false} ItemFields(d: Bytes, off: nat, it: Item, shared: nat)
    requires shared <= |it.key| < U32 && At(d, off, EncodeItem(it, shared)) && |d| < U32
    ensures GetFixed32(d, off) == shared && GetFixed32(d, off + 4) == |it.key| - shared
    ensures GetFixed32(d, off + 8) == |it.value|
    ensures var body, rest := off + ITEM_HEADER, |it.key| - shared;
            d[body..body + rest] == it.key[shared..] && d[body + rest..body + rest + |it.value|] == it.value
  {
    hide Fixed32, FromLittleEndian;
    var a, b, c := Fixed32(shared), Fixed32(|it.key| - shared), Fixed32(|it.value|);
    AtSplit(d, off, a + b + c + it.key[shared..], it.value);
    AtSplit(d, off, a + b + c, it.key[shared..]);
    AtSplit(d, off, a + b, c);
    AtSplit(d, off, a, b);
  }

  /** Parsing where an item starts, with the key before it at hand, yields the item. */
  lemma {:induction false} ParseItem(b: Bytes, l: Layout, i: nat, scratch: Bytes)
    requires Laid(b, l) && |b| < U32 && i < |l.items| && End(l) <= |b|
    requires l.shared[i] == 0 || (i > 0 && scratch == l.items[i - 1].key)
    ensures Parse(b, End(l), l.offs[i], scratch) == Parsed(l.items[i].key, l.items[i].value, l.offs[i + 1])
  {
    hide EncodeItem, GetFixed32;
    var it, n := l.items[i], l.shared[i];
    assert ItemAt(b, l, i);
    ItemFields(b, l.offs[i], it, n);
    OffsAscend(b, l, i, |l.items|);
    if i + 1 < |l.items| { OffsAscend(b, l, i + 1, |l.items|); }
    assert it.key == it.key[..n] + it.key[n..];
  }

  // ---- order --------------------------------------------------------------------------------------------

  ghost predicate Ascending(items: seq<Item>) {
    forall i, j :: 0 <= i < j < |items| ==> InternalLess(items[i].key, items[j].key)
  }

  /** How many items come before the target. */
  function LowerBound(items: seq<Item>, target: Bytes): (n: nat)
    ensures n <= |items|
    ensures forall i :: 0 <= i < n ==> InternalLess(items[i].key, target)
    ensures n < |items| ==> !InternalLess(items[n].key, target)
  {
    if items == [] || !InternalLess(items[0].key, target) then 0
    else
      var n := LowerBound(items[1..], target);
      assert forall i :: 0 < i <= n ==> items[i] == items[1..][i - 1];
      n + 1
  }

  /** In an ascending block everything from there on is at or past the target. */
  lemma {:induction false} PastLowerBound(items: seq<Item>, target: Bytes, i: nat)
    requires Ascending(items) && i < |items|
    ensures InternalLess(items[i].key, target) <==> i < LowerBound(items, target)
  {
    hide InternalLess;
    var n := LowerBound(items, target);
    if n < i { InternalLessIsStrictOrder(items[n].key, items[i].key, target); }
  }
}
