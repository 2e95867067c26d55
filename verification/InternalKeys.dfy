/** Internal keys as bytes: the user key followed by an 8-byte tag of sequence number and type. */
module InternalKeys {
  import opened Bytes
  import opened Keys
  import opened Entries

  const TAG_SIZE: nat := 8

  /** A key too short to carry a tag counts as a bare user key with tag 0. */
  function UserKey(a: Bytes): Key {
    if |a| >= TAG_SIZE then a[..|a| - TAG_SIZE] else a
  }

  function TagOf(a: Bytes): nat {
    if |a| >= TAG_SIZE then GetFixed64(a, |a| - TAG_SIZE) else 0
  }

  /** `InternalKeyComparator`: user key ascending, then tag descending. */
  predicate InternalLess(a: Bytes, b: Bytes) {
    if UserKey(a) != UserKey(b) then Less(UserKey(a), UserKey(b)) else TagOf(a) > TagOf(b)
  }

  lemma {:induction false} InternalLessIsStrictOrder(a: Bytes, b: Bytes, c: Bytes)
    ensures !InternalLess(a, a)
    ensures InternalLess(a, b) && InternalLess(b, c) ==> InternalLess(a, c)
    ensures !InternalLess(a, b) && !InternalLess(b, a) ==> UserKey(a) == UserKey(b) && TagOf(a) == TagOf(b)
  {
    hide Less, UserKey, TagOf;
    LessIsStrictTotalOrder();
  }

  // ---- entries ----------------------------------------------------------------------------------------

  function TypeOf(e: Entry): nat {
    if e.slot.Put? then TYPE_VALUE else TYPE_DELETION
  }

  function EncodeKey(k: Key, tag: nat): (s: Bytes)
    ensures |s| == |k| + TAG_SIZE && UserKey(s) == k
    ensures tag < U64 ==> TagOf(s) == tag
  {
    var s := k + Fixed64(tag);
    assert s[..|k|] == k && s[|k|..|k| + 8] == Fixed64(tag);
    s
  }

  /** The internal key of an entry. */
  function KeyOf(e: Entry): Bytes {
    EncodeKey(e.key, e.seqno * 256 + TypeOf(e))
  }

  /** The key a search for the newest version at or below `r` seeks to. */
  function SeekKey(k: Key, r: nat): Bytes {
    EncodeKey(k, if r >= MAX_SEQ then U64 - 1 else r * 256 + 255)
  }

  /** The latest read point, or one the tag can hold. */
  predicate ReadPoint(r: nat) {
    r < SEQ_LIMIT || r == MAX_SEQ
  }

  predicate Storable(e: Entry) {
    e.seqno < SEQ_LIMIT
  }

  /** The byte order of internal keys is the order of entries. */
  lemma {:induction false} KeyOrderIsEntryOrder(a: Entry, b: Entry)
    requires Storable(a) && Storable(b) && !SameVersion(a, b)
    ensures InternalLess(KeyOf(a), KeyOf(b)) <==> Before(a, b)
  {
    hide Less, UserKey, TagOf;
    LessIsStrictTotalOrder();
  }

  /** Seeking lands on the first entry that is not before the read point's key. */
  lemma {:induction false} SeekKeyOrder(e: Entry, k: Key, r: nat)
    requires Storable(e) && ReadPoint(r)
    ensures InternalLess(KeyOf(e), SeekKey(k, r)) <==> Less(e.key, k) || (e.key == k && e.seqno > r)
  {
    hide Less, UserKey, TagOf;
    LessIsStrictTotalOrder();
  }
}
