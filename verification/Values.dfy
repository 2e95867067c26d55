/** Value separation: what a write stores in the tree for a value, and how a read resolves it. */
module Values {
  import opened Bytes
  import opened Keys
  import opened VLog

  /** The live value-log generations: each a file of arbitrary bytes. */
  type Logs = map<nat, Bytes>

  const MIN_THRESHOLD: nat := 64

  /** Long values, and those that look like a pointer, go to the value log. */
  predicate Separates(v: Bytes, threshold: nat) {
    |v| >= threshold || PointerShaped(v)
  }

  /** The pointer `WriteEntry` stores for a value appended to generation `g`. */
  function PointerTo(logs: Logs, g: nat, v: Bytes): Pointer
    requires g in logs
  {
    Pointer(g, |logs[g]|, |v|)
  }

  function SlotFor(logs: Logs, g: nat, threshold: nat, v: Bytes): Bytes
    requires g in logs
  {
    if Separates(v, threshold) then EncodePointer(PointerTo(logs, g, v)) else v
  }

  function Appended(logs: Logs, g: nat, bytes: Bytes): Logs
    requires g in logs
  {
    logs[g := logs[g] + bytes]
  }

  function LogsFor(logs: Logs, g: nat, threshold: nat, k: Key, v: Bytes): Logs
    requires g in logs
  {
    if Separates(v, threshold) then Appended(logs, g, EncodeEntry(Record(k, v))) else logs
  }

  /** A slot decodes as a pointer exactly when the write put its value in the log. */
  lemma {:induction false} PointerIffSeparated(logs: Logs, g: nat, threshold: nat, k: Key, v: Bytes)
    requires g in logs
    ensures DecodePointer(SlotFor(logs, g, threshold, v)).Some? <==> LogsFor(logs, g, threshold, k, v) != logs
  {
    hide EncodeEntry;
    if Separates(v, threshold) {
      assert |LogsFor(logs, g, threshold, k, v)[g]| != |logs[g]|;
    }
  }

  // ---- reading ----------------------------------------------------------------------------------------

  datatype Reading = NotFound | Value(bytes: Bytes) | Failed

  /** `MaybeResolvePointer` without its cache. */
  function Resolve(logs: Logs, slot: Bytes): (r: Reading)
    ensures r != NotFound
  {
    match DecodePointer(slot)
    case None => Value(slot)
    case Some(p) =>
      if p.vlog !in logs then Failed
      else
        match ReadValue(logs[p.vlog], p.offset, p.size)
        case Found(v) => Value(v)
        case _ => Failed
  }

  /** Pointer `p` selects an intact entry of the file, which holds `v` for `k`. */
  predicate Selects(f: Bytes, p: Pointer, k: Key, v: Bytes) {
    At(f, p.offset, EncodeEntry(Record(k, v))) && EntryOk(Record(k, v)) && p.size == |v|
  }

  /** The slot stored for `k` stands for `v`. */
  predicate Holds(logs: Logs, k: Key, slot: Bytes, v: Bytes) {
    match DecodePointer(slot)
    case None => slot == v
    case Some(p) => p.vlog in logs && Selects(logs[p.vlog], p, k, v)
  }

  lemma {:induction false} HoldsResolves(logs: Logs, k: Key, slot: Bytes, v: Bytes)
    requires Holds(logs, k, slot, v)
    ensures Resolve(logs, slot) == Value(v)
  {
    hide EncodeEntry, ReadValue, GetFixed64, GetFixed32;
    if DecodePointer(slot).Some? {
      var p := DecodePointer(slot).value;
      ReadsBack(logs[p.vlog], p.offset, Record(k, v));
    }
  }

  lemma {:induction false} AppendKeepsHolds(logs: Logs, g: nat, bytes: Bytes, k: Key, slot: Bytes, v: Bytes)
    requires g in logs && Holds(logs, k, slot, v)
    ensures Holds(Appended(logs, g, bytes), k, slot, v)
  {
    hide DecodePointer, EncodeEntry, EntryOk;
    if DecodePointer(slot).Some? {
      var p, n := DecodePointer(slot).value, |EncodeEntry(Record(k, v))|;
      var f := logs[p.vlog];
      assert (f + bytes)[p.offset..p.offset + n] == f[p.offset..p.offset + n];
    }
  }

  /** What a write stores stands for the value written, pointer-shaped values included. */
  lemma {:induction false} SlotHolds(logs: Logs, g: nat, threshold: nat, k: Key, v: Bytes)
    requires g in logs && PointerOk(PointerTo(logs, g, v)) && EntryOk(Record(k, v))
    ensures Holds(LogsFor(logs, g, threshold, k, v), k, SlotFor(logs, g, threshold, v), v)
  {
    hide EncodePointer, DecodePointer, EncodeEntry;
    if Separates(v, threshold) {
      var p, entry := PointerTo(logs, g, v), EncodeEntry(Record(k, v));
      PointerRoundTrip(p);
      assert (logs[g] + entry)[|logs[g]|..] == entry;
    }
  }

  // ---- the cache --------------------------------------------------------------------------------------

  /** A cached answer for a slot: what reading the value log gives, as long as its generation lives. */
  predicate CachedOk(logs: Logs, slot: Bytes, v: Bytes, next: nat) {
    match DecodePointer(slot)
    case None => false
    case Some(p) => p.vlog < next && (p.vlog in logs ==> Resolve(logs, slot) == Value(v))
  }

  lemma {:induction false} AppendKeepsCached(logs: Logs, g: nat, bytes: Bytes, slot: Bytes, v: Bytes, next: nat)
    requires g in logs && CachedOk(logs, slot, v, next)
    ensures CachedOk(Appended(logs, g, bytes), slot, v, next)
  {
    hide DecodePointer, ReadValue;
    var p := DecodePointer(slot).value;
    if p.vlog == g { AppendKeepsRead(logs[g], bytes, p.offset, p.size); }
  }

  // ---- whole maps -------------------------------------------------------------------------------------

  /** Every key of a map of slots stands for its value in the user's map. */
  ghost predicate Agree(logs: Logs, raw: map<Key, Bytes>, user: map<Key, Bytes>) {
    raw.Keys == user.Keys && forall k :: k in raw ==> Holds(logs, k, raw[k], user[k])
  }

  ghost predicate AllAgree(logs: Logs, raw: seq<map<Key, Bytes>>, user: seq<map<Key, Bytes>>) {
    |raw| == |user| && forall i :: 0 <= i < |raw| ==> Agree(logs, raw[i], user[i])
  }

  lemma {:induction false} AppendKeepsAgree(
    logs: Logs, g: nat, bytes: Bytes, raw: map<Key, Bytes>, user: map<Key, Bytes>)
    requires g in logs && Agree(logs, raw, user)
    ensures Agree(Appended(logs, g, bytes), raw, user)
  {
    hide Holds, Appended;
    forall k | k in raw ensures Holds(Appended(logs, g, bytes), k, raw[k], user[k]) {
      AppendKeepsHolds(logs, g, bytes, k, raw[k], user[k]);
    }
  }

  lemma {:induction false} AppendKeepsAllAgree(
    logs: Logs, g: nat, bytes: Bytes, raw: seq<map<Key, Bytes>>, user: seq<map<Key, Bytes>>)
    requires g in logs && AllAgree(logs, raw, user)
    ensures AllAgree(Appended(logs, g, bytes), raw, user)
  {
    hide Agree, Appended;
    forall i | 0 <= i < |raw| ensures Agree(Appended(logs, g, bytes), raw[i], user[i]) {
      AppendKeepsAgree(logs, g, bytes, raw[i], user[i]);
    }
  }
}
