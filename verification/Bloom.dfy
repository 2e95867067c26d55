/** The Bloom filter of a data block, for an arbitrary 32-bit hash. */
module Bloom {
  import opened Bytes

  // ---- bits ---------------------------------------------------------------------------------------------

  predicate HasBit(b: nat, j: nat) {
    if j == 0 then b % 2 == 1 else HasBit(b / 2, j - 1)
  }

  /** `b | 1 << j`. */
  function WithBit(b: nat, j: nat): nat {
    if j == 0 then (if b % 2 == 1 then b else b + 1) else 2 * WithBit(b / 2, j - 1) + b % 2
  }

  /** Setting a bit sets that bit and no other. */
  lemma {:induction false} WithBitSets(b: nat, j: nat, i: nat)
    ensures HasBit(WithBit(b, j), i) <==> HasBit(b, i) || i == j
  {
    if j > 0 && i > 0 {
      WithBitSets(b / 2, j - 1, i - 1);
      assert WithBit(b, j) / 2 == WithBit(b / 2, j - 1);
    }
  }

  lemma {:induction false} WithBitFits(b: nat, j: nat, n: nat)
    requires b < Pow2(n) && j < n
    ensures WithBit(b, j) < Pow2(n)
  {
    hide Pow2;
    Doubles(n);
    HalfFits(b, Pow2(n - 1));
    if j > 0 { WithBitFits(b / 2, j - 1, n - 1); }
  }

  lemma {:induction false} Doubles(n: nat)
    requires n > 0
    ensures Pow2(n) == 2 * Pow2(n - 1)
  {
  }

  lemma {:induction false} HalfFits(b: nat, m: nat)
    requires b < 2 * m
    ensures b / 2 < m && (b % 2 == 0 ==> b + 1 < 2 * m)
  {
  }

  function SetBit(b: byte, j: nat): byte
    requires j < 8
  {
    assert Pow2(8) == 256 by { assert Pow2(4) == 16; }
    WithBitFits(b, j, 8);
    WithBit(b, j)
  }

  predicate BitAt(filter: Bytes, p: nat)
    requires p / 8 < |filter|
  {
    HasBit(filter[p / 8], p % 8)
  }

  function SetAt(filter: Bytes, p: nat): (r: Bytes)
    requires p / 8 < |filter|
    ensures |r| == |filter|
  {
    filter[p / 8 := SetBit(filter[p / 8], p % 8)]
  }

  lemma {:induction false} SetAtSets(filter: Bytes, p: nat, q: nat)
    requires p / 8 < |filter| && q / 8 < |filter|
    ensures BitAt(SetAt(filter, p), q) <==> BitAt(filter, q) || p == q
  {
    WithBitSets(filter[p / 8], p % 8, q % 8);
  }

  // ---- probes -------------------------------------------------------------------------------------------

  /** The hash rotated right by 17. */
  function Delta(h: nat): nat
    requires h < U32
  {
    h / 0x2_0000 + h % 0x2_0000 * 0x8000
  }

  /** The rotation makes the low 17 bits the high ones. */
  lemma {:induction false} DeltaRotates(high: nat, low: nat)
    requires high < 0x8000 && low < 0x2_0000
    ensures Delta(high * 0x2_0000 + low) == low * 0x8000 + high
  {
  }

  /** The running hash before probe `i`: additions wrap at 32 bits. */
  function Running(h: nat, delta: nat, i: nat): (r: nat)
    requires h < U32
    ensures r < U32
  {
    if i == 0 then h else (Running(h, delta, i - 1) + delta) % U32
  }

  function Probe(hash: Bytes -> nat, key: Bytes, i: nat, bits: nat): (p: nat)
    requires bits > 0
    ensures p < bits
  {
    var h := hash(key) % U32;
    Running(h, Delta(h), i) % bits
  }

  /** Bits per key times ln 2, kept within 1 and 30. */
  function Probes(bitsPerKey: nat): (k: nat)
    ensures 1 <= k <= 30
    ensures (k > 1 ==> 100 * k <= 69 * bitsPerKey) && (k < 30 ==> 69 * bitsPerKey < 100 * (k + 1))
  {
    var k := bitsPerKey * 69 / 100;
    if k < 1 then 1 else if k > 30 then 30 else k
  }

  // ---- the filter ---------------------------------------------------------------------------------------

  function BitsOf(filter: Bytes): nat
    requires |filter| >= 1
  {
    8 * (|filter| - 1)
  }

  /** Some key of the list has `p` among its first `k` probes. */
  ghost predicate Probed(hash: Bytes -> nat, keys: seq<Bytes>, k: nat, bits: nat, p: nat)
    requires bits > 0
  {
    exists j, i: nat :: 0 <= j < |keys| && i < k && Probe(hash, keys[j], i, bits) == p
  }

  /** A filter too short to hold a bit array says maybe; otherwise every probe must find its bit set. */
  ghost predicate MayMatch(filter: Bytes, hash: Bytes -> nat, key: Bytes) {
    |filter| < 2 || forall i: nat :: i < filter[|filter| - 1] ==> BitAt(filter, Probe(hash, key, i, BitsOf(filter)))
  }

  method KeyMayMatch(filter: Bytes, hash: Bytes -> nat, key: Bytes) returns (r: bool)
    ensures r == MayMatch(filter, hash, key)
  {
    hide HasBit, Delta;
    if |filter| < 2 { return true; }
    var k := filter[|filter| - 1];
    var bits := (|filter| - 1) * 8;
    var h := hash(key) % U32;
    ghost var h0 := h;
    var delta := Delta(h);
    for i: nat := 0 to k
      invariant h == Running(h0, delta, i)
      invariant forall j: nat :: j < i ==> BitAt(filter, Probe(hash, key, j, BitsOf(filter)))
    {
      var bitpos := h % bits;
      assert bitpos == Probe(hash, key, i, BitsOf(filter));
      if !BitAt(filter, bitpos) { return false; }
      h := (h + delta) % U32;
    }
    return true;
  }

  function ZeroBytes(n: nat): (s: Bytes)
    ensures |s| == n && forall i :: 0 <= i < n ==> s[i] == 0
  {
    if n == 0 then [] else ZeroBytes(n - 1) + [0]
  }

  /** Bits set so far: those of the first keys, and the first probes of the next one. */
  ghost predicate Marked(bytes: Bytes, hash: Bytes -> nat, keys: seq<Bytes>, k: nat, j: nat, i: nat)
    requires bytes != [] && j <= |keys|
  {
    forall p: nat :: p < 8 * |bytes| ==>
      (BitAt(bytes, p) <==> Probed(hash, keys[..j], k, 8 * |bytes|, p)
                            || (j < |keys| && exists n: nat :: n < i && Probe(hash, keys[j], n, 8 * |bytes|) == p))
  }

  method AddKey(bytes: Bytes, hash: Bytes -> nat, keys: seq<Bytes>, k: nat, j: nat) returns (r: Bytes)
    requires bytes != [] && j < |keys| && Marked(bytes, hash, keys, k, j, 0)
    ensures |r| == |bytes| && Marked(r, hash, keys, k, j + 1, 0)
  {
    hide HasBit, Delta, SetAt;
    r := bytes;
    var bits := 8 * |bytes|;
    var h := hash(keys[j]) % U32;
    ghost var h0 := h;
    var delta := Delta(h);
    for i: nat := 0 to k
      invariant |r| == |bytes| && h == Running(h0, delta, i)
      invariant Marked(r, hash, keys, k, j, i)
    {
      var bitpos := h % bits;
      assert bitpos == Probe(hash, keys[j], i, bits);
      forall q: nat | q < bits
        ensures BitAt(SetAt(r, bitpos), q) <==> BitAt(r, q) || bitpos == q
      {
        SetAtSets(r, bitpos, q);
      }
      r := SetAt(r, bitpos);
      h := (h + delta) % U32;
    }
    KeyDone(r, hash, keys, k, j);
  }

  lemma {:induction false} KeyDone(r: Bytes, hash: Bytes -> nat, keys: seq<Bytes>, k: nat, j: nat)
    requires r != [] && j < |keys| && Marked(r, hash, keys, k, j, k)
    ensures Marked(r, hash, keys, k, j + 1, 0)
  {
    hide HasBit, Probe;
    var bits := 8 * |r|;
    forall p: nat | p < bits
      ensures Probed(hash, keys[..j + 1], k, bits, p)
              <==> Probed(hash, keys[..j], k, bits, p) || exists n: nat :: n < k && Probe(hash, keys[j], n, bits) == p
    {
      var a, b := keys[..j], keys[..j + 1];
      assert b[j] == keys[j] && forall x :: 0 <= x < j ==> a[x] == b[x];
      if Probed(hash, a, k, bits, p) {
        var x, n: nat :| 0 <= x < |a| && n < k && Probe(hash, a[x], n, bits) == p;
        assert Probe(hash, b[x], n, bits) == p;
      }
    }
  }

  /** At least 64 bits, rounded up to bytes, and one byte for the number of probes. */
  function FilterSize(n: nat, bitsPerKey: nat): (r: nat)
    ensures n == 0 ==> r == 0
    ensures n > 0 ==> && r >= 9 && 8 * (r - 1) >= n * bitsPerKey
                      && (r == 9 || 8 * (r - 1) < n * bitsPerKey + 8)
  {
    if n == 0 then 0 else ((if n * bitsPerKey < 64 then 64 else n * bitsPerKey) + 7) / 8 + 1
  }

  /**
   * For any hash, the filter matches every key it was built from; its bits are exactly those keys'
   * probes.
   */
  method BuildFilter(keys: seq<Bytes>, hash: Bytes -> nat, bitsPerKey: nat) returns (filter: Bytes)
    ensures keys == [] <==> filter == []
    ensures forall j :: 0 <= j < |keys| ==> MayMatch(filter, hash, keys[j])
    ensures |filter| == FilterSize(|keys|, bitsPerKey)
    ensures keys != [] ==> filter[|filter| - 1] == Probes(bitsPerKey)
    ensures keys != [] ==> forall p: nat :: p < BitsOf(filter) ==>
              (BitAt(filter, p) <==> Probed(hash, keys, Probes(bitsPerKey), BitsOf(filter), p))
  {
    hide HasBit, Probe, Probes;
    if keys == [] { return []; }
    var bits := |keys| * bitsPerKey;
    if bits < 64 { bits := 64; }
    var bytes := ZeroBytes((bits + 7) / 8);
    var k := Probes(bitsPerKey);
    NothingMarked(bytes, hash, keys, k);
    for j: nat := 0 to |keys|
      invariant |bytes| == (bits + 7) / 8 && Marked(bytes, hash, keys, k, j, 0)
    {
      bytes := AddKey(bytes, hash, keys, k, j);
    }
    filter := bytes + [k];
    assert keys[..|keys|] == keys;
    forall p: nat | p < BitsOf(filter) ensures BitAt(filter, p) <==> Probed(hash, keys, k, BitsOf(filter), p) {
      assert filter[p / 8] == bytes[p / 8];
    }
    forall j | 0 <= j < |keys| ensures MayMatch(filter, hash, keys[j]) { EveryKeyMatches(filter, hash, keys, k, j); }
  }

  lemma {:induction false} EveryKeyMatches(filter: Bytes, hash: Bytes -> nat, keys: seq<Bytes>, k: nat, j: nat)
    requires |filter| >= 2 && filter[|filter| - 1] == k && j < |keys|
    requires forall p: nat :: p < BitsOf(filter) ==> (BitAt(filter, p) <==> Probed(hash, keys, k, BitsOf(filter), p))
    ensures MayMatch(filter, hash, keys[j])
  {
    hide HasBit, Probe;
    forall i: nat | i < k ensures BitAt(filter, Probe(hash, keys[j], i, BitsOf(filter))) {
      assert Probed(hash, keys, k, BitsOf(filter), Probe(hash, keys[j], i, BitsOf(filter)));
    }
  }

  lemma {:induction false} NothingMarked(bytes: Bytes, hash: Bytes -> nat, keys: seq<Bytes>, k: nat)
    requires bytes != [] && forall i :: 0 <= i < |bytes| ==> bytes[i] == 0
    ensures Marked(bytes, hash, keys, k, 0, 0)
  {
    hide Probe;
    forall p: nat | p < 8 * |bytes| ensures !BitAt(bytes, p) { ZeroHasNoBit(p % 8); }
  }

  lemma {:induction false} ZeroHasNoBit(j: nat)
    ensures !HasBit(0, j)
  {
    if j > 0 { ZeroHasNoBit(j - 1); }
  }
}
