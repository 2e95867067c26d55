/** Bytes and the little-endian fixed-width integers every file format is built from. */
module Bytes {
  type byte = x: int | 0 <= x < 256
  type Bytes = seq<byte>

  datatype Option<+T> = None | Some(value: T)

  const U32: nat := 0x1_0000_0000
  const U64: nat := 0x1_0000_0000_0000_0000

  function Pow256(n: nat): (p: nat)
    ensures p >= 1
  {
    if n == 0 then 1 else 256 * Pow256(n - 1)
  }

  function Pow2(n: nat): (p: nat)
    ensures p >= 1
  {
    if n == 0 then 1 else 2 * Pow2(n - 1)
  }

  /** Pieces put together again. */
  function Concat(parts: seq<Bytes>): Bytes {
    if parts == [] then [] else Concat(parts[..|parts| - 1]) + parts[|parts| - 1]
  }

  /** The low `n` bytes of `v`, least significant first: a wider `v` is truncated, as a cast would. */
  function LittleEndian(n: nat, v: nat): (s: Bytes)
    ensures |s| == n
  {
    if n == 0 then [] else [v % 256] + LittleEndian(n - 1, v / 256)
  }

  function FromLittleEndian(s: Bytes): (v: nat)
    ensures v < Pow256(|s|)
  {
    if s == [] then 0 else s[0] + 256 * FromLittleEndian(s[1..])
  }

  lemma {:induction false} LittleEndianRoundTrip(n: nat, v: nat)
    requires v < Pow256(n)
    ensures FromLittleEndian(LittleEndian(n, v)) == v
  {
    if n > 0 {
      LittleEndianRoundTrip(n - 1, v / 256);
      assert LittleEndian(n, v)[1..] == LittleEndian(n - 1, v / 256);
    }
  }

  lemma {:induction false} FromLittleEndianRoundTrip(s: Bytes)
    ensures LittleEndian(|s|, FromLittleEndian(s)) == s
  {
    if s != [] {
      FromLittleEndianRoundTrip(s[1..]);
      assert s == [s[0]] + s[1..];
    }
  }

  function Fixed32(v: nat): (s: Bytes)
    ensures |s| == 4
    ensures v < U32 ==> FromLittleEndian(s) == v
  {
    assert Pow256(4) == U32 by { assert Pow256(2) == 65536; }
    if v < U32 then LittleEndianRoundTrip(4, v); LittleEndian(4, v) else LittleEndian(4, v)
  }

  function Fixed64(v: nat): (s: Bytes)
    ensures |s| == 8
    ensures v < U64 ==> FromLittleEndian(s) == v
  {
    Pow256Of8();
    if v < U64 then LittleEndianRoundTrip(8, v); LittleEndian(8, v) else LittleEndian(8, v)
  }

  lemma {:induction false} Pow256Of8()
    ensures Pow256(4) == U32 && Pow256(8) == U64
  {
    assert Pow256(2) == 65536;
    assert Pow256(4) == U32;
    assert Pow256(6) == 65536 * U32;
  }

  /** The 32-bit integer stored at offset `at`. */
  function GetFixed32(s: Bytes, at: nat): (v: nat)
    requires at + 4 <= |s|
    ensures v < U32
  {
    Pow256Of8();
    FromLittleEndian(s[at..at + 4])
  }

  function GetFixed64(s: Bytes, at: nat): (v: nat)
    requires at + 8 <= |s|
    ensures v < U64
  {
    Pow256Of8();
    FromLittleEndian(s[at..at + 8])
  }

  /** Reading a field back out of a larger buffer. */
  lemma {:induction false} Fixed32At(pre: Bytes, v: nat, post: Bytes)
    requires v < U32
    ensures GetFixed32(pre + Fixed32(v) + post, |pre|) == v
  {
    assert (pre + Fixed32(v) + post)[|pre|..|pre| + 4] == Fixed32(v);
  }

  /** One byte and the rest above it. */
  lemma {:induction false} FirstByteIsLow(b: byte, s: Bytes)
    ensures FromLittleEndian([b] + s) == b + 256 * FromLittleEndian(s)
  {
    assert ([b] + s)[1..] == s;
  }

  /** The last byte is the most significant. */
  lemma {:induction false} LastByteIsHigh(s: Bytes, b: byte)
    ensures FromLittleEndian(s + [b]) == FromLittleEndian(s) + Pow256(|s|) * b
  {
    if s != [] {
      LastByteIsHigh(s[1..], b);
      assert (s + [b])[1..] == s[1..] + [b];
      assert Pow256(|s|) * b == 256 * (Pow256(|s| - 1) * b);
    }
  }

  /** A field read one byte too early: what it holds is at least 256 times the value. */
  lemma {:induction false} ShiftedField(g: Bytes, at: nat, n: nat)
    requires at + 5 <= |g| && g[at + 1..at + 5] == Fixed32(n) && n < 0x100_0000
    ensures GetFixed32(g, at) >= 256 * n
  {
    hide FromLittleEndian, LittleEndian, Fixed32;
    var x := g[at + 1..at + 4];
    assert g[at..at + 4] == [g[at]] + x && g[at + 1..at + 5] == x + [g[at + 4]];
    LastByteIsHigh(x, g[at + 4]);
    FirstByteIsLow(g[at], x);
    assert Pow256(3) == 0x100_0000;
  }

  /** Writing back what was read gives the same bytes. */
  lemma {:induction false} FieldBack(p: Bytes, at: nat)
    requires at + 4 <= |p|
    ensures Fixed32(GetFixed32(p, at)) == p[at..at + 4]
  {
    FromLittleEndianRoundTrip(p[at..at + 4]);
  }

  /** `bytes` sit in `f` at offset `off`. */
  predicate At(f: Bytes, off: nat, bytes: Bytes) {
    off + |bytes| <= |f| && f[off..off + |bytes|] == bytes
  }

  lemma {:induction false} AtSplit(f: Bytes, off: nat, x: Bytes, y: Bytes)
    requires At(f, off, x + y)
    ensures At(f, off, x) && At(f, off + |x|, y)
  {
    var z := x + y;
    assert f[off..off + |x|] == f[off..off + |z|][..|x|] == z[..|x|] == x;
    assert f[off + |x|..off + |x| + |y|] == f[off..off + |z|][|x|..] == z[|x|..] == y;
  }
}
