/**
 * CRC-32 (IEEE, reflected; section 8 of RFC 1952): the table-driven loop against the bitwise
 * definition. A register is its 32 bits, least significant first.
 */
module Crc {
  import opened Bytes

  type Bits = seq<bool>
  type Word = s: seq<bool> | |s| == 32 witness Same(false, 32)

  /** `n` equal bits. */
  function Same(b: bool, n: nat): (s: Bits)
    ensures |s| == n && forall i :: 0 <= i < n ==> s[i] == b
  {
    if n == 0 then [] else [b] + Same(b, n - 1)
  }

  // ---- bits of integers -------------------------------------------------------------------------------

  function BitsOf(v: nat, n: nat): (s: Bits)
    ensures |s| == n
  {
    if n == 0 then [] else [v % 2 == 1] + BitsOf(v / 2, n - 1)
  }

  function ValueOf(s: Bits): nat {
    if s == [] then 0 else (if s[0] then 1 else 0) + 2 * ValueOf(s[1..])
  }

  lemma {:induction false} ValueBound(s: Bits)
    ensures ValueOf(s) < Pow2(|s|)
  {
    if s != [] { ValueBound(s[1..]); }
  }

  lemma {:induction false} BitsOfValue(s: Bits, n: nat)
    ensures BitsOf(ValueOf(s), |s| + n) == s + Same(false, n)
  {
    if s == [] {
      BitsOfZero(n);
    } else {
      BitsOfValue(s[1..], n);
      assert ValueOf(s) / 2 == ValueOf(s[1..]);
      assert s + Same(false, n) == [s[0]] + (s[1..] + Same(false, n));
    }
  }

  lemma {:induction false} BitsOfZero(n: nat)
    ensures BitsOf(0, n) == Same(false, n)
  {
    if n > 0 { BitsOfZero(n - 1); }
  }

  // ---- register operations ------------------------------------------------------------------------------

  function WordOf(v: nat): Word {
    BitsOf(v, 32)
  }

  function Xor(a: Word, b: Word): Word {
    seq(32, i requires 0 <= i < 32 => a[i] != b[i])
  }

  function ShiftRight(c: Word, n: nat): Word
    requires n <= 32
  {
    c[n..] + Same(false, n)
  }

  function LowByte(c: Word): Word {
    c[..8] + Same(false, 24)
  }

  const POLYNOMIAL: Word := WordOf(0xEDB88320)
  const ONES: Word := Same(true, 32)

  /** One division step by the polynomial. */
  function Shift(c: Word): Word {
    if c[0] then Xor(POLYNOMIAL, ShiftRight(c, 1)) else ShiftRight(c, 1)
  }

  function Shifts(c: Word, n: nat): Word {
    if n == 0 then c else Shift(Shifts(c, n - 1))
  }

  /** The register after one more byte, bit by bit. */
  function ByteStep(c: Word, p: byte): Word {
    Shifts(Xor(c, WordOf(p)), 8)
  }

  /** The register after a byte string. */
  function Register(c: Word, data: Bytes): Word {
    if data == [] then c else ByteStep(Register(c, data[..|data| - 1]), data[|data| - 1])
  }

  /** The checksum of `data` continuing from `crc`; inverted before and after. */
  function Crc32From(data: Bytes, crc: Word): Word {
    Xor(Register(Xor(crc, ONES), data), ONES)
  }

  /** The checksum as the formats store it. */
  function Crc32(data: Bytes): (v: nat)
    ensures v < U32
  {
    var w := Crc32From(data, WordOf(0));
    ValueBound(w);
    Pow2Of32();
    ValueOf(w)
  }

  lemma {:induction false} Pow2Of32()
    ensures Pow2(32) == U32
  {
    assert Pow2(8) == 256;
    assert Pow2(16) == 65536 by { assert Pow2(12) == 4096; }
    assert Pow2(24) == 256 * 65536 by { assert Pow2(20) == 16 * 65536; }
    assert Pow2(28) == 4096 * 65536;
  }

  // ---- streaming ------------------------------------------------------------------------------------------

  lemma {:induction false} RegisterConcat(c: Word, x: Bytes, y: Bytes)
    ensures Register(c, x + y) == Register(Register(c, x), y)
  {
    if y == [] {
      assert x + y == x;
    } else {
      RegisterConcat(c, x, y[..|y| - 1]);
      assert (x + y)[..|x + y| - 1] == x + y[..|y| - 1];
    }
  }

  lemma {:induction false} InvertTwice(c: Word)
    ensures Xor(Xor(c, ONES), ONES) == c
  {
  }

  /** Streaming: continuing from a checksum is checksumming the whole. */
  lemma {:induction false} Streaming(x: Bytes, y: Bytes, crc: Word)
    ensures Crc32From(y, Crc32From(x, crc)) == Crc32From(x + y, crc)
  {
    InvertTwice(Register(Xor(crc, ONES), x));
    RegisterConcat(Xor(crc, ONES), x, y);
  }

  // ---- one table lookup is eight steps ---------------------------------------------------------------------

  lemma {:induction false} ShiftIsLinear(a: Word, b: Word)
    ensures Shift(Xor(a, b)) == Xor(Shift(a), Shift(b))
  {
    var l, r := Shift(Xor(a, b)), Xor(Shift(a), Shift(b));
    forall i | 0 <= i < 32 ensures l[i] == r[i] {
    }
  }

  lemma {:induction false} ShiftsAreLinear(a: Word, b: Word, n: nat)
    ensures Shifts(Xor(a, b), n) == Xor(Shifts(a, n), Shifts(b, n))
  {
    if n > 0 {
      ShiftsAreLinear(a, b, n - 1);
      ShiftIsLinear(Shifts(a, n - 1), Shifts(b, n - 1));
    }
  }

  /** While the low bits are clear, steps only shift. */
  lemma {:induction false} ClearBitsShift(c: Word, n: nat)
    requires n <= 8 && forall i :: 0 <= i < n ==> !c[i]
    ensures Shifts(c, n) == ShiftRight(c, n)
  {
    if n > 0 {
      ClearBitsShift(c, n - 1);
      assert ShiftRight(c, n - 1)[0] == c[n - 1];
      assert ShiftRight(ShiftRight(c, n - 1), 1) == ShiftRight(c, n);
    } else {
      assert c[0..] + [] == c;
    }
  }

  /** What one table lookup does is what eight bit steps do. */
  lemma {:induction false} TableStep(c: Word)
    ensures Shifts(c, 8) == Xor(Shifts(LowByte(c), 8), ShiftRight(c, 8))
  {
    var high: Word := Same(false, 8) + c[8..];
    assert c == Xor(LowByte(c), high);
    ShiftsAreLinear(LowByte(c), high, 8);
    ClearBitsShift(high, 8);
    assert ShiftRight(high, 8) == ShiftRight(c, 8);
  }

  // ---- known checksums ----------------------------------------------------------------------------------

  lemma {:induction false} ValueOfBits(v: nat, n: nat)
    requires v < Pow2(n)
    ensures ValueOf(BitsOf(v, n)) == v
  {
    if n > 0 {
      ValueOfBits(v / 2, n - 1);
      assert BitsOf(v, n)[1..] == BitsOf(v / 2, n - 1);
    }
  }

  lemma {:induction false} ValueOfInverse(s: Bits, t: Bits)
    requires |s| == |t| && forall i :: 0 <= i < |s| ==> s[i] != t[i]
    ensures ValueOf(s) + ValueOf(t) == Pow2(|s|) - 1
  {
    if s != [] { ValueOfInverse(s[1..], t[1..]); }
  }

  lemma {:induction false} IndexOfByte(low: Bits)
    requires |low| == 8
    ensures ValueOf(low) < 256 && WordOf(ValueOf(low)) == low + Same(false, 24)
  {
    hide ValueOf, WordOf;
    var c: Word := low + Same(false, 24);
    assert c[..8] == low && LowByte(c) == c;
    LowByteIndex(c);
  }

  const ONES_BYTE: Bits := [true, true, true, true, true, true, true, true]
  const TOP_BIT: Bits := [false, false, false, false, false, false, false, true]

  lemma {:induction false} ByteValues()
    ensures ValueOf(ONES_BYTE) == 255 && ValueOf(TOP_BIT) == 128
  {
  }

  /** A byte of ones into a register whose low byte is ones: everything moves down by eight. */
  lemma {:induction false} OnesStep(c: Word)
    requires forall i :: 0 <= i < 8 ==> c[i]
    ensures ByteStep(c, 255) == ShiftRight(c, 8)
  {
    hide ValueOf, WordOf, Shifts, BitsOf;
    ByteValues();
    IndexOfByte(ONES_BYTE);
    var x := Xor(c, WordOf(255));
    ClearBitsShift(x, 8);
    assert ShiftRight(x, 8) == ShiftRight(c, 8);
  }

  lemma {:induction false} OneMoreShift(c: Word, n: nat)
    ensures Shifts(c, n + 1) == Shift(Shifts(c, n))
  {
  }

  lemma {:induction false} LastBitShift(c: Word)
    requires forall i :: 0 <= i < 32 ==> c[i] == (i == 7)
    ensures Shifts(c, 8) == POLYNOMIAL
  {
    hide Shifts, WordOf;
    ClearBitsShift(c, 7);
    OneMoreShift(c, 7);
    var l, r := Shift(ShiftRight(c, 7)), POLYNOMIAL;
    forall i | 0 <= i < 32 ensures l[i] == r[i] {
    }
  }

  /** The top bit of a byte into an empty register leaves the polynomial. */
  lemma {:induction false} TopBitStep()
    ensures ByteStep(Same(false, 32), 128) == POLYNOMIAL
  {
    hide ValueOf, WordOf, Shifts, BitsOf;
    ByteValues();
    IndexOfByte(TOP_BIT);
    LastBitShift(Xor(Same(false, 32), WordOf(128)));
  }

  lemma {:induction false} OfNothing(c: Word)
    ensures Register(c, []) == c
  {
  }

  lemma {:induction false} OfOneByte(c: Word, p: byte)
    ensures Register(c, [p]) == ByteStep(c, p)
  {
    hide ByteStep;
    assert [p][..0] == [];
  }

  lemma {:induction false} OnesMoveDown(n: nat)
    requires n < 4
    ensures ByteStep(ShiftRight(ONES, 8 * n), 255) == ShiftRight(ONES, 8 * n + 8)
  {
    hide ByteStep;
    var c := ShiftRight(ONES, 8 * n);
    OnesStep(c);
    assert ShiftRight(c, 8) == ShiftRight(ONES, 8 * n + 8);
  }

  /** Four bytes of ones empty the initial register. */
  lemma {:induction false} FourOnes()
    ensures Register(ONES, [255, 255, 255, 255]) == Same(false, 32)
  {
    hide ByteStep, Register, ShiftRight;
    var x: Bytes := [255];
    OfOneByte(ONES, 255);
    OnesMoveDown(0);
    NoShift();
    RegisterConcat(ONES, x, x);
    OfOneByte(ShiftRight(ONES, 8), 255);
    OnesMoveDown(1);
    RegisterConcat(ONES, x + x, x);
    OfOneByte(ShiftRight(ONES, 16), 255);
    OnesMoveDown(2);
    RegisterConcat(ONES, x + x + x, x);
    OfOneByte(ShiftRight(ONES, 24), 255);
    OnesMoveDown(3);
    assert x + x + x + x == [255, 255, 255, 255];
  }

  lemma {:induction false} NoShift()
    ensures ShiftRight(ONES, 0) == ONES && ShiftRight(ONES, 32) == Same(false, 32)
  {
  }

  /** A register read out: inverted, as a number. */
  lemma {:induction false} ReadOut(data: Bytes, c: Word, v: nat)
    requires Register(ONES, data) == c && ValueOf(c) + v == U32 - 1
    ensures Crc32(data) == v
  {
    hide Register, ValueOf, WordOf;
    BitsOfZero(32);
    assert WordOf(0) == Same(false, 32) by { ZeroWord(); }
    assert Xor(Same(false, 32), ONES) == ONES;
    Pow2Of32();
    ValueOfInverse(c, Xor(c, ONES));
  }

  lemma {:induction false} ZeroWord()
    ensures WordOf(0) == Same(false, 32)
  {
    BitsOfZero(32);
  }

  lemma {:induction false} OnesValue()
    ensures ValueOf(ONES) == U32 - 1 && ValueOf(POLYNOMIAL) == 0xEDB88320
  {
    hide ValueOf, BitsOf;
    Pow2Of32();
    ValueOfBits(0, 32);
    ZeroWord();
    ValueOfInverse(ONES, Same(false, 32));
    ValueOfBits(0xEDB88320, 32);
  }

  /** Two values of CRC-32: of nothing, and of four bytes of ones with a top bit behind them. */
  lemma {:induction false} KnownChecksums()
    ensures Crc32([]) == 0 && Crc32([255, 255, 255, 255, 128]) == 0x12477CDF
  {
    hide Register, ByteStep, ValueOf, Crc32;
    OnesValue();
    OfNothing(ONES);
    ReadOut([], ONES, 0);
    FourOnes();
    RegisterConcat(ONES, [255, 255, 255, 255], [128]);
    assert [255, 255, 255, 255] + [128] == [255, 255, 255, 255, 128];
    OfOneByte(Same(false, 32), 128);
    TopBitStep();
    ReadOut([255, 255, 255, 255, 128], POLYNOMIAL, 0x12477CDF);
  }

  /** Each byte's table entry is what eight shifts make of it. */
  ghost predicate IsCrcTable(table: array<Word>)
    reads table
  {
    table.Length == 256 && forall i :: 0 <= i < 256 ==> table[i] == Shifts(WordOf(i), 8)
  }

  /** The lookup table the source fills at compile time. */
  method BuildTable() returns (table: array<Word>)
    ensures fresh(table) && IsCrcTable(table)
  {
    table := new Word[256];
    for i := 0 to 256
      invariant forall j :: 0 <= j < i ==> table[j] == Shifts(WordOf(j), 8)
    {
      var c := WordOf(i);
      for bit := 0 to 8
        invariant c == Shifts(WordOf(i), bit)
      {
        c := if c[0] then Xor(POLYNOMIAL, ShiftRight(c, 1)) else ShiftRight(c, 1);
      }
      table[i] := c;
    }
  }

  lemma {:induction false} LowByteIndex(c: Word)
    ensures ValueOf(c[..8]) < 256 && WordOf(ValueOf(c[..8])) == LowByte(c)
  {
    ValueBound(c[..8]);
    assert Pow2(8) == 256;
    BitsOfValue(c[..8], 24);
  }

  lemma {:induction false} ByteBits(p: nat, m: nat, n: nat)
    requires p < Pow2(m)
    ensures BitsOf(p, m + n)[m..] == Same(false, n)
  {
    if m == 0 {
      BitsOfZero(n);
    } else {
      ByteBits(p / 2, m - 1, n);
      assert BitsOf(p, m + n)[m..] == BitsOf(p / 2, m - 1 + n)[m - 1..];
    }
  }

  lemma {:induction false} HighBitsOfByte(c: Word, p: byte)
    ensures ShiftRight(Xor(c, WordOf(p)), 8) == ShiftRight(c, 8)
  {
    assert Pow2(8) == 256;
    ByteBits(p, 8, 24);
    var w, x := WordOf(p), Xor(c, WordOf(p));
    forall i | 8 <= i < 32 ensures x[i] == c[i] {
      assert w[i] == w[8..][i - 8];
    }
  }

  /** The checksum loop equals the bitwise definition. */
  method ComputeCrc32(data: Bytes, crc: Word, table: array<Word>) returns (r: Word)
    requires IsCrcTable(table)
    ensures r == Crc32From(data, crc)
  {
    var c := Xor(crc, ONES);
    for i := 0 to |data|
      invariant c == Register(Xor(crc, ONES), data[..i])
    {
      var x := Xor(c, WordOf(data[i]));
      TableStep(x);
      LowByteIndex(x);
      HighBitsOfByte(c, data[i]);
      c := Xor(table[ValueOf(x[..8])], ShiftRight(c, 8));
      assert data[..i + 1][..i] == data[..i];
    }
    r := Xor(c, ONES);
    assert data[..|data|] == data;
  }
}
