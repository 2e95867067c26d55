/** The request protocol: commands as arrays of bulk strings, and the numbers and lines in them. */
module Resp {
  import opened Bytes

  const CR: byte := 13
  const LF: byte := 10
  const TAB: byte := 9
  const SPACE: byte := 32
  const DOLLAR: byte := 36
  const STAR: byte := 42
  const ZERO: byte := 48
  const CRLF: Bytes := [CR, LF]

  const MAX_MULTIBULK: nat := 1024 * 1024
  const MAX_INLINE: nat := 64 * 1024
  const MAX_BULK: nat := 512 * 1024 * 1024
  const MAX_LINE: nat := 32
  const MAX_I64: nat := 0x7FFF_FFFF_FFFF_FFFF

  // ---- numbers ------------------------------------------------------------------------------------------

  function Decimal(n: nat): (s: Bytes)
    ensures s != []
  {
    if n < 10 then [ZERO + n] else Decimal(n / 10) + [ZERO + n % 10]
  }

  predicate IsDigit(c: byte) {
    ZERO <= c < ZERO + 10
  }

  function ValueOf(s: Bytes): nat
    requires forall i :: 0 <= i < |s| ==> IsDigit(s[i])
  {
    if s == [] then 0 else assert IsDigit(s[|s| - 1]); 10 * ValueOf(s[..|s| - 1]) + (s[|s| - 1] - ZERO)
  }

  /** `ParseDigits`: digits only, and no more than a signed 64-bit number can hold. */
  function ParseDigits(s: Bytes): Option<nat> {
    if s == [] || !(forall i :: 0 <= i < |s| ==> IsDigit(s[i])) then None
    else if ValueOf(s) > MAX_I64 then None
    else Some(ValueOf(s))
  }

  lemma {:induction false} DecimalIsDigits(n: nat)
    ensures forall i :: 0 <= i < |Decimal(n)| ==> IsDigit(Decimal(n)[i])
    ensures ValueOf(Decimal(n)) == n
  {
    if n < 10 {
      assert Decimal(n)[..0] == [];
    } else {
      DecimalIsDigits(n / 10);
      assert Decimal(n)[..|Decimal(n)| - 1] == Decimal(n / 10);
    }
  }

  lemma {:induction false} DecimalRoundTrip(n: nat)
    requires n <= MAX_I64
    ensures ParseDigits(Decimal(n)) == Some(n)
  {
    DecimalIsDigits(n);
  }

  function Zeros(z: nat): (s: Bytes)
    ensures |s| == z && forall i :: 0 <= i < z ==> s[i] == ZERO
  {
    seq(z, i => ZERO)
  }

  /** Accepted are the decimal numerals of 64-bit numbers, with leading zeros, and nothing else. */
  lemma {:induction false} ParseDigitsIff(s: Bytes, n: nat)
    ensures ParseDigits(s) == Some(n) <==> n <= MAX_I64 && exists z: nat :: s == Zeros(z) + Decimal(n)
  {
    hide ValueOf, Decimal;
    if n <= MAX_I64 && exists z: nat :: s == Zeros(z) + Decimal(n) {
      var z: nat :| s == Zeros(z) + Decimal(n);
      DecimalIsDigits(n);
      PaddedValue(z, Decimal(n));
    }
    if ParseDigits(s) == Some(n) {
      var z := PaddedNumeral(s);
    }
  }

  lemma {:induction false} PaddedValue(z: nat, t: Bytes)
    requires forall i :: 0 <= i < |t| ==> IsDigit(t[i])
    ensures forall i :: 0 <= i < |Zeros(z) + t| ==> IsDigit((Zeros(z) + t)[i])
    ensures ValueOf(Zeros(z) + t) == ValueOf(t)
    decreases z + |t|
  {
    var s := Zeros(z) + t;
    if t != [] {
      assert s[..|s| - 1] == Zeros(z) + t[..|t| - 1];
      PaddedValue(z, t[..|t| - 1]);
    } else if z > 0 {
      assert s[..|s| - 1] == Zeros(z - 1) + t;
      PaddedValue(z - 1, t);
    }
  }

  lemma {:induction false} PaddedNumeral(s: Bytes) returns (z: nat)
    requires s != [] && forall i :: 0 <= i < |s| ==> IsDigit(s[i])
    ensures s == Zeros(z) + Decimal(ValueOf(s))
  {
    var init, d := s[..|s| - 1], s[|s| - 1] - ZERO;
    assert s == init + [ZERO + d];
    if init == [] {
      z := 0;
    } else {
      var y := PaddedNumeral(init);
      if ValueOf(init) == 0 {
        z := y + 1;
        assert init == Zeros(z);
      } else {
        z := y;
        assert Decimal(ValueOf(s)) == Decimal(ValueOf(init)) + [ZERO + d];
      }
    }
  }

  function Pow10(d: nat): nat {
    if d == 0 then 1 else 10 * Pow10(d - 1)
  }

  lemma {:induction false} DecimalLength(n: nat, d: nat)
    requires n < Pow10(d) && d >= 1
    ensures |Decimal(n)| <= d
  {
    if n >= 10 { DecimalLength(n / 10, d - 1); }
  }

  lemma {:induction false} ShortNumbers(n: nat)
    requires n <= MAX_BULK
    ensures |Decimal(n)| <= 10
  {
    assert Pow10(4) == 10000;
    assert Pow10(8) == 100000000;
    assert Pow10(10) == 10000000000;
    DecimalLength(n, 10);
  }

  // ---- encoding -----------------------------------------------------------------------------------------

  type Command = seq<Bytes>

  function BulkString(a: Bytes): Bytes {
    [DOLLAR] + Decimal(|a|) + CRLF + a + CRLF
  }

  function ArrayHeader(n: nat): Bytes {
    [STAR] + Decimal(n) + CRLF
  }

  function Args(c: Command): Bytes {
    if c == [] then [] else Args(c[..|c| - 1]) + BulkString(c[|c| - 1])
  }

  function EncodeCommand(c: Command): Bytes {
    ArrayHeader(|c|) + Args(c)
  }

  predicate CommandOk(c: Command) {
    1 <= |c| <= MAX_MULTIBULK && forall i :: 0 <= i < |c| ==> |c[i]| <= MAX_BULK
  }

  /** The bytes of `PING` as an array of one bulk string. */
  lemma {:induction false} PingOnTheWire()
    ensures EncodeCommand([[80, 73, 78, 71]]) == [42, 49, 13, 10, 36, 52, 13, 10, 80, 73, 78, 71, 13, 10]
  {
    var c: Command := [[80, 73, 78, 71]];
    assert Args(c[..0]) == [];
    assert BulkString(c[0]) == [36, 52, 13, 10, 80, 73, 78, 71, 13, 10];
    assert ArrayHeader(1) == [42, 49, 13, 10];
  }

  function Stream(cs: seq<Command>): Bytes {
    if cs == [] then [] else EncodeCommand(cs[0]) + Stream(cs[1..])
  }

  // ---- lines --------------------------------------------------------------------------------------------

  predicate CrlfAt(s: Bytes, i: nat) {
    i + 1 < |s| && s[i] == CR && s[i + 1] == LF
  }

  /** `find` of a line end from `from` on; the length of `s` where there is none. */
  function FindCrlf(s: Bytes, from: nat): (i: nat)
    ensures from <= |s| ==> from <= i <= |s|
    ensures i < |s| ==> CrlfAt(s, i)
    ensures forall j :: from <= j < i ==> !CrlfAt(s, j)
    decreases |s| - from
  {
    if from >= |s| then |s| else if CrlfAt(s, from) then from else FindCrlf(s, from + 1)
  }

  /**
   * In a buffer that holds a prefix of a stream with a number line at `p`, either the whole line is
   * there and is found, or the buffer ends inside it.
   */
  lemma {:induction false} LineAt(buf: Bytes, stream: Bytes, p: nat, n: nat)
    requires buf <= stream && p < |buf| && n <= MAX_BULK
    requires At(stream, p + 1, Decimal(n) + CRLF)
    ensures var end := p + 1 + |Decimal(n)|;
            && |Decimal(n)| <= 10
            && if |buf| >= end + 2 then FindCrlf(buf, p + 1) == end && buf[p + 1..end] == Decimal(n)
               else FindCrlf(buf, p + 1) == |buf| && |buf| - p <= MAX_LINE
  {
    hide Decimal, ValueOf;
    ShortNumbers(n);
    DecimalIsDigits(n);
    var d := Decimal(n);
    var end := p + 1 + |d|;
    var line := stream[p + 1..end + 2];
    assert line == d + CRLF;
    assert forall j :: 0 <= j < |d| + 2 ==> stream[p + 1 + j] == line[j];
    assert forall j :: p + 1 <= j < end && j < |buf| ==> buf[j] == d[j - p - 1];
    assert end < |buf| ==> buf[end] == CR;
    assert end + 1 < |buf| ==> buf[end + 1] == LF;
    if |buf| >= end + 2 {
      assert CrlfAt(buf, end);
      assert buf[p + 1..end] == d;
    }
  }

  // ---- inline commands ------------------------------------------------------------------------------------

  predicate IsSpace(c: byte) {
    c == 32 || c == 9
  }

  /** The first newline, or the length where there is none. */
  function FindLf(s: Bytes, from: nat): (i: nat)
    requires from <= |s|
    ensures from <= i <= |s| && (i < |s| ==> s[i] == LF) && forall j :: from <= j < i ==> s[j] != LF
    decreases |s| - from
  {
    if from == |s| || s[from] == LF then from else FindLf(s, from + 1)
  }

  // ---- where things are in an encoded command -------------------------------------------------------------

  /** Where argument `i` of a command starts. */
  function Off(c: Command, i: nat): nat
    requires i <= |c|
  {
    |ArrayHeader(|c|)| + |Args(c[..i])|
  }

  /** Where its bytes are. */
  function Span(c: Command, i: nat): (nat, nat)
    requires i < |c|
  {
    (Off(c, i) + 1 + |Decimal(|c[i]|)| + 2, |c[i]|)
  }

  function Spans(c: Command, i: nat): (r: seq<(nat, nat)>)
    requires i <= |c|
    ensures |r| == i && forall j :: 0 <= j < i ==> r[j] == Span(c, j)
  {
    if i == 0 then [] else Spans(c, i - 1) + [Span(c, i - 1)]
  }

  lemma {:induction false} ArgsAt(c: Command, i: nat)
    requires i < |c|
    ensures |Args(c[..i + 1])| == |Args(c[..i])| + |BulkString(c[i])|
    ensures At(Args(c), |Args(c[..i])|, BulkString(c[i]))
  {
    hide BulkString;
    assert c[..i + 1][..i] == c[..i];
    var init, last := c[..|c| - 1], c[|c| - 1];
    if i < |init| {
      ArgsAt(init, i);
      assert init[..i] == c[..i];
      var at, n := |Args(c[..i])|, |BulkString(c[i])|;
      assert Args(c)[at..at + n] == Args(init)[at..at + n];
    } else {
      assert c[..i + 1] == c && c[..i] == init;
      assert Args(c)[|Args(init)|..|Args(init)| + |BulkString(last)|] == BulkString(last);
    }
  }

  /** Argument `i` sits at its offset in any stream that starts with the command. */
  lemma {:induction false} ArgAt(cs: seq<Command>, i: nat)
    requires cs != [] && i < |cs[0]|
    ensures var c := cs[0];
            && Off(c, i + 1) == Off(c, i) + |BulkString(c[i])| && Off(c, |c|) == |EncodeCommand(c)|
            && At(Stream(cs), Off(c, i), BulkString(c[i]))
  {
    hide BulkString, ArrayHeader, Args;
    var c := cs[0];
    ArgsAt(c, i);
    assert c[..|c|] == c;
    var h, x := ArrayHeader(|c|), BulkString(c[i]);
    var at := |Args(c[..i])|;
    assert EncodeCommand(c)[|h| + at..|h| + at + |x|] == Args(c)[at..at + |x|];
    assert Stream(cs)[|h| + at..|h| + at + |x|] == EncodeCommand(c)[|h| + at..|h| + at + |x|];
  }

  /** The parts of a bulk string. */
  lemma {:induction false} BulkParts(s: Bytes, p: nat, a: Bytes)
    requires At(s, p, BulkString(a))
    ensures s[p] == DOLLAR && At(s, p + 1, Decimal(|a|) + CRLF)
    ensures var d := p + 1 + |Decimal(|a|)| + 2; At(s, d, a) && At(s, d + |a|, CRLF)
  {
    hide Decimal;
    var n := Decimal(|a|);
    AtSplit(s, p, [DOLLAR] + n + CRLF + a, CRLF);
    AtSplit(s, p, [DOLLAR] + n + CRLF, a);
    assert [DOLLAR] + n + CRLF == [DOLLAR] + (n + CRLF);
    AtSplit(s, p, [DOLLAR], n + CRLF);
  }

  lemma {:induction false} HeaderParts(cs: seq<Command>)
    requires cs != []
    ensures |Stream(cs)| > 0 && Stream(cs)[0] == STAR && At(Stream(cs), 1, Decimal(|cs[0]|) + CRLF)
    ensures Off(cs[0], 0) == |ArrayHeader(|cs[0]|)| == 1 + |Decimal(|cs[0]|)| + 2
  {
    hide Decimal, At;
    var c := cs[0];
    var n := Decimal(|c|);
    HeaderInFront(n, Args(c), Stream(cs[1..]));
    assert c[..0] == [];
  }

  lemma {:induction false} HeaderInFront(n: Bytes, args: Bytes, rest: Bytes)
    ensures var s := [STAR] + n + CRLF + args + rest; |s| > 0 && s[0] == STAR && At(s, 1, n + CRLF)
  {
    var s := [STAR] + n + CRLF + args + rest;
    assert s[1..1 + |n + CRLF|] == n + CRLF;
  }

  lemma {:induction false} OffsetsGrow(c: Command, i: nat)
    requires i <= |c|
    ensures Off(c, i) <= |EncodeCommand(c)|
    decreases |c| - i
  {
    hide ArrayHeader, BulkString;
    if i < |c| {
      ArgsAt(c, i);
      OffsetsGrow(c, i + 1);
    } else {
      assert c[..i] == c;
    }
  }

  /** An error reply is one line: line ends in the message become spaces, every other byte stays. */
  method ErrorReply(msg: Bytes) returns (out: Bytes)
    ensures |out| == |msg| + 3 && out[0] == 45 && out[|msg| + 1..] == CRLF
    ensures forall i :: 0 <= i < |msg| ==> out[i + 1] == if msg[i] == CR || msg[i] == LF then SPACE else msg[i]
    ensures FindCrlf(out, 0) == |msg| + 1
  {
    out := [45];
    for i := 0 to |msg|
      invariant |out| == i + 1 && out[0] == 45
      invariant forall j :: 0 <= j < i ==> out[j + 1] == if msg[j] == CR || msg[j] == LF then SPACE else msg[j]
    {
      out := out + [if msg[i] == CR || msg[i] == LF then SPACE else msg[i]];
    }
    out := out + CRLF;
    assert CrlfAt(out, |msg| + 1);
    forall j | 0 < j <= |msg|
      ensures out[j] != CR
    {
      assert out[(j - 1) + 1] == if msg[j - 1] == CR || msg[j - 1] == LF then SPACE else msg[j - 1];
    }
  }
}
