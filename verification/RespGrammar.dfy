/** What the request parser must make of arbitrary bytes, said about the bytes alone. */
module RespGrammar {
  import opened Bytes
  import opened Resp

  datatype Status = Request | NeedMore | Error | Again

  // ---- inline commands ------------------------------------------------------------------------------------

  /** A non-empty maximal run of bytes that are neither space nor tab. */
  ghost predicate WordAt(s: Bytes, a: nat, b: nat) {
    && a < b <= |s| && (forall i :: a <= i < b ==> !IsSpace(s[i]))
    && (a == 0 || IsSpace(s[a - 1])) && (b == |s| || IsSpace(s[b]))
  }

  /** `spans` lists words of `s` in order, all of those that start before `i`. */
  ghost predicate WordsUpTo(s: Bytes, i: nat, spans: seq<(nat, nat)>) {
    && (forall j :: 0 <= j < |spans| ==> WordAt(s, spans[j].0, spans[j].1))
    && (forall j, k :: 0 <= j < k < |spans| ==> spans[j].1 < spans[k].0)
    && forall a: nat, b: nat :: WordAt(s, a, b) && a < i ==> (a, b) in spans
  }

  ghost predicate Slices(s: Bytes, spans: seq<(nat, nat)>, parts: seq<Bytes>) {
    && |parts| == |spans|
    && forall j :: 0 <= j < |spans| ==> spans[j].0 + spans[j].1 <= |s|
                                        && parts[j] == s[spans[j].0..spans[j].0 + spans[j].1]
  }

  /** `words` are exactly the words of `s`, in order. */
  ghost predicate AreWords(s: Bytes, words: Command) {
    exists spans: seq<(nat, nat)> :: WordsUpTo(s, |s|, spans) && |words| == |spans|
                    && forall j :: 0 <= j < |spans| ==> words[j] == s[spans[j].0..spans[j].1]
  }

  ghost predicate FirstNewline(b: Bytes, nl: nat) {
    nl < |b| && b[nl] == LF && forall j :: 0 <= j < nl ==> b[j] != LF
  }

  /** A line of words, ended by a newline, which a carriage return may precede. */
  ghost predicate InlineGives(b: Bytes, st: Status, args: Command, rest: Bytes) {
    && (LF !in b ==> rest == b && st == if |b| > MAX_INLINE then Error else NeedMore)
    && forall nl: nat :: FirstNewline(b, nl) ==>
         && rest == b[nl + 1..] && AreWords(b[..if nl > 0 && b[nl - 1] == CR then nl - 1 else nl], args)
         && st == if args == [] then NeedMore else Request
  }

  lemma {:induction false} LineIsOpen(b: Bytes, st: Status)
    requires (forall j :: 0 <= j < |b| ==> b[j] != LF) && st == if |b| > MAX_INLINE then Error else NeedMore
    ensures InlineGives(b, st, [], b)
  {
  }

  lemma {:induction false} LineIsRead(b: Bytes, nl: nat, st: Status, args: Command)
    requires FirstNewline(b, nl)
    requires AreWords(b[..if nl > 0 && b[nl - 1] == CR then nl - 1 else nl], args)
    requires st == if args == [] then NeedMore else Request
    ensures InlineGives(b, st, args, b[nl + 1..])
  {
    hide AreWords;
    assert forall x: nat :: FirstNewline(b, x) ==> x == nl;
  }

  /** After spaces from `from` to `start` and other bytes up to `i`, one more word has been passed, if any. */
  lemma {:induction false} NextWord(s: Bytes, from: nat, start: nat, i: nat, spans: seq<(nat, nat)>)
    requires from <= start <= i <= |s| && (from > 0 && from < |s| ==> IsSpace(s[from])) && from < |s|
    requires (forall x :: from <= x < start ==> IsSpace(s[x])) && forall x :: start <= x < i ==> !IsSpace(s[x])
    requires (start < |s| ==> start < i) && (i < |s| ==> IsSpace(s[i]))
    requires WordsUpTo(s, from, spans) && forall j :: 0 <= j < |spans| ==> spans[j].0 <= spans[j].1 <= from
    ensures var more := if i > start then spans + [(start, i)] else spans;
            WordsUpTo(s, i, more) && forall j :: 0 <= j < |more| ==> more[j].0 <= more[j].1 <= i
  {
    hide WordAt;
    forall j | 0 <= j < |spans| ensures spans[j].1 > 0 { WordIsLong(s, spans[j].0, spans[j].1); }
    var more := if i > start then spans + [(start, i)] else spans;
    if i > start {
      assert WordAt(s, start, i) by { IsWord(s, from, start, i); }
    }
    forall a: nat, b: nat | WordAt(s, a, b) && a < i ensures (a, b) in more {
      if a >= from {
        SameWord(s, from, start, i, a, b);
        assert more[|more| - 1] == (a, b);
      }
    }
  }

  lemma {:induction false} NoWordYet(s: Bytes)
    ensures WordsUpTo(s, 0, [])
  {
  }

  lemma {:induction false} WordIsLong(s: Bytes, a: nat, b: nat)
    requires WordAt(s, a, b)
    ensures a < b
  {
  }

  lemma {:induction false} IsWord(s: Bytes, from: nat, start: nat, i: nat)
    requires from <= start < i <= |s| && (from > 0 ==> IsSpace(s[from]))
    requires (forall x :: from <= x < start ==> IsSpace(s[x])) && forall x :: start <= x < i ==> !IsSpace(s[x])
    requires i < |s| ==> IsSpace(s[i])
    ensures WordAt(s, start, i)
  {
    if start > 0 {
      assert start > from;
      assert IsSpace(s[start - 1]);
    }
  }

  lemma {:induction false} SameWord(s: Bytes, from: nat, start: nat, i: nat, a: nat, b: nat)
    requires from <= start <= i <= |s| && from <= a < i && WordAt(s, a, b)
    requires (forall x :: from <= x < start ==> IsSpace(s[x])) && forall x :: start <= x < i ==> !IsSpace(s[x])
    requires i < |s| ==> IsSpace(s[i])
    ensures a == start && b == i
  {
    assert !IsSpace(s[a]);
  }

  /** A line that holds nothing but spaces and tabs. */
  ghost predicate SpacesLine(b: Bytes) {
    && b != [] && b[0] != STAR && !IsBlank(b[0])
    && exists nl: nat :: FirstNewline(b, nl)
         && forall i :: 0 <= i < nl && !(i == nl - 1 && b[i] == CR) ==> IsSpace(b[i])
  }

  lemma {:induction false} SpacesAreNoWords(s: Bytes, words: Command)
    requires AreWords(s, words)
    ensures words == [] <==> forall i :: 0 <= i < |s| ==> IsSpace(s[i])
  {
    hide WordAt;
    var spans: seq<(nat, nat)> :| WordsUpTo(s, |s|, spans) && |words| == |spans|;
    if words != [] {
      FirstOfWord(s, spans[0].0, spans[0].1);
    } else if exists i :: 0 <= i < |s| && !IsSpace(s[i]) {
      var i :| 0 <= i < |s| && !IsSpace(s[i]);
      var a, b := WordAround(s, i);
    }
  }

  lemma {:induction false} FirstOfWord(s: Bytes, a: nat, b: nat)
    requires WordAt(s, a, b)
    ensures a < |s| && !IsSpace(s[a])
  {
  }

  /** Every byte that is not a space is in a word. */
  lemma {:induction false} WordAround(s: Bytes, i: nat) returns (a: nat, b: nat)
    requires i < |s| && !IsSpace(s[i])
    ensures WordAt(s, a, b)
  {
    a, b := i, i + 1;
    while a > 0 && !IsSpace(s[a - 1])
      invariant a <= i && forall j :: a <= j < b ==> !IsSpace(s[j])
    {
      a := a - 1;
    }
    while b < |s| && !IsSpace(s[b])
      invariant i < b <= |s| && forall j :: a <= j < b ==> !IsSpace(s[j])
    {
      b := b + 1;
    }
  }

  lemma {:induction false} SpacesRead(x: Bytes, st: Status, args: Command, rest: Bytes)
    requires InlineGives([SPACE, LF] + x, st, args, rest)
    ensures st == NeedMore && rest == x
  {
    hide AreWords;
    var b := [SPACE, LF] + x;
    assert FirstNewline(b, 1) && b[..1] == [SPACE] && b[2..] == x;
    SpacesAreNoWords([SPACE], args);
  }

  /** An inline line that asks for more has no newline, or no words. */
  lemma {:induction false} NoWordsRead(b: Bytes, args: Command, rest: Bytes)
    requires b != [] && b[0] != STAR && !IsBlank(b[0]) && InlineGives(b, NeedMore, args, rest)
    ensures (rest == b && LF !in b) || SpacesLine(b)
  {
    hide AreWords;
    if LF in b {
      var nl := FindLf(b, 0);
      assert FirstNewline(b, nl);
      var end := if nl > 0 && b[nl - 1] == CR then nl - 1 else nl;
      SpacesAreNoWords(b[..end], args);
      forall i | 0 <= i < nl && !(i == nl - 1 && b[i] == CR) ensures IsSpace(b[i]) {
        assert b[i] == b[..end][i];
      }
    }
  }

  // ---- arrays of bulk strings -------------------------------------------------------------------------------

  ghost predicate FirstCrlf(b: Bytes, from: nat, nl: nat) {
    from <= nl && CrlfAt(b, nl) && forall j :: from <= j < nl ==> !CrlfAt(b, j)
  }

  ghost predicate NoCrlf(b: Bytes, from: nat) {
    forall j :: from <= j ==> !CrlfAt(b, j)
  }

  /** `b` starts with the header of an array of `n`, which is `end` bytes long. */
  ghost predicate HeaderLine(b: Bytes, n: nat, end: nat) {
    3 <= end <= |b| && b[0] == STAR && FirstCrlf(b, 1, end - 2)
    && ParseDigits(b[1..end - 2]) == Some(n) && n <= MAX_MULTIBULK
  }

  ghost predicate HeaderStuck(b: Bytes, st: Status) {
    && b != [] && b[0] == STAR && (forall n: nat, end: nat :: !HeaderLine(b, n, end))
    && st == if NoCrlf(b, 1) && |b| <= MAX_LINE then NeedMore else Error
  }

  /** At `at` stands the length line of a bulk string whose `len` bytes start at `data`. */
  ghost predicate LengthLine(b: Bytes, at: nat, data: nat, len: nat) {
    at + 3 <= data <= |b| && b[at] == DOLLAR && FirstCrlf(b, at + 1, data - 2)
    && ParseDigits(b[at + 1..data - 2]) == Some(len) && len <= MAX_BULK
  }

  ghost predicate ArgumentAt(b: Bytes, at: nat, data: nat, len: nat) {
    LengthLine(b, at, data, len) && CrlfAt(b, data + len)
  }

  ghost predicate ArgumentStuck(b: Bytes, at: nat, st: Status) {
    && (forall data: nat, len: nat :: !ArgumentAt(b, at, data, len))
    && st == if || at >= |b|
                || (b[at] == DOLLAR && NoCrlf(b, at + 1) && |b| - at <= MAX_LINE)
                || exists data: nat, len: nat :: LengthLine(b, at, data, len) && |b| < data + len + 2
             then NeedMore else Error
  }

  lemma {:induction false} OneLengthLine(b: Bytes, at: nat, data: nat, len: nat, data': nat, len': nat)
    requires LengthLine(b, at, data, len) && LengthLine(b, at, data', len')
    ensures data == data' && len == len'
  {
    hide ParseDigits, CrlfAt;
  }

  /** Where no length line can be read. */
  lemma {:induction false} CannotRead(b: Bytes, at: nat)
    ensures at >= |b| ==> ArgumentStuck(b, at, NeedMore)
    ensures at < |b| && b[at] != DOLLAR ==> ArgumentStuck(b, at, Error)
    ensures at < |b| && b[at] == DOLLAR && NoCrlf(b, at + 1) ==>
              ArgumentStuck(b, at, if |b| - at > MAX_LINE then Error else NeedMore)
  {
    hide ParseDigits, CrlfAt;
  }

  lemma {:induction false} CannotTake(b: Bytes, at: nat, nl: nat)
    requires at < |b| && b[at] == DOLLAR && FirstCrlf(b, at + 1, nl)
    requires var o := ParseDigits(b[at + 1..nl]); o.None? || o.value > MAX_BULK
    ensures ArgumentStuck(b, at, Error)
  {
    hide ParseDigits, CrlfAt;
  }

  lemma {:induction false} StuckOnce(b: Bytes, at: nat, st: Status, st': Status)
    requires ArgumentStuck(b, at, st)
    ensures ArgumentStuck(b, at, st') ==> st == st'
    ensures forall data: nat, len: nat :: !ArgumentAt(b, at, data, len)
  {
    hide LengthLine, ArgumentAt;
  }

  lemma {:induction false} StuckHeader(b: Bytes)
    ensures forall st, st' :: HeaderStuck(b, st) && HeaderStuck(b, st') ==> st == st'
    ensures forall st, n: nat, end: nat :: HeaderStuck(b, st) ==> !HeaderLine(b, n, end)
  {
    hide HeaderLine;
  }

  lemma {:induction false} OneHeaderLine(b: Bytes, n: nat, end: nat, n': nat, end': nat)
    requires HeaderLine(b, n, end) && HeaderLine(b, n', end')
    ensures n == n' && end == end'
  {
    hide ParseDigits, CrlfAt;
  }

  /** What stands behind a length line decides. */
  lemma {:induction false} LengthIsRead(b: Bytes, at: nat, nl: nat, len: nat)
    requires at < |b| && b[at] == DOLLAR && FirstCrlf(b, at + 1, nl)
    requires ParseDigits(b[at + 1..nl]) == Some(len) && len <= MAX_BULK
    ensures |b| < nl + 2 + len + 2 ==> ArgumentStuck(b, at, NeedMore)
    ensures |b| >= nl + 2 + len + 2 ==>
              if CrlfAt(b, nl + 2 + len) then ArgumentAt(b, at, nl + 2, len) else ArgumentStuck(b, at, Error)
  {
    hide LengthLine;
    assert LengthLine(b, at, nl + 2, len) by { IsLengthLine(b, at, nl, len); }
    forall data: nat, n: nat | LengthLine(b, at, data, n) ensures data == nl + 2 && n == len {
      OneLengthLine(b, at, data, n, nl + 2, len);
    }
    assert b[at] == DOLLAR && !NoCrlf(b, at + 1);
  }

  lemma {:induction false} IsLengthLine(b: Bytes, at: nat, nl: nat, len: nat)
    requires at < |b| && b[at] == DOLLAR && FirstCrlf(b, at + 1, nl)
    requires ParseDigits(b[at + 1..nl]) == Some(len) && len <= MAX_BULK
    ensures LengthLine(b, at, nl + 2, len)
  {
  }

  /** Where reading stands after the first `i` of the arguments in `spans`. */
  function Stop(from: nat, spans: seq<(nat, nat)>, i: nat): nat
    requires i <= |spans|
  {
    if i == 0 then from else spans[i - 1].0 + spans[i - 1].1 + 2
  }

  /** `spans` are arguments that stand in `b` one after the other from `from` on. */
  ghost predicate Arguments(b: Bytes, from: nat, spans: seq<(nat, nat)>) {
    forall i :: 0 <= i < |spans| ==> ArgumentAt(b, Stop(from, spans, i), spans[i].0, spans[i].1)
  }

  lemma {:induction false} OneMoreArgument(b: Bytes, from: nat, spans: seq<(nat, nat)>, data: nat, len: nat)
    requires Arguments(b, from, spans) && ArgumentAt(b, Stop(from, spans, |spans|), data, len)
    ensures Arguments(b, from, spans + [(data, len)])
    ensures Stop(from, spans + [(data, len)], |spans| + 1) == data + len + 2
  {
    hide ArgumentAt;
    var more := spans + [(data, len)];
    forall i | 0 <= i < |more| ensures ArgumentAt(b, Stop(from, more, i), more[i].0, more[i].1) {
      assert Stop(from, more, i) == Stop(from, spans, i);
    }
  }

  // ---- between commands -------------------------------------------------------------------------------------

  predicate IsBlank(c: byte) {
    c == 13 || c == 10
  }

  /** The first `n` bytes are line ends and empty arrays. */
  ghost predicate Skipped(b: Bytes, n: nat)
    decreases n
  {
    || n == 0
    || (b != [] && IsBlank(b[0]) && Skipped(b[1..], n - 1))
    || exists end: nat {:trigger HeaderLine(b, 0, end)} ::
         end <= n && HeaderLine(b, 0, end) && Skipped(b[end..], n - end)
  }

  lemma {:induction false} SkippedOn(b: Bytes, n: nat, m: nat)
    requires n <= |b| && Skipped(b, n) && Skipped(b[n..], m)
    ensures Skipped(b, n + m)
    decreases n
  {
    hide HeaderLine;
    if n == 0 {
      assert b[0..] == b;
    } else if b != [] && IsBlank(b[0]) && Skipped(b[1..], n - 1) {
      assert b[1..][n - 1..] == b[n..];
      SkippedOn(b[1..], n - 1, m);
    } else {
      var end: nat :| end <= n && HeaderLine(b, 0, end) && Skipped(b[end..], n - end);
      HeaderIsLong(b, 0, end);
      assert b[end..][n - end..] == b[n..];
      SkippedOn(b[end..], n - end, m);
    }
  }

  lemma {:induction false} HeaderIsLong(b: Bytes, n: nat, end: nat)
    requires HeaderLine(b, n, end)
    ensures 3 <= end <= |b| && b[0] == STAR
  {
  }

  lemma {:induction false} BlanksAreSkipped(b: Bytes, n: nat)
    requires n <= |b| && forall i :: 0 <= i < n ==> IsBlank(b[i])
    ensures Skipped(b, n)
    decreases n
  {
    if n > 0 { BlanksAreSkipped(b[1..], n - 1); }
  }

  lemma {:induction false} NothingSkipped(b: Bytes)
    ensures Skipped(b, 0)
  {
  }

  lemma {:induction false} BlanksGo(b: Bytes, n: nat, m: nat)
    requires n <= |b| && Skipped(b, n) && LeadingBlanks(b[n..], m)
    ensures n + m <= |b| && Skipped(b, n + m) && b[n..][m..] == b[n + m..]
  {
    hide Skipped;
    BlanksAreSkipped(b[n..], m);
    SkippedOn(b, n, m);
  }

  lemma {:induction false} EmptyArrayGoes(b: Bytes, n: nat, end: nat)
    requires n <= |b| && Skipped(b, n) && HeaderLine(b[n..], 0, end)
    ensures n + end <= |b| && Skipped(b, n + end) && b[n..][end..] == b[n + end..] && end > 0
  {
    hide HeaderLine;
    HeaderIsLong(b[n..], 0, end);
    NothingSkipped(b[n..][end..]);
    assert Skipped(b[n..], end);
    SkippedOn(b, n, end);
  }

  /** Past line ends and empty arrays stands a line of spaces. */
  ghost predicate SpacesFirst(b: Bytes) {
    exists n: nat :: n <= |b| && Skipped(b, n) && SpacesLine(b[n..])
  }

  /** `m` is the length of the leading run of line ends. */
  ghost predicate LeadingBlanks(b: Bytes, m: nat) {
    m <= |b| && (forall i :: 0 <= i < m ==> IsBlank(b[i])) && (m < |b| ==> !IsBlank(b[m]))
  }

  /** Neither a line end nor an empty array stands in front of a command. */
  lemma {:induction false} NothingToSkip(b: Bytes, n: nat, size: nat)
    requires n <= |b| && Skipped(b, n) && b != [] && b[0] == STAR && size > 0
    requires (exists end: nat :: HeaderLine(b, size, end)) || HeaderStuck(b, NeedMore)
    ensures n == 0
  {
    hide HeaderLine;
    if n > 0 {
      var end: nat :| end <= n && HeaderLine(b, 0, end) && Skipped(b[end..], n - end);
      assert !HeaderStuck(b, NeedMore);
      var other: nat :| HeaderLine(b, size, other);
      OneHeaderLine(b, 0, end, size, other);
    }
  }

  /** At `m` starts something other than an array. */
  predicate IsInline(b: Bytes, m: nat) {
    m < |b| && b[m] != STAR
  }

  /** Where no array follows the line ends, they are all that can be skipped. */
  lemma {:induction false} OnlyBlanksSkipped(b: Bytes, n: nat, m: nat)
    requires n <= |b| && Skipped(b, n) && LeadingBlanks(b, m) && IsInline(b, m)
    requires n < |b| ==> !IsBlank(b[n])
    ensures n == m
    decreases n
  {
    hide HeaderLine;
    if n > 0 {
      if exists end: nat :: end <= n && HeaderLine(b, 0, end) && Skipped(b[end..], n - end) {
        var end: nat :| end <= n && HeaderLine(b, 0, end) && Skipped(b[end..], n - end);
        HeaderIsLong(b, 0, end);
      } else {
        OnlyBlanksSkipped(b[1..], n - 1, m - 1);
      }
    }
  }
}
