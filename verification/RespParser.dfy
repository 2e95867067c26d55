/** The incremental request parser. */
module RespParser {
  import opened Bytes
  import opened Resp
  import opened RespGrammar

  ghost predicate CommandsOk(cs: seq<Command>) {
    forall i :: 0 <= i < |cs| ==> CommandOk(cs[i])
  }

  /**
   * The buffer holds the beginning of the remaining commands, and the parser is between commands or
   * has read some arguments of the first one.
   */
  ghost predicate OnTrack(buf: Bytes, pos: nat, multibulk: int, spans: seq<(nat, nat)>, cs: seq<Command>) {
    && CommandsOk(cs) && buf <= Stream(cs)
    && (|| (multibulk == -1 && pos == 0 && spans == [])
        || (&& cs != [] && |spans| < |cs[0]| && multibulk == |cs[0]| - |spans|
            && pos == Off(cs[0], |spans|) <= |buf| && spans == Spans(cs[0], |spans|)))
  }

  class Parser {
    var buf: Bytes
    /** Arguments still expected, or -1 between commands. */
    var multibulk: int
    var pos: nat
    var spans: seq<(nat, nat)>
    /** All bytes ever fed, and how many of them have left the buffer. */
    ghost var input: Bytes
    ghost var erased: nat

    ghost predicate Valid()
      reads this
    {
      && erased <= |input| && buf == input[erased..]
      && pos <= |buf| && multibulk >= -1 && multibulk != 0
      && forall i :: 0 <= i < |spans| ==> spans[i].0 + spans[i].1 <= |buf|
    }

    /** As it is between calls: nothing half-read while no command is open. */
    ghost predicate Steady()
      reads this
    {
      Valid() && (multibulk == -1 ==> spans == [] && pos == 0)
    }

    ghost predicate Tracks(cs: seq<Command>)
      reads this
    {
      OnTrack(buf, pos, multibulk, spans, cs)
    }

    constructor ()
      ensures Steady() && input == [] && multibulk == -1 && forall cs :: CommandsOk(cs) ==> Tracks(cs)
    {
      buf, multibulk, pos, spans, input, erased := [], -1, 0, [], [], 0;
    }

    method Feed(bytes: Bytes)
      requires Valid()
      modifies this`buf, this`input
      ensures Valid() && (old(Steady()) ==> Steady()) && input == old(input) + bytes && buf == old(buf) + bytes
    {
      assert (input + bytes)[erased..] == input[erased..] + bytes;
      buf := buf + bytes;
      input := input + bytes;
    }

    method Erase(n: nat)
      requires Valid() && n <= |buf| && multibulk == -1 && spans == []
      modifies this`buf, this`pos, this`erased
      ensures Valid() && buf == old(buf)[n..] && pos == 0 && erased == old(erased) + n
    {
      assert input[erased..][n..] == input[erased + n..];
      buf := buf[n..];
      pos := 0;
      erased := erased + n;
    }

    /** Between commands: blank lines go. */
    method SkipBlankLines() returns (ghost m: nat)
      requires Valid() && multibulk == -1 && spans == [] && pos == 0
      modifies this`buf, this`pos, this`erased
      ensures Valid() && pos == 0 && LeadingBlanks(old(buf), m) && buf == old(buf)[m..]
    {
      while pos < |buf| && (buf[pos] == CR || buf[pos] == LF)
        invariant pos <= |buf| && forall i :: 0 <= i < pos ==> IsBlank(buf[i])
        modifies this`pos
      {
        pos := pos + 1;
      }
      m := pos;
      if pos > 0 { Erase(pos); }
    }

    /** The line `*<n>`. */
    method Header() returns (st: Status, ghost n: nat, ghost end: nat)
      requires Valid() && multibulk == -1 && spans == [] && pos == 0 && buf != [] && buf[0] == STAR
      modifies this`buf, this`multibulk, this`pos, this`spans, this`erased
      ensures Steady() && spans == [] && st != Request
      ensures st != Again ==> HeaderStuck(old(buf), st) && buf == old(buf) && multibulk == -1
      ensures st == Again ==> HeaderLine(old(buf), n, end)
      ensures st == Again && n == 0 ==> multibulk == -1 && end <= |old(buf)| && buf == old(buf)[end..]
      ensures st == Again && n > 0 ==> multibulk == n && pos == end && buf == old(buf)
    {
      hide FindCrlf, ParseDigits;
      n, end := 0, 0;
      var nl := FindCrlf(buf, 1);
      if nl == |buf| { return (if |buf| > MAX_LINE then Error else NeedMore), n, end; }
      var o := ParseDigits(buf[1..nl]);
      if o.None? || o.value > MAX_MULTIBULK { return Error, n, end; }
      n, end := o.value, nl + 2;
      if o.value == 0 {
        Erase(nl + 2);
        return Again, n, end;
      }
      multibulk := o.value;
      spans := [];
      pos := nl + 2;
      return Again, n, end;
    }

    /** Finds the bytes of the argument at the parse position: `$<len>`, the bytes, a line end. */
    method Locate() returns (st: Status, data: nat, len: nat)
      requires Valid() && multibulk > 0
      ensures if st == Again then ArgumentAt(buf, pos, data, len) else ArgumentStuck(buf, pos, st)
      ensures st != Request && (st == Again ==> pos < data && data + len + 2 <= |buf|)
    {
      hide FindCrlf, ParseDigits, ArgumentAt, ArgumentStuck, LengthLine;
      data, len := 0, 0;
      CannotRead(buf, pos);
      if pos >= |buf| { return NeedMore, 0, 0; }
      if buf[pos] != DOLLAR { return Error, 0, 0; }
      var nl := FindCrlf(buf, pos + 1);
      if nl == |buf| { return (if |buf| - pos > MAX_LINE then Error else NeedMore), 0, 0; }
      var o := ParseDigits(buf[pos + 1..nl]);
      if o.None? || o.value > MAX_BULK {
        CannotTake(buf, pos, nl);
        return Error, 0, 0;
      }
      data, len := nl + 2, o.value;
      LengthIsRead(buf, pos, nl, len);
      if |buf| < data + len + 2 { return NeedMore, 0, 0; }
      if buf[data + len] != CR || buf[data + len + 1] != LF { return Error, 0, 0; }
      st := Again;
    }

    /** One argument; the last one completes the command. */
    method Argument() returns (st: Status, args: Command, ghost data: nat, ghost len: nat)
      requires Steady() && multibulk > 0
      modifies this`buf, this`multibulk, this`pos, this`spans, this`erased
      ensures Steady()
      ensures st == Again || st == Request ==> ArgumentAt(old(buf), old(pos), data, len)
      ensures st == Again ==>
                buf == old(buf) && old(pos) < pos == data + len + 2 && 0 < multibulk == old(multibulk) - 1
                && spans == old(spans) + [(data, len)]
      ensures st == Request ==>
                && multibulk == -1 && old(multibulk) == 1 && data + len + 2 <= |old(buf)|
                && buf == old(buf)[data + len + 2..] && Slices(old(buf), old(spans) + [(data, len)], args)
      ensures st != Again && st != Request ==> ArgumentStuck(old(buf), old(pos), st) && unchanged(this)
    {
      hide ArgumentAt, ArgumentStuck;
      var at, n;
      st, at, n := Locate();
      data, len := at, n;
      if st != Again { return st, [], data, len; }
      spans := spans + [(at, n)];
      pos := at + n + 2;
      if multibulk - 1 > 0 {
        multibulk := multibulk - 1;
        return Again, [], data, len;
      }
      args := Complete();
      return Request, args, data, len;
    }

    /** Copies the arguments out and drops the command from the buffer. */
    method Complete() returns (args: Command)
      requires Valid()
      modifies this`buf, this`multibulk, this`pos, this`spans, this`erased
      ensures Steady() && multibulk == -1 && buf == old(buf)[old(pos)..] && Slices(old(buf), old(spans), args)
    {
      args := [];
      for i := 0 to |spans|
        invariant |args| == i && forall j :: 0 <= j < i ==> args[j] == buf[spans[j].0..spans[j].0 + spans[j].1]
      {
        args := args + [buf[spans[i].0..spans[i].0 + spans[i].1]];
      }
      multibulk := -1;
      spans := [];
      Erase(pos);
    }

    /** A line of words, ended by a newline. */
    method NextInline() returns (st: Status, args: Command)
      requires Valid() && multibulk == -1 && spans == [] && pos == 0
      modifies this`buf, this`pos, this`erased
      ensures Steady() && InlineGives(old(buf), st, args, buf)
      ensures st != Again && (st == Request ==> |buf| < |old(buf)|)
    {
      hide AreWords, FindLf, InlineGives;
      args := [];
      var nl := FindLf(buf, 0);
      if nl == |buf| {
        st := if |buf| > MAX_INLINE then Error else NeedMore;
        LineIsOpen(buf, st);
        return;
      }
      var end := if nl > 0 && buf[nl - 1] == CR then nl - 1 else nl;
      args := Split(buf[..end]);
      st := if args == [] then NeedMore else Request;
      LineIsRead(buf, nl, st, args);
      Erase(nl + 1);
    }

    static method Split(line: Bytes) returns (args: Command)
      ensures AreWords(line, args)
    {
      hide WordAt, WordsUpTo;
      args := [];
      var i: nat := 0;
      NoWordYet(line);
      ghost var spans: seq<(nat, nat)> := [];
      while i < |line|
        invariant i <= |line| && (i > 0 && i < |line| ==> IsSpace(line[i]))
        invariant WordsUpTo(line, i, spans) && forall j :: 0 <= j < |spans| ==> spans[j].0 <= spans[j].1 <= i
        invariant |args| == |spans| && forall j :: 0 <= j < |spans| ==> args[j] == line[spans[j].0..spans[j].1]
      {
        ghost var from := i;
        while i < |line| && (line[i] == SPACE || line[i] == TAB)
          invariant from <= i <= |line| && forall x :: from <= x < i ==> IsSpace(line[x])
        {
          i := i + 1;
        }
        var start := i;
        while i < |line| && line[i] != SPACE && line[i] != TAB
          invariant start <= i <= |line| && forall x :: start <= x < i ==> !IsSpace(line[x])
        {
          i := i + 1;
        }
        NextWord(line, from, start, i, spans);
        if i > start {
          args := args + [line[start..i]];
          spans := spans + [(start, i)];
        }
      }
    }

    /**
     * The next complete command, if the buffer holds one. Between commands, line ends and empty
     * arrays are passed over first; then comes a line of words or an array of bulk strings.
     */
    method Next(ghost cs: seq<Command>) returns (st: Status, args: Command)
      requires Steady()
      modifies this
      ensures Steady() && input == old(input) && st != Again && (st == Request ==> |buf| < |old(buf)|)
      ensures if old(multibulk) > 0 then GoesOn(old(buf), old(pos), old(multibulk), old(spans), st, args)
              else Starts(old(buf), st, args)
      ensures forall m: nat :: old(multibulk) < 0 && LeadingBlanks(old(buf), m) && IsInline(old(buf), m) ==>
                InlineGives(old(buf)[m..], st, args, buf)
      ensures st == NeedMore ==> Waiting() || (old(multibulk) < 0 && SpacesFirst(old(buf)))
      ensures old(Tracks(cs)) ==> Gives(old(buf), old(erased), cs, st, args)
    {
      hide OnTrack, GoesOn, Starts, InlineGives, Stream, EncodeCommand, Waiting, SpacesFirst;
      st, args := Parse();
      if st == NeedMore { NeedMoreWaits(old(buf), old(pos), old(multibulk), old(spans), args); }
      forall m: nat | old(multibulk) < 0 && LeadingBlanks(old(buf), m) && IsInline(old(buf), m)
        ensures m <= |old(buf)| && InlineGives(old(buf)[m..], st, args, buf)
      {
        InlineAfterBlanks(old(buf), st, args, m);
      }
      if old(Tracks(cs)) { TrackedGives(old(buf), old(pos), old(multibulk), old(spans), cs, st, args); }
    }

    /** The buffer holds a proper prefix of a request, or nothing. */
    ghost predicate Waiting()
      reads this
    {
      if multibulk > 0 then ArgumentStuck(buf, pos, NeedMore)
      else buf == [] || HeaderStuck(buf, NeedMore) || (buf[0] != STAR && !IsBlank(buf[0]) && LF !in buf)
    }

    lemma {:induction false} NeedMoreWaits(b: Bytes, from: nat, need: int, before: seq<(nat, nat)>, args: Command)
      requires if need > 0 then GoesOn(b, from, need, before, NeedMore, args) else Starts(b, NeedMore, args)
      ensures Waiting() || (need <= 0 && SpacesFirst(b))
    {
      hide Skipped, InlineGives, HeaderLine, HeaderStuck, Arguments, Slices, ArgumentStuck, SpacesLine;
      if need > 0 {
        var more :| Arguments(b, from, more) && ReadsThrough(b, from, need, before, more, NeedMore, args);
      } else {
        var n: nat :| n <= |b| && Skipped(b, n) && StartsAt(b[n..], NeedMore, args);
        var x := b[n..];
        if x != [] && x[0] != STAR {
          NoWordsRead(x, args, buf);
        }
      }
    }

    lemma {:induction false} InlineAfterBlanks(b: Bytes, st: Status, args: Command, m: nat)
      requires Starts(b, st, args) && LeadingBlanks(b, m) && IsInline(b, m)
      ensures m <= |b| && InlineGives(b[m..], st, args, buf)
    {
      hide Skipped, InlineGives, HeaderLine, HeaderStuck, GoesOn;
      var n: nat :| n <= |b| && Skipped(b, n) && StartsAt(b[n..], st, args);
      if n < |b| { assert b[n] == b[n..][0]; }
      OnlyBlanksSkipped(b, n, m);
    }

    /** The loop over the parts of a command. */
    method Parse() returns (st: Status, args: Command)
      requires Steady()
      modifies this`buf, this`multibulk, this`pos, this`spans, this`erased
      ensures Steady() && st != Again && (st == Request ==> |buf| < |old(buf)|)
      ensures if old(multibulk) > 0 then GoesOn(old(buf), old(pos), old(multibulk), old(spans), st, args)
              else Starts(old(buf), st, args)
    {
      hide Skipped, HeaderLine, HeaderStuck, InlineGives, GoesOn, Inside, Starts, StartsAt;
      ghost var n: nat, from: nat, need: nat, before, more := 0, pos, 1, spans, [];
      assert buf[0..] == buf;
      NothingSkipped(buf);
      if multibulk > 0 {
        need := multibulk;
        NoArgumentYet();
      }
      args := [];
      while true
        invariant Steady() && n <= |old(buf)| && buf == old(buf)[n..]
        invariant if old(multibulk) > 0
                  then n == 0 && multibulk > 0 && from == old(pos) && need == old(multibulk) && before == old(spans)
                  else
                    && Skipped(old(buf), n)
                    && (multibulk > 0 ==> HeaderLine(buf, need, from) && need > 0 && before == [])
        invariant multibulk > 0 ==> Inside(from, need, before, more)
        decreases |buf|, multibulk < 0, |buf| - pos
      {
        if multibulk < 0 {
          st, args, n, need, from := Begin(old(buf), n);
          if st != Again { return; }
          before, more := [], [];
        } else {
          st, args, more := TakeArgument(from, need, before, more);
          if st != Again {
            if old(multibulk) < 0 { ArrayStartsThere(old(buf), n, need, from, st, args); }
            return;
          }
        }
      }
    }

    /** Between commands: a line of words, or the header of an array. */
    method Begin(ghost b: Bytes, ghost n: nat)
      returns (st: Status, args: Command, ghost n': nat, ghost need: nat, ghost from: nat)
      requires Steady() && multibulk < 0 && n <= |b| && Skipped(b, n) && buf == b[n..]
      modifies this`buf, this`multibulk, this`pos, this`spans, this`erased
      ensures Steady() && (st == Request ==> |buf| < |b|)
      ensures st != Again ==> Starts(b, st, args)
      ensures st == Again ==> n <= n' <= |b| && Skipped(b, n') && buf == b[n'..]
      ensures st == Again ==>
                if multibulk > 0 then need > 0 && HeaderLine(buf, need, from) && Inside(from, need, [], []) else n' > n
    {
      hide Skipped, HeaderLine, HeaderStuck, InlineGives, GoesOn, Inside, Starts, StartsAt;
      args, need, from := [], 0, 0;
      ghost var m := SkipBlankLines();
      BlanksGo(b, n, m);
      n' := n + m;
      if buf == [] {
        StartsThere(b, n', NeedMore, []);
        return NeedMore, [], n', need, from;
      }
      if buf[0] != STAR {
        st, args := NextInline();
        StartsThere(b, n', st, args);
        return;
      }
      st, need, from := Header();
      if st != Again {
        StartsThere(b, n', st, args);
      } else if multibulk < 0 {
        EmptyArrayGoes(b, n', from);
        n' := n' + from;
      } else {
        NoArgumentYet();
      }
    }

    method TakeArgument(ghost from: nat, ghost need: nat, ghost before: seq<(nat, nat)>, ghost more: seq<(nat, nat)>)
      returns (st: Status, args: Command, ghost more': seq<(nat, nat)>)
      requires Steady() && multibulk > 0 && Inside(from, need, before, more)
      modifies this`buf, this`multibulk, this`pos, this`spans, this`erased
      ensures Steady()
      ensures st == Again ==> buf == old(buf) && pos > old(pos) && multibulk > 0 && Inside(from, need, before, more')
      ensures st != Again ==> GoesOn(old(buf), from, need, before, st, args)
      ensures st == Request ==> |buf| < |old(buf)|
    {
      hide ArgumentAt, ArgumentStuck, Slices;
      more' := more;
      ghost var data, len;
      st, args, data, len := Argument();
      if st == Again || st == Request {
        OneMoreArgument(old(buf), from, more, data, len);
        assert before + more + [(data, len)] == before + (more + [(data, len)]);
        more' := more + [(data, len)];
      }
      if st != Again { assert ReadsThrough(old(buf), from, need, before, more', st, args); }
    }

    lemma {:induction false} StartsThere(b: Bytes, n: nat, st: Status, args: Command)
      requires n <= |b| && Skipped(b, n) && multibulk == -1
      requires if n == |b| then buf == [] && st == NeedMore
               else if b[n] == STAR then HeaderStuck(b[n..], st) && buf == b[n..]
               else !IsBlank(b[n]) && InlineGives(b[n..], st, args, buf)
      ensures Starts(b, st, args)
    {
      hide Skipped, HeaderLine, HeaderStuck, InlineGives, GoesOn;
      assert StartsAt(b[n..], st, args);
    }

    lemma {:induction false} ArrayStartsThere(b: Bytes, n: nat, size: nat, end: nat, st: Status, args: Command)
      requires n <= |b| && Skipped(b, n) && size > 0 && HeaderLine(b[n..], size, end)
      requires GoesOn(b[n..], end, size, [], st, args)
      ensures Starts(b, st, args)
    {
      hide Skipped, HeaderLine, HeaderStuck, InlineGives, GoesOn;
      HeaderIsLong(b[n..], size, end);
      assert StartsAt(b[n..], st, args);
    }

    /** Of `need` arguments due from `from` on, those in `more` have been read. */
    ghost predicate Inside(from: nat, need: nat, before: seq<(nat, nat)>, more: seq<(nat, nat)>)
      reads this
    {
      && Arguments(buf, from, more) && pos == Stop(from, more, |more|)
      && spans == before + more && multibulk == need - |more|
    }

    lemma {:induction false} NoArgumentYet()
      ensures multibulk >= 0 ==> Inside(pos, multibulk, spans, [])
    {
      assert spans + [] == spans;
    }

    /** What becomes of `b` when `need` more arguments are due from `from` on, after those in `before`. */
    ghost predicate GoesOn(b: Bytes, from: nat, need: nat, before: seq<(nat, nat)>, st: Status, args: Command)
      reads this
    {
      exists more :: Arguments(b, from, more) && ReadsThrough(b, from, need, before, more, st, args)
    }

    ghost predicate ReadsThrough(
      b: Bytes, from: nat, need: nat, before: seq<(nat, nat)>, more: seq<(nat, nat)>, st: Status, args: Command)
      reads this
    {
      var stop := Stop(from, more, |more|);
      if |more| == need then
        st == Request && Slices(b, before + more, args) && stop <= |b| && buf == b[stop..] && multibulk == -1
      else
        && |more| < need && ArgumentStuck(b, stop, st)
        && buf == b && pos == stop && spans == before + more && multibulk == need - |more|
    }

    /** What becomes of `b` between commands. */
    ghost predicate Starts(b: Bytes, st: Status, args: Command)
      reads this
    {
      exists n: nat :: n <= |b| && Skipped(b, n) && StartsAt(b[n..], st, args)
    }

    ghost predicate StartsAt(b: Bytes, st: Status, args: Command)
      reads this
    {
      if b == [] then st == NeedMore && buf == b && multibulk == -1
      else if b[0] != STAR then !IsBlank(b[0]) && InlineGives(b, st, args, buf) && multibulk == -1
      else
        || (HeaderStuck(b, st) && buf == b && multibulk == -1)
        || exists n: nat, end: nat :: n > 0 && HeaderLine(b, n, end) && GoesOn(b, end, n, [], st, args)
    }

    /** A complete command comes out whole; a partial one stays in the buffer. */
    ghost predicate Gives(buf0: Bytes, erased0: nat, cs: seq<Command>, st: Status, args: Command)
      reads this
    {
      if cs != [] && |buf0| >= |EncodeCommand(cs[0])| then
        && st == Request && args == cs[0] && buf == buf0[|EncodeCommand(cs[0])|..]
        && erased == erased0 + |EncodeCommand(cs[0])| && Tracks(cs[1..])
      else st == NeedMore && buf == buf0 && erased == erased0 && Tracks(cs)
    }

    /** On the stream of some commands, all this comes to the first command. */
    lemma {:induction false} TrackedGives(
      b: Bytes, from: nat, need: int, before: seq<(nat, nat)>, cs: seq<Command>, st: Status, args: Command)
      requires OnTrack(b, from, need, before, cs) && |b| <= |input| && b == input[|input| - |b|..] && Steady()
      requires if need > 0 then GoesOn(b, from, need, before, st, args) else Starts(b, st, args)
      ensures Gives(b, |input| - |b|, cs, st, args)
    {
      hide GoesOn, Stream, EncodeCommand, Off;
      if need > 0 {
        TrackedGoesOn(b, from, need, before, cs, st, args);
      } else {
        TrackedStarts(b, cs, st, args);
      }
    }

    lemma {:induction false} TrackedStarts(b: Bytes, cs: seq<Command>, st: Status, args: Command)
      requires OnTrack(b, 0, -1, [], cs) && |b| <= |input| && b == input[|input| - |b|..] && Steady()
      requires Starts(b, st, args)
      ensures Gives(b, |input| - |b|, cs, st, args)
    {
      hide OnTrack, GoesOn, Stream, EncodeCommand, Off, Skipped, HeaderLine, HeaderStuck, InlineGives;
      AtStart(b, cs);
      var n: nat :| n <= |b| && Skipped(b, n) && StartsAt(b[n..], st, args);
      if b == [] {
        StaysTracked(b, cs);
      } else {
        MeetHeader(b, cs);
        NothingToSkip(b, n, |cs[0]|);
        assert b[0..] == b;
        StuckHeader(b);
        if |b| >= Off(cs[0], 0) {
          var size: nat, end: nat :| size > 0 && HeaderLine(b, size, end) && GoesOn(b, end, size, [], st, args);
          OneHeaderLine(b, size, end, |cs[0]|, Off(cs[0], 0));
          EntersCommand(b, cs);
          TrackedGoesOn(b, end, size, [], cs, st, args);
        } else {
          StaysTracked(b, cs);
        }
      }
    }

    lemma {:induction false} TrackedGoesOn(
      b: Bytes, from: nat, need: nat, before: seq<(nat, nat)>, cs: seq<Command>, st: Status, args: Command)
      requires OnTrack(b, from, need, before, cs) && |b| <= |input| && b == input[|input| - |b|..] && Steady()
      requires need > 0 && GoesOn(b, from, need, before, st, args)
      ensures Gives(b, |input| - |b|, cs, st, args)
    {
      hide OnTrack, Stream, EncodeCommand, Off, Spans, Arguments, Slices, Stop, ArgumentStuck;
      var more :| Arguments(b, from, more) && ReadsThrough(b, from, need, before, more, st, args);
      TrackedArguments(b, from, need, before, cs, more);
      if |more| == need {
        Collected(b, cs, args);
      } else {
        MeetArgument(b, pos, multibulk, spans, cs);
        StuckOnce(b, pos, st, NeedMore);
      }
    }
  }

  lemma {:induction false} AtStart(b: Bytes, cs: seq<Command>)
    requires OnTrack(b, 0, -1, [], cs)
    ensures cs == [] ==> b == []
    ensures cs != [] ==> Off(cs[0], 0) <= |EncodeCommand(cs[0])| && |EncodeCommand(cs[0])| > 0
    ensures cs != [] ==> CommandsOk(cs) && b <= Stream(cs)
  {
    hide Decimal;
    if cs != [] {
      HeaderParts(cs);
      OffsetsGrow(cs[0], 0);
    }
  }

  lemma {:induction false} StaysTracked(b: Bytes, cs: seq<Command>)
    requires OnTrack(b, 0, -1, [], cs)
    ensures forall e :: e == [] ==> OnTrack(b, 0, -1, e, cs)
  {
  }

  /** Past its header, a tracked command has all its arguments to come. */
  lemma {:induction false} EntersCommand(b: Bytes, cs: seq<Command>)
    requires OnTrack(b, 0, -1, [], cs) && cs != [] && |b| >= Off(cs[0], 0)
    ensures OnTrack(b, Off(cs[0], 0), |cs[0]|, [], cs)
  {
    hide Off, Stream;
    assert CommandOk(cs[0]);
  }

  /** Either the next argument of a tracked command is all there, or more bytes are needed. */
  lemma {:induction false} MeetArgument(b: Bytes, pos: nat, need: int, spans: seq<(nat, nat)>, cs: seq<Command>)
    requires OnTrack(b, pos, need, spans, cs) && need > 0
    ensures cs != [] && |spans| < |cs[0]| && CommandsOk(cs) && Off(cs[0], |spans| + 1) <= |EncodeCommand(cs[0])|
    ensures if |b| >= Off(cs[0], |spans| + 1)
            then ArgumentAt(b, pos, Span(cs[0], |spans|).0, |cs[0][|spans|]|)
            else ArgumentStuck(b, pos, NeedMore)
  {
    hide Decimal, FindCrlf, Stream, ParseDigits, Args, ArgumentAt, ArgumentStuck, LengthLine, EncodeCommand;
    var c, i, s := cs[0], |spans|, Stream(cs);
    assert CommandOk(c);
    ArgAt(cs, i);
    OffsetsGrow(c, i + 1);
    BulkParts(s, pos, c[i]);
    CannotRead(b, pos);
    DecimalRoundTrip(|c[i]|);
    if pos < |b| {
      LineAt(b, s, pos, |c[i]|);
      var end := pos + 1 + |Decimal(|c[i]|)|;
      if |b| >= end + 2 {
        LengthIsRead(b, pos, end, |c[i]|);
        var at := end + 2 + |c[i]|;
        assert s[at..at + 2][0] == s[at] && s[at..at + 2][1] == s[at + 1];
      }
    }
  }

  /** Reading on along a tracked command keeps to its arguments. */
  lemma {:induction false} TrackedArguments(
    b: Bytes, from: nat, need: nat, before: seq<(nat, nat)>, cs: seq<Command>, more: seq<(nat, nat)>)
    requires OnTrack(b, from, need, before, cs) && need > 0 && Arguments(b, from, more) && |more| <= need
    ensures cs != [] && CommandsOk(cs) && b <= Stream(cs) && need + |before| == |cs[0]|
    ensures Stop(from, more, |more|) == Off(cs[0], |before| + |more|) <= |b|
    ensures before + more == Spans(cs[0], |before| + |more|)
    ensures |more| < need ==> OnTrack(b, Stop(from, more, |more|), need - |more|, before + more, cs)
  {
    hide Off, Stream, Args, Spans, ArgumentAt;
    if more == [] {
      assert before + more == before;
    } else {
      var init, last := more[..|more| - 1], more[|more| - 1];
      assert forall i :: 0 <= i <= |init| ==> Stop(from, init, i) == Stop(from, more, i);
      hide OnTrack;
      TrackedArguments(b, from, need, before, cs, init);
      assert ArgumentAt(b, Stop(from, more, |init|), last.0, last.1);
      assert before + more == (before + init) + [last];
      NextTracked(b, Off(cs[0], |before| + |init|), need - |init|, before + init, cs, last);
    }
  }

  lemma {:induction false} NextTracked(
    b: Bytes, at: nat, need: int, spans: seq<(nat, nat)>, cs: seq<Command>, last: (nat, nat))
    requires OnTrack(b, at, need, spans, cs) && need > 0 && ArgumentAt(b, at, last.0, last.1)
    ensures cs != [] && |spans| < |cs[0]| && spans + [last] == Spans(cs[0], |spans| + 1)
    ensures last.0 + last.1 + 2 == Off(cs[0], |spans| + 1) <= |b|
    ensures need > 1 ==> OnTrack(b, last.0 + last.1 + 2, need - 1, spans + [last], cs)
  {
    hide Off, Stream, Args, Spans, ArgumentAt, ArgumentStuck;
    MeetArgument(b, at, need, spans, cs);
    OneArgument(b, at, cs, |spans|, last);
    SpansGrow(cs[0], |spans|);
  }

  lemma {:induction false} OneArgument(b: Bytes, at: nat, cs: seq<Command>, i: nat, last: (nat, nat))
    requires cs != [] && i < |cs[0]| && ArgumentAt(b, at, last.0, last.1)
    requires if |b| >= Off(cs[0], i + 1) then ArgumentAt(b, at, Span(cs[0], i).0, |cs[0][i]|)
             else ArgumentStuck(b, at, NeedMore)
    ensures last == Span(cs[0], i) && |b| >= Off(cs[0], i + 1) == last.0 + last.1 + 2
  {
    hide Decimal, Args, LengthLine, Stream;
    OneLengthLine(b, at, last.0, last.1, Span(cs[0], i).0, |cs[0][i]|);
    ArgAt(cs, i);
  }

  lemma {:induction false} SpansGrow(c: Command, i: nat)
    requires i < |c|
    ensures Spans(c, i + 1) == Spans(c, i) + [Span(c, i)]
  {
  }

  /** With all arguments read the spans select them, and the rest of the buffer starts the next command. */
  lemma {:induction false} Collected(b: Bytes, cs: seq<Command>, args: Command)
    requires cs != [] && CommandsOk(cs) && b <= Stream(cs) && |b| >= Off(cs[0], |cs[0]|)
    requires Slices(b, Spans(cs[0], |cs[0]|), args)
    ensures args == cs[0] && Off(cs[0], |cs[0]|) == |EncodeCommand(cs[0])| <= |b|
    ensures forall e :: e == [] ==> OnTrack(b[|EncodeCommand(cs[0])|..], 0, -1, e, cs[1..])
  {
    hide Decimal, Args, BulkString;
    var c, s := cs[0], Stream(cs);
    assert CommandOk(c);
    forall j: nat | j < |c| ensures args[j] == c[j] {
      ArgAt(cs, j);
      BulkParts(s, Off(c, j), c[j]);
      var sp := Span(c, j);
      assert b[sp.0..sp.0 + sp.1] == s[sp.0..sp.0 + sp.1];
    }
    ArgAt(cs, |c| - 1);
    var n := |EncodeCommand(c)|;
    assert s[n..] == Stream(cs[1..]);
    assert b[n..] == s[n..][..|b| - n];
  }

  /** Either the header line of a tracked command is all there, or more bytes are needed. */
  lemma {:induction false} MeetHeader(b: Bytes, cs: seq<Command>)
    requires cs != [] && CommandsOk(cs) && b <= Stream(cs) && b != []
    ensures |cs[0]| > 0 && b[0] == STAR
    ensures if |b| >= Off(cs[0], 0) then HeaderLine(b, |cs[0]|, Off(cs[0], 0)) else HeaderStuck(b, NeedMore)
  {
    hide Decimal, FindCrlf, Stream, ParseDigits;
    HeaderParts(cs);
    assert CommandOk(cs[0]);
    LineAt(b, Stream(cs), 0, |cs[0]|);
    DecimalRoundTrip(|cs[0]|);
  }

  /**
   * A line of spaces is answered as if nothing more were there, although a whole command may follow
   * it in the buffer.
   */
  method SpacesHoldBack(c: Command) returns (st: Status, left: Bytes)
    requires CommandOk(c)
    ensures st == NeedMore && left == EncodeCommand(c)
  {
    hide *;
    var p := new Parser();
    NothingFed(p);
    p.Feed([SPACE, LF] + EncodeCommand(c));
    ghost var b := p.buf;
    BlankLineFirst(b, EncodeCommand(c));
    var args;
    st, args := p.Next([]);
    assert b[0..] == b;
    SpacesRead(EncodeCommand(c), st, args, p.buf);
    left := p.buf;
  }

  lemma {:induction false} NothingFed(p: Parser)
    requires p.Steady() && p.input == []
    ensures p.buf == [] && p.Valid()
  {
  }

  lemma {:induction false} BlankLineFirst(b: Bytes, x: Bytes)
    requires b == [] + ([SPACE, LF] + x)
    ensures b == [SPACE, LF] + x && LeadingBlanks(b, 0) && IsInline(b, 0)
  {
  }

  // ---- chunks -------------------------------------------------------------------------------------------

  /** Less than the first remaining command is left. */
  ghost predicate Drained(p: Parser, cs: seq<Command>)
    reads p
  {
    p.Steady() && p.Tracks(cs) && (cs == [] || |p.buf| < |EncodeCommand(cs[0])|)
  }

  /** What the server does with received bytes: feed them, then take commands until none is complete. */
  method FeedAndDrain(p: Parser, chunk: Bytes, ghost cs: seq<Command>, ghost stream: Bytes)
    returns (out: seq<Command>, failed: bool, ghost n: nat)
    requires p.Steady()
    modifies p
    ensures p.Valid() && p.input == old(p.input) + chunk
    ensures old(p.Tracks(cs)) && Rest(p.input, old(p.erased), stream, cs) ==>
              && !failed && n <= |cs| && out == cs[..n] && Drained(p, cs[n..])
                   && Rest(p.input, p.erased, stream, cs[n..])
  {
    hide OnTrack, EncodeCommand, Stream, p.Starts, p.GoesOn, InlineGives, LeadingBlanks, IsInline;
    out, failed, n := [], false, 0;
    ghost var good := p.Tracks(cs) && Rest(p.input + chunk, p.erased, stream, cs);
    if good { FeedKeepsTrack(p.buf, p.pos, p.multibulk, p.spans, cs, chunk, p.input, p.erased, stream); }
    p.Feed(chunk);
    assert cs[0..] == cs;
    while true
      invariant p.Steady() && p.input == old(p.input) + chunk
      invariant good ==> n <= |cs| && out == cs[..n] && p.Tracks(cs[n..]) && Rest(p.input, p.erased, stream, cs[n..])
      decreases |p.buf|
    {
      var st, args := p.Next(if good then cs[n..] else []);
      if st != Request {
        failed := st == Error;
        return;
      }
      out := out + [args];
      if good {
        RestMoves(p.input, p.erased - |EncodeCommand(cs[n])|, stream, cs[n..]);
        assert cs[n..][1..] == cs[n + 1..];
        n := n + 1;
      }
    }
  }

  /** Past the erased bytes, the stream is that of the remaining commands; what has been fed is a prefix of it. */
  ghost predicate Rest(input: Bytes, erased: nat, stream: Bytes, cs: seq<Command>) {
    input <= stream && erased <= |stream| && stream[erased..] == Stream(cs)
  }

  lemma {:induction false} RestMoves(input: Bytes, erased: nat, stream: Bytes, cs: seq<Command>)
    requires cs != [] && Rest(input, erased, stream, cs)
    ensures Rest(input, erased + |EncodeCommand(cs[0])|, stream, cs[1..])
  {
    hide EncodeCommand;
    var n := |EncodeCommand(cs[0])|;
    assert stream[erased + n..] == stream[erased..][n..];
    assert (EncodeCommand(cs[0]) + Stream(cs[1..]))[n..] == Stream(cs[1..]);
  }

  lemma {:induction false} FeedKeepsTrack(
    buf: Bytes, pos: nat, multibulk: int, spans: seq<(nat, nat)>, cs: seq<Command>, chunk: Bytes,
    input: Bytes, erased: nat, stream: Bytes)
    requires OnTrack(buf, pos, multibulk, spans, cs) && erased <= |input| && buf == input[erased..]
    requires Rest(input + chunk, erased, stream, cs)
    ensures OnTrack(buf + chunk, pos, multibulk, spans, cs)
  {
    hide Off, Spans, Stream;
    assert buf + chunk == (input + chunk)[erased..];
    assert (input + chunk)[erased..] == stream[erased..][..|buf + chunk|];
  }

  /**
   * Chunking does not matter: however the stream of some commands is cut into chunks, draining after
   * each chunk yields exactly those commands in order, no error, and an empty buffer at the end.
   */
  method ReadAll(chunks: seq<Bytes>, ghost cs: seq<Command>) returns (out: seq<Command>, failed: bool, left: nat)
    requires CommandsOk(cs) && Concat(chunks) == Stream(cs)
    ensures !failed && out == cs && left == 0
  {
    hide OnTrack, EncodeCommand, Stream;
    var p := new Parser();
    out, failed := [], false;
    ghost var n: nat, stream := 0, Stream(cs);
    assert cs[0..] == cs && Drained(p, cs) by { AtBegin(cs); }
    for i := 0 to |chunks|
      invariant fresh(p) && !failed && n <= |cs| && out == cs[..n]
      invariant p.input == Concat(chunks[..i]) && p.erased <= |stream| && stream[p.erased..] == Stream(cs[n..])
      invariant Drained(p, cs[n..])
    {
      PrefixOfConcat(chunks, i + 1);
      assert chunks[..i + 1][..i] == chunks[..i];
      var more;
      ghost var k;
      more, failed, k := FeedAndDrain(p, chunks[i], cs[n..], stream);
      assert cs[n..][..k] == cs[n..n + k] && cs[n..][k..] == cs[n + k..];
      out := out + more;
      n := n + k;
    }
    assert chunks[..|chunks|] == chunks;
    NothingLeft(p, cs[n..], stream);
    left := |p.buf|;
  }

  lemma {:induction false} AtBegin(cs: seq<Command>)
    requires CommandsOk(cs)
    ensures cs != [] ==> |EncodeCommand(cs[0])| > 0
  {
  }

  lemma {:induction false} PrefixOfConcat(chunks: seq<Bytes>, i: nat)
    requires i <= |chunks|
    ensures Concat(chunks[..i]) <= Concat(chunks)
    decreases |chunks| - i
  {
    if i < |chunks| {
      PrefixOfConcat(chunks, i + 1);
      assert chunks[..i + 1][..i] == chunks[..i];
    } else {
      assert chunks[..i] == chunks;
    }
  }

  lemma {:induction false} NothingLeft(p: Parser, cs: seq<Command>, stream: Bytes)
    requires Drained(p, cs) && p.input == stream && p.erased <= |stream| && stream[p.erased..] == Stream(cs)
    ensures cs == [] && p.buf == []
  {
    hide OnTrack, EncodeCommand;
  }
}
