/** `log::Writer` and `log::Reader`, proved against the format. */
module WalIo {
  import opened Bytes
  import opened Crc
  import opened Wal

  /** The type byte of a fragment. */
  method RecordType(begin: bool, whole: bool) returns (t: byte)
    ensures t == Tag(begin, whole)
  {
    if begin && whole {
      t := FULL;
    } else if begin {
      t := FIRST;
    } else if whole {
      t := LAST;
    } else {
      t := MIDDLE;
    }
  }

  /** Header plus fragment, with the checksum streamed over type and fragment. */
  method EmitPhysical(t: byte, fragment: Bytes) returns (s: Bytes)
    ensures s == Physical(t, fragment)
  {
    var crc := Crc32From([t], WordOf(0));
    crc := Crc32From(fragment, crc);
    Streaming([t], fragment, WordOf(0));
    s := Fixed32(|fragment|) + Fixed32(ValueOf(crc)) + [t] + fragment;
  }

  /** What is left to write at offset `q` once `p` bytes of the payload are out. */
  ghost function Rest(payload: Bytes, p: nat, q: nat, begin: bool): Bytes
    requires p <= |payload|
  {
    Encode(payload[p..], q, begin)
  }

  /** What is written so far, followed by what is left, is the whole encoding. */
  ghost predicate Encoding(payload: Bytes, off: nat, out: Bytes, p: nat, begin: bool) {
    p <= |payload| && out + Rest(payload, p, off + |out|, begin) == Rest(payload, 0, off, true)
  }

  lemma {:induction false} RestSplits(payload: Bytes, p: nat, q: nat, begin: bool, room: nat)
    requires p <= |payload| && room == Room(Start(q)) < |payload| - p
    ensures Rest(payload, p, q, begin)
            == Zeros(Start(q) - q) + Physical(Tag(begin, false), payload[p..p + room])
               + Rest(payload, p + room, Start(q) + HEADER + room, false)
  {
    hide Physical, Start, Room, Zeros, Encode;
    var rest := payload[p..];
    EncodeSplits(rest, q, begin);
    assert rest[..room] == payload[p..p + room] by { SliceOfSlice(payload, p, |payload|, 0, room); }
    assert rest[room..] == payload[p + room..];
  }

  lemma {:induction false} EncodeLastFragment(payload: Bytes, off: nat, out: Bytes, p: nat, begin: bool)
    requires Encoding(payload, off, out, p, begin) && |payload| - p <= Room(Start(off + |out|))
    ensures var q := off + |out|;
            out + Zeros(Start(q) - q) + Physical(Tag(begin, true), payload[p..]) == Encode(payload, off, true)
  {
    hide Physical, Start, Room, Zeros;
    assert payload[0..] == payload;
  }

  lemma {:induction false} EncodeLeadingFragment(
    payload: Bytes, off: nat, out: Bytes, p: nat, begin: bool, q: nat, room: nat)
    requires Encoding(payload, off, out, p, begin) && q == off + |out| && room == Room(Start(q)) < |payload| - p
    ensures Encoding(
              payload, off, out + Zeros(Start(q) - q) + Physical(Tag(begin, false), payload[p..p + room]), p
                + room, false)
  {
    hide Physical, Start, Room, Zeros, Rest;
    RestSplits(payload, p, q, begin, room);
    var pad, ph := Zeros(Start(q) - q), Physical(Tag(begin, false), payload[p..p + room]);
    var tail := Rest(payload, p + room, Start(q) + HEADER + room, false);
    assert out + pad + ph + tail == out + (pad + ph + tail);
  }

  /** The in-block position tells whether and how much to pad. */
  lemma {:induction false} PaddingAt(q: nat, blockOff: nat)
    requires blockOff <= BLOCK && blockOff % BLOCK == q % BLOCK
    ensures BLOCK - blockOff < HEADER ==> Start(q) == q + BLOCK - blockOff && Start(q) % BLOCK == 0
    ensures BLOCK - blockOff >= HEADER ==> Start(q) == q && q % BLOCK == blockOff
  {
  }

  /**
   * `Writer::EncodeRecord`: fragments the payload at block boundaries, padding a tail too short for
   * a header.
   */
  method EncodeRecord(payload: Bytes, absoluteOffset: nat) returns (out: Bytes)
    ensures out == Encode(payload, absoluteOffset, true)
  {
    hide Physical, Rest, Crc32, Start;
    out := [];
    var blockOff: nat := absoluteOffset % BLOCK;
    var p: nat, begin := 0, true;
    while true
      invariant Encoding(payload, absoluteOffset, out, p, begin)
      invariant blockOff <= BLOCK && blockOff % BLOCK == (absoluteOffset + |out|) % BLOCK
      decreases |payload| - p + Misaligned(absoluteOffset + |out|)
    {
      ghost var q, before := absoluteOffset + |out|, out;
      PaddingAt(q, blockOff);
      NextFragment(q);
      var leftover := BLOCK - blockOff;
      if leftover < HEADER {
        if leftover > 0 {
          out := out + Zeros(leftover);
        }
        blockOff := 0;
      }
      assert out == before + Zeros(Start(q) - q);
      var avail := BLOCK - blockOff - HEADER;
      var left := |payload| - p;
      var frag := if left < avail then left else avail;
      var t := RecordType(begin, frag == left);
      var physical := EmitPhysical(t, payload[p..p + frag]);
      out := out + physical;
      blockOff := blockOff + HEADER + frag;
      if frag == left {
        EncodeLastFragment(payload, absoluteOffset, before, p, begin);
        assert payload[p..p + frag] == payload[p..];
        return;
      }
      EncodeLeadingFragment(payload, absoluteOffset, before, p, begin, q, frag);
      p, begin := p + frag, false;
    }
  }

  /** Appends records to a file; the offset decides where they fragment. */
  class Writer {
    var file: Bytes
    var fileOffset: nat

    constructor (file: Bytes, initialOffset: nat)
      ensures this.file == file && fileOffset == initialOffset
    {
      this.file, fileOffset := file, initialOffset;
    }

    method AddRecord(payload: Bytes)
      modifies this
      ensures file == old(file) + Encode(payload, old(fileOffset), true)
      ensures fileOffset == old(fileOffset) + |file| - |old(file)|
    {
      var buf := EncodeRecord(payload, fileOffset);
      file := file + buf;
      fileOffset := fileOffset + |buf|;
    }
  }

  datatype Result = Ok | AtEof | Damaged

  lemma {:induction false} SliceOfSlice(f: Bytes, lo: nat, hi: nat, i: nat, j: nat)
    requires lo <= hi <= |f| && i <= j <= hi - lo
    ensures f[lo..hi][i..j] == f[lo + i..lo + j]
  {
    var x, y := f[lo..hi][i..j], f[lo + i..lo + j];
    forall k | 0 <= k < |x| ensures x[k] == y[k] { assert x[k] == f[lo..hi][i + k]; }
  }

  /** The reader's decision at a position with room for a header. */
  lemma {:induction false} AtHeader(f: Bytes, p: nat, length: nat, crc: nat, t: byte)
    requires p < |f| && p + HEADER <= BlockEnd(f, p)
    requires length == GetFixed32(f, p) && crc == GetFixed32(f, p + 4) && t == f[p + 8]
    ensures ReadPhysical(f, p) ==
            if t == ZERO && length == 0 && crc == 0 then ReadPhysical(f, BlockEnd(f, p))
            else if length > BLOCK - HEADER || p + HEADER + length > BlockEnd(f, p) then Broken
            else if Crc32([t] + f[p + HEADER..p + HEADER + length]) != crc then Broken
            else Fragment(t, f[p + HEADER..p + HEADER + length], p + HEADER + length)
  {
    hide Crc32, GetFixed32, BlockEnd;
  }

  /** How the reader goes on after one physical record. */
  lemma {:induction false} RecordStep(f: Bytes, p: nat, scratch: Option<Bytes>)
    ensures ReadRecord(f, p, scratch) ==
            match ReadPhysical(f, p)
            case NoMore => if scratch.Some? then Corruption else Eof
            case Broken => Corruption
            case Fragment(t, bytes, end) =>
              if t == FULL && scratch.None? then Record(bytes, end)
              else if t == FIRST && scratch.None? then ReadRecord(f, end, Some(bytes))
              else if t == MIDDLE && scratch.Some? then ReadRecord(f, end, Some(scratch.value + bytes))
              else if t == LAST && scratch.Some? then Record(scratch.value + bytes, end)
              else Corruption
  {
  }

  lemma {:induction false} NothingAtEnd(f: Bytes)
    ensures ReadPhysical(f, |f|) == NoMore
  {
  }

  /** Reads records block by block. */
  class Reader {
    const file: Bytes
    var buffer: Bytes
    var pos: nat
    var eof: bool
    var bytesRead: nat
    var lastGoodEnd: nat
    var scratch: Bytes

    /** The buffer is one block of the file, or its short last block. */
    ghost predicate Valid()
      reads this
    {
      && |buffer| <= bytesRead <= |file| && pos <= |buffer| <= BLOCK
      && buffer == file[bytesRead - |buffer|..bytesRead]
      && (bytesRead - |buffer|) % BLOCK == 0
      && (bytesRead % BLOCK == 0 || bytesRead == |file|)
      && (eof ==> bytesRead == |file|)
      && lastGoodEnd <= |file|
    }

    /** Absolute parse position. */
    ghost function Position(): nat
      requires Valid()
      reads this
    {
      bytesRead - |buffer| + pos
    }

    constructor (file: Bytes)
      ensures this.file == file && Valid() && Position() == 0 && lastGoodEnd == 0
    {
      this.file := file;
      buffer, pos, eof, bytesRead, lastGoodEnd, scratch := [], 0, false, 0, 0, [];
    }

    lemma {:induction false} BufferEnd()
      requires Valid()
      ensures Position() < |file| && pos < |buffer| ==> BlockEnd(file, Position()) == bytesRead
      ensures pos == |buffer| ==> Position() == bytesRead
    {
    }

    lemma {:induction false} BufferSlice(i: nat, j: nat)
      requires Valid() && i <= j <= |buffer|
      ensures buffer[i..j] == file[bytesRead - |buffer| + i..bytesRead - |buffer| + j]
    {
      SliceOfSlice(file, bytesRead - |buffer|, bytesRead, i, j);
    }

    lemma {:induction false} ShortTail()
      requires Valid() && pos + HEADER > |buffer|
      ensures ReadPhysical(file, Position()) == ReadPhysical(file, bytesRead)
    {
      BufferEnd();
    }

    /** Drops what is left of the buffer and pulls in the next block, if there is one. */
    method NextBlock() returns (more: bool)
      requires Valid() && !eof
      modifies this`buffer, this`pos, this`eof, this`bytesRead
      ensures Valid()
      ensures if more then old(bytesRead) < bytesRead && Position() == old(bytesRead)
              else old(bytesRead) == |file| == Position()
      ensures eof <==> |file| - old(bytesRead) < BLOCK
    {
      pos := |buffer|;
      var n := if |file| - bytesRead < BLOCK then |file| - bytesRead else BLOCK;
      if n < BLOCK {
        eof := true;
      }
      more := n > 0;
      if more {
        buffer := file[bytesRead..bytesRead + n];
        bytesRead := bytesRead + n;
        pos := 0;
      }
    }

    /** The header at `pos` is the header in the file. */
    lemma {:induction false} HeaderInFile()
      requires Valid() && pos + HEADER <= |buffer|
      ensures Position() + HEADER <= bytesRead == BlockEnd(file, Position())
      ensures GetFixed32(buffer, pos) == GetFixed32(file, Position())
      ensures GetFixed32(buffer, pos + 4) == GetFixed32(file, Position() + 4)
      ensures buffer[pos + 8] == file[Position() + 8]
    {
      BufferEnd();
      BufferSlice(pos, pos + 4);
      BufferSlice(pos + 4, pos + 8);
    }

    /** Parses the physical record at `pos`; an all-zero header skips to the end of the block. */
    method ParseBuffered() returns (skipped: bool, r: Result, fragment: Bytes, t: byte, endOffset: nat)
      requires Valid() && pos + HEADER <= |buffer|
      modifies this`pos
      ensures Valid() && Position() > old(Position())
      ensures skipped ==> ReadPhysical(file, Position()) == ReadPhysical(file, old(Position()))
      ensures !skipped ==> match ReadPhysical(file, old(Position()))
                           case Fragment(t', bytes, end) =>
                             r == Ok && t == t' && fragment == bytes && endOffset == end == Position()
                           case NoMore => r == AtEof
                           case Broken => r == Damaged
    {
      hide Crc32, GetFixed32, ReadPhysical;
      HeaderInFile();
      skipped, r, fragment, t, endOffset := false, Damaged, [], ZERO, 0;
      var length := GetFixed32(buffer, pos);
      var storedCrc := GetFixed32(buffer, pos + 4);
      var kind := buffer[pos + 8];
      AtHeader(file, Position(), length, storedCrc, kind);
      pos := pos + HEADER;
      if kind == ZERO && length == 0 && storedCrc == 0 {
        pos, skipped := |buffer|, true;
      } else if !(length > BLOCK - HEADER || pos + length > |buffer|) {
        BufferSlice(pos, pos + length);
        fragment := buffer[pos..pos + length];
        pos := pos + length;
        endOffset := bytesRead - |buffer| + pos;
        t := kind;
        if Crc32([t] + fragment) == storedCrc {
          r := Ok;
        }
      }
    }

    method ReadPhysicalRecord() returns (r: Result, fragment: Bytes, t: byte, endOffset: nat)
      requires Valid()
      modifies this`buffer, this`pos, this`eof, this`bytesRead
      ensures Valid()
      ensures match ReadPhysical(file, old(Position()))
              case Fragment(t', bytes, end) => r == Ok && t == t' && fragment == bytes && endOffset == end == Position()
              case NoMore => r == AtEof
              case Broken => r == Damaged
    {
      hide ReadPhysical;
      NothingAtEnd(file);
      fragment, t, endOffset := [], ZERO, 0;
      while true
        invariant Valid() && ReadPhysical(file, Position()) == ReadPhysical(file, old(Position()))
        decreases |file| - bytesRead, |buffer| - pos
      {
        if pos + HEADER > |buffer| {
          ShortTail();
          if eof {
            return AtEof, fragment, t, endOffset;
          }
          var more := NextBlock();
          if !more {
            return AtEof, fragment, t, endOffset;
          }
          continue;
        }
        var skipped;
        skipped, r, fragment, t, endOffset := ParseBuffered();
        if !skipped {
          return;
        }
      }
    }

    /** The next logical record, or why there is none; then `corruptionOffset` is the safe cut. */
    method ReadNext() returns (r: Result, payload: Bytes, corruptionOffset: nat)
      requires Valid()
      modifies this
      ensures Valid()
      ensures match ReadRecord(file, old(Position()), None)
              case Record(bytes, end) => r == Ok && payload == bytes && lastGoodEnd == end == Position()
              case Eof => r == AtEof && lastGoodEnd == old(lastGoodEnd)
              case Corruption => r == Damaged && corruptionOffset == lastGoodEnd == old(lastGoodEnd)
    {
      hide ReadPhysical, ReadRecord;
      scratch, payload, corruptionOffset := [], [], lastGoodEnd;
      var inFragmented := false;
      while true
        invariant Valid() && lastGoodEnd == corruptionOffset == old(lastGoodEnd)
        invariant ReadRecord(file, Position(), if inFragmented then Some(scratch) else None)
               == ReadRecord(file, old(Position()), None)
        decreases |file| - Position()
      {
        RecordStep(file, Position(), if inFragmented then Some(scratch) else None);
        var res, fragment, t, endOffset := ReadPhysicalRecord();
        if res == AtEof {
          return if inFragmented then Damaged else AtEof, payload, corruptionOffset;
        }
        if res == Damaged {
          return Damaged, payload, corruptionOffset;
        }
        if t == FULL && !inFragmented {
          lastGoodEnd, payload := endOffset, fragment;
          return Ok, payload, corruptionOffset;
        } else if t == FIRST && !inFragmented {
          scratch, inFragmented := fragment, true;
        } else if t == MIDDLE && inFragmented {
          scratch := scratch + fragment;
        } else if t == LAST && inFragmented {
          scratch := scratch + fragment;
          lastGoodEnd, payload := endOffset, scratch;
          return Ok, payload, corruptionOffset;
        } else {
          return Damaged, payload, corruptionOffset;
        }
      }
    }
  }

  /** The loop of `DB::Open` over one log: every record up to the first non-ok result, and the cut. */
  method ReplayFile(file: Bytes) returns (records: seq<Bytes>, end: nat, clean: bool)
    ensures Replayed(records, end, clean) == ReadAll(file, 0)
  {
    hide ReadRecord;
    var reader := new Reader(file);
    records, end := [], 0;
    while true
      invariant fresh(reader) && reader.file == file && reader.Valid()
      invariant end == reader.lastGoodEnd == reader.Position() <= |file|
      invariant var rest := ReadAll(file, end);
                ReadAll(file, 0) == Replayed(records + rest.records, rest.end, rest.clean)
      decreases |file| - end
    {
      var r, payload, cut := reader.ReadNext();
      if r == Ok {
        records, end := records + [payload], reader.lastGoodEnd;
      } else {
        return records, end, r == AtEof;
      }
    }
  }
}
