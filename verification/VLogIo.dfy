/** A value-log file and the loops that write and scan it. */
module VLogIo {
  import opened Bytes
  import opened Keys
  import opened Crc
  import opened VLog

  class VLogFile {
    var file: Bytes
    var end: nat
    const crcTable: array<Word>

    ghost predicate Valid()
      reads this, crcTable
    {
      end == |file| && IsCrcTable(crcTable)
    }

    /** Opening an existing file appends behind whatever it holds. */
    constructor (file: Bytes)
      ensures Valid() && this.file == file && fresh(crcTable)
    {
      var t := BuildTable();
      this.file, end, crcTable := file, |file|, t;
    }

    method Checksum(data: Bytes) returns (v: nat)
      requires Valid()
      ensures v == Crc32(data)
    {
      var w := ComputeCrc32(data, WordOf(0), crcTable);
      v := ValueOf(w);
    }

    /** The checksum of a header and a payload read separately. */
    method ChecksumOf(header: Bytes, payload: Bytes) returns (v: nat)
      requires Valid()
      ensures v == Crc32(header + payload)
    {
      var w := ComputeCrc32(header, WordOf(0), crcTable);
      w := ComputeCrc32(payload, w, crcTable);
      Streaming(header, payload, WordOf(0));
      v := ValueOf(w);
    }

    /** Writes one entry; each write call may take only part of the buffer. */
    method Append(key: Key, value: Bytes) returns (offset: nat)
      requires Valid()
      modifies this`file, this`end
      ensures Valid() && offset == |old(file)|
      ensures file == old(file) + EncodeEntry(Record(key, value))
    {
      hide Crc32, IsCrcTable;
      offset := end;
      var buf := Fixed32(|key|) + Fixed32(|value|);
      buf := buf + key;
      buf := buf + value;
      assert buf == Body(Record(key, value));
      var crc := Checksum(buf);
      buf := Fixed32(crc) + buf;
      var written: nat := 0;
      while written < |buf|
        invariant written <= |buf| && buf == EncodeEntry(Record(key, value))
        invariant file == old(file) + buf[..written] && end == |old(file)|
        modifies this`file
      {
        var n: nat :| 0 < n <= |buf| - written;
        assert buf[..written + n] == buf[..written] + buf[written..written + n];
        file := file + buf[written..written + n];
        written := written + n;
      }
      assert buf[..written] == buf;
      end := end + |buf|;
    }

    method Read(offset: nat, expected: nat) returns (r: ReadResult)
      requires Valid()
      ensures r == ReadValue(file, offset, expected)
    {
      hide Crc32, IsCrcTable;
      if offset > end || end - offset < ENTRY_HEADER { return Missing; }
      var header := file[offset..offset + ENTRY_HEADER];
      HeaderFields(file, offset);
      var klen, vsize := GetFixed32(header, 4), GetFixed32(header, 8);
      if klen > end || vsize > end || klen + vsize > end - offset - ENTRY_HEADER { return Missing; }
      if vsize != expected { return Damaged; }
      var payload := file[offset + ENTRY_HEADER..offset + ENTRY_HEADER + (klen + vsize)];
      var crc := ChecksumOf(header[4..], payload);
      if crc != GetFixed32(header, 0) { return Damaged; }
      return Found(payload[klen..]);
    }

    /** Visits the entries below `limit`; stops at the first torn or damaged one. */
    method ScanEntries(limit: nat) returns (found: seq<Located>)
      requires Valid()
      ensures found == Scan(file[..if limit < |file| then limit else |file|], 0)
    {
      hide Crc32, IsCrcTable, GetFixed32;
      var fileEnd := if limit < end then limit else end;
      ghost var f := file[..fileEnd];
      var off: nat := 0;
      found := [];
      while off + ENTRY_HEADER <= fileEnd
        invariant off <= fileEnd && found + Scan(f, off) == Scan(f, 0)
        decreases fileEnd - off
      {
        var header := file[off..off + ENTRY_HEADER];
        assert header == f[off..off + ENTRY_HEADER];
        HeaderFields(f, off);
        var klen, vsize := GetFixed32(header, 4), GetFixed32(header, 8);
        var total := ENTRY_HEADER + klen + vsize;
        if off + total > fileEnd || klen + vsize >= U32 { break; }
        var payload := file[off + ENTRY_HEADER..off + total];
        assert payload == f[off + ENTRY_HEADER..off + total];
        var crc := ChecksumOf(header[4..], payload);
        if crc != GetFixed32(header, 0) { break; }
        var l := Located(Record(payload[..klen], payload[klen..]), off);
        assert Scan(f, off) == [l] + Scan(f, off + total);
        assert found + ([l] + Scan(f, off + total)) == (found + [l]) + Scan(f, off + total);
        found := found + [l];
        off := off + total;
      }
      assert Scan(f, off) == [];
    }
  }

  lemma {:induction false} HeaderFields(f: Bytes, off: nat)
    requires off + ENTRY_HEADER <= |f|
    ensures var h := f[off..off + ENTRY_HEADER];
            && GetFixed32(h, 0) == GetFixed32(f, off) && GetFixed32(h, 4) == GetFixed32(f, off + 4)
            && GetFixed32(h, 8) == GetFixed32(f, off + 8) && h[4..] == f[off + 4..off + ENTRY_HEADER]
  {
    var h := f[off..off + ENTRY_HEADER];
    assert h[0..4] == f[off..off + 4];
    assert h[4..8] == f[off + 4..off + 8];
    assert h[8..12] == f[off + 8..off + 12];
  }
}
