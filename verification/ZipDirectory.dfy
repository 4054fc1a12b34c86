/** The directory reader and the data reader of the ZIP importer. */
module ZipDirectory {
  import opened ByteSequences
  import opened ZipFormat

  /** A toc_entry without the value for __file__.  Its numbers have passed through C ints. */
  datatype TocEntry = TocEntry(
    compress: int, dataSize: int, fileSize: int, fileOffset: int, time: int, date: int, crc: int)

  type Files = map<seq<Byte>, TocEntry>

  datatype ZipError = NameTooLong | CannotRead | NotAZip | BadLocalHeader | NoMemory | NoData | EndlessDirectory

  datatype Result<T> = Ok(value: T) | Err(error: ZipError)

  /** Raw bytes, or bytes that zlib would still have to inflate, with the byte that is put behind them for it. */
  datatype Data = Raw(bytes: seq<Byte>) | Deflated(bytes: seq<Byte>)

  /** 'Z' */
  const DUMMY: Byte := 0x5A

  // ---------- the readers as functions of the bytes and the position ----------

  /** fseek to a negative position fails and leaves the position alone. */
  function Seek(q: nat, offset: int): nat {
    if offset < 0 then q else offset
  }

  /** A C string ends at its first zero byte. */
  function CString(s: seq<Byte>): (r: seq<Byte>)
    ensures |r| <= |s| && r == s[..|r|] && 0 !in r
    ensures |r| < |s| ==> s[|r|] == 0
  {
    if s == [] || s[0] == 0 then [] else [s[0]] + CString(s[1..])
  }

  function Text(s: seq<Byte>, q: nat, n: nat): (r: seq<Byte>)
    ensures |r| == n && forall i | 0 <= i < n :: r[i] == ByteAt(s, q + i)
  {
    seq<Byte>(n, i requires 0 <= i => ByteAt(s, q + i))
  }

  function NameLength(size: int, maxPath: nat): nat {
    if size < 0 then 0 else if size > maxPath then maxPath else size
  }

  /** The fields of an entry that follow one another in its header. */
  function FieldsAt(s: seq<Byte>, q: nat): TocEntry {
    TocEntry(ShortAt(s, q), LongAt(s, q + 10), LongAt(s, q + 14), 0, ShortAt(s, q + 2), ShortAt(s, q + 4), LongAt(s, q + 6))
  }

  /** The loop over the central directory: q is the position of the file, header the position of the next
      header, arc the length of what precedes the archive. */
  function Scan(s: seq<Byte>, q: nat, header: int, arc: int, maxPath: nat, files: Files, fuel: nat): Result<Files>
    decreases fuel
  {
    var q1 := Seek(q, header);
    if LongAt(s, q1) != CENTRAL_SIGNATURE then Ok(files)
    else if fuel == 0 then Err(EndlessDirectory)
    else
      var q2 := Seek(q1 + 4, header + 10);
      var size := ShortAt(s, q2 + 18);
      var q3 := Seek(q2 + 24, header + 42);
      var n := NameLength(size, maxPath);
      var entry := FieldsAt(s, q2).(fileOffset := Int32(LongAt(s, q3) + arc));
      Scan(s, q3 + 4 + n, header + 46 + size + ShortAt(s, q2 + 20) + ShortAt(s, q2 + 22), arc, maxPath,
           files[CString(Text(s, q3 + 4, n)) := entry], fuel - 1)
  }

  function Directory(s: seq<Byte>, archive: string, maxPath: nat, fuel: nat): Result<Files> {
    if |archive| > maxPath then Err(NameTooLong)
    else if |s| < 22 then Err(CannotRead)
    else
      var end := |s| - 22;
      if LongAt(s, end) != END_SIGNATURE then Err(NotAZip)
      else
        var size, offset := LongAt(s, end + 12), LongAt(s, end + 16);
        var arc := end - offset - size;
        Scan(s, |s|, offset + arc, arc, maxPath, map[], fuel)
  }

  function EntryData(s: seq<Byte>, q: nat, toc: TocEntry): Result<Data> {
    var q1 := Seek(q, toc.fileOffset);
    if LongAt(s, q1) != LOCAL_SIGNATURE then Err(BadLocalHeader)
    else
      var q2 := Seek(q1 + 4, toc.fileOffset + 26);
      var start := toc.fileOffset + 30 + ShortAt(s, q2) + ShortAt(s, q2 + 2);
      if toc.dataSize < 0 then Err(NoMemory)
      else if start < 0 || (toc.dataSize > 0 && start + toc.dataSize > |s|) then Err(NoData)
      else
        var bytes := if toc.dataSize == 0 then [] else s[start..start+toc.dataSize];
        Ok(if toc.compress == 0 then Raw(bytes) else Deflated(bytes + [DUMMY]))
  }

  // ---------- the importer's file ----------

  /** get_long: four bytes, least significant first, sign-extended. */
  method GetLong(buf: seq<Byte>, p: nat) returns (x: int)
    requires p + 4 <= |buf|
    ensures x == LongAt(buf, p)
  {
    var b0: int, b1: int, b2: int, b3: int := buf[p], buf[p+1], buf[p+2], buf[p+3];
    x := b0;
    x := x + 256 * b1;
    x := x + 65536 * b2;
    x := x + 16777216 * b3;
    if x >= 0x8000_0000 {
      x := x - 0x1_0000_0000;
    }
  }

  class ArchiveFile {
    const bytes: seq<Byte>
    const maxPath: nat
    var pos: nat
    /** The position if reads behind the end of the file moved it, which they do not. */
    ghost var At: nat

    ghost predicate Valid()
      reads this
    {
      pos == At || (pos >= |bytes| && At >= |bytes|)
    }

    constructor (bytes: seq<Byte>, maxPath: nat)
      ensures Valid() && this.bytes == bytes && this.maxPath == maxPath && At == 0
    {
      this.bytes, this.maxPath, pos, At := bytes, maxPath, 0, 0;
    }

    /** fseek from the beginning of the file. */
    method SeekTo(offset: int) returns (ok: bool)
      requires Valid()
      modifies this
      ensures Valid() && At == Seek(old(At), offset) && (ok <==> offset >= 0)
    {
      ok := offset >= 0;
      if ok {
        pos, At := offset, offset;
      }
    }

    method GetByte() returns (b: Byte)
      requires Valid()
      modifies this
      ensures Valid() && b == ByteAt(bytes, old(At)) && At == old(At) + 1
    {
      if pos < |bytes| {
        b := bytes[pos];
        pos := pos + 1;
      } else {
        b := 255;
      }
      At := At + 1;
    }

    /** PyMarshal_ReadShortFromFile. */
    method ReadShort() returns (x: int)
      requires Valid()
      modifies this
      ensures Valid() && x == ShortAt(bytes, old(At)) && At == old(At) + 2
    {
      var b0: int := GetByte();
      var b1: int := GetByte();
      x := b0 + 256 * b1;
      if x >= 0x8000 {
        x := x - 0x1_0000;
      }
    }

    /** PyMarshal_ReadLongFromFile. */
    method ReadLong() returns (x: int)
      requires Valid()
      modifies this
      ensures Valid() && x == LongAt(bytes, old(At)) && At == old(At) + 4
    {
      var b0: int := GetByte();
      var b1: int := GetByte();
      var b2: int := GetByte();
      var b3: int := GetByte();
      x := b0 + 256 * b1 + 65536 * b2 + 16777216 * b3;
      if x >= 0x8000_0000 {
        x := x - 0x1_0000_0000;
      }
    }

    /** The loop that reads a name, up to its first zero byte. */
    method ReadName(size: int) returns (name: seq<Byte>)
      requires Valid()
      modifies this
      ensures Valid() && At == old(At) + NameLength(size, maxPath)
      ensures name == CString(Text(bytes, old(At), NameLength(size, maxPath)))
    {
      var n := if size > maxPath then maxPath else size;
      var text: seq<Byte> := [];
      for i := 0 to if n < 0 then 0 else n
        invariant Valid() && At == old(At) + i && text == Text(bytes, old(At), i)
      {
        var b := GetByte();
        text := text + [b];
      }
      name := CString(text);
    }

    /** The fields of a header from the compression method to the comment size. */
    method ReadFields() returns (fields: TocEntry, nameSize: int, rest: int)
      requires Valid()
      modifies this
      ensures Valid() && At == old(At) + 24
      ensures fields == FieldsAt(bytes, old(At)) && nameSize == ShortAt(bytes, old(At) + 18)
      ensures rest == ShortAt(bytes, old(At) + 20) + ShortAt(bytes, old(At) + 22)
    {
      hide LongAt, ShortAt, Valid;
      var compress := ReadShort();
      var time := ReadShort();
      var date := ReadShort();
      var crc := ReadLong();
      var dataSize := ReadLong();
      var fileSize := ReadLong();
      nameSize := ReadShort();
      var extraSize := ReadShort();
      var commentSize := ReadShort();
      fields := TocEntry(compress, dataSize, fileSize, 0, time, date, crc);
      rest := extraSize + commentSize;
    }

    /** One pass of the loop of read_directory; `more` is false at the end of the directory. */
    method ReadEntry(header: int, arc: int) returns (more: bool, name: seq<Byte>, entry: TocEntry, size: int)
      requires Valid()
      modifies this
      ensures Valid()
      ensures ReadsEntry(bytes, old(At), header, arc, maxPath, more, name, entry, size, At)
    {
      hide LongAt, ShortAt, Seek, Text, CString, NameLength, Int32, Valid, FieldsAt;
      name, entry, size := [], TocEntry(0, 0, 0, 0, 0, 0, 0), 0;
      var _ := SeekTo(header);
      var l := ReadLong();
      if l != CENTRAL_SIGNATURE {
        return false, name, entry, size;
      }
      var _ := SeekTo(header + 10);
      var fields, nameSize, rest := ReadFields();
      size := 46 + nameSize + rest;
      var _ := SeekTo(header + 42);
      var offset := ReadLong();
      name := ReadName(nameSize);
      entry := fields.(fileOffset := Int32(offset + arc));
      more := true;
    }

    /** read_directory. */
    method ReadDirectory(archive: string, fuel: nat) returns (r: Result<Files>)
      requires Valid()
      modifies this
      ensures Valid() && r == Directory(bytes, archive, maxPath, fuel)
    {
      hide LongAt, Valid, Scan;
      if |archive| > maxPath {
        return Err(NameTooLong);
      }
      if |bytes| < 22 {
        return Err(CannotRead);
      }
      var headerPosition := |bytes| - 22;
      var signature := GetLong(bytes, headerPosition);
      if signature != END_SIGNATURE {
        return Err(NotAZip);
      }
      var size := GetLong(bytes, headerPosition + 12);
      var header := GetLong(bytes, headerPosition + 16);
      var arc := headerPosition - header - size;
      var _ := SeekTo(|bytes|);
      r := ScanFrom(header + arc, arc, fuel);
    }

    /** The loop of read_directory. */
    method ScanFrom(start: int, arc: int, fuel: nat) returns (r: Result<Files>)
      requires Valid()
      modifies this
      ensures Valid() && r == Scan(bytes, old(At), start, arc, maxPath, map[], fuel)
    {
      hide ReadsEntry, Scan, Valid;
      var header, left := start, fuel;
      var files: Files := map[];
      while true
        invariant Valid()
        invariant Scan(bytes, old(At), start, arc, maxPath, map[], fuel) == Scan(bytes, At, header, arc, maxPath, files, left)
        decreases left
      {
        ghost var q := At;
        var more, name, entry, step := ReadEntry(header, arc);
        ScanStep(bytes, q, header, arc, maxPath, files, left, more, name, entry, step, At);
        if !more {
          return Ok(files);
        }
        if left == 0 {
          return Err(EndlessDirectory);
        }
        files := files[name := entry];
        header := header + step;
        left := left - 1;
      }
    }

    /** get_data, up to the call of zlib. */
    method GetData(toc: TocEntry) returns (r: Result<Data>)
      requires Valid()
      modifies this
      ensures Valid() && r == EntryData(bytes, old(At), toc)
    {
      hide LongAt, ShortAt, Valid;
      var ok := SeekTo(toc.fileOffset);
      var l := ReadLong();
      if l != LOCAL_SIGNATURE {
        return Err(BadLocalHeader);
      }
      ok := SeekTo(toc.fileOffset + 26);
      var nameSize := ReadShort();
      var extraSize := ReadShort();
      var start := toc.fileOffset + (30 + nameSize + extraSize);
      if toc.dataSize < 0 {
        return Err(NoMemory);
      }
      ok := SeekTo(start);
      if !ok || (toc.dataSize > 0 && start + toc.dataSize > |bytes|) {
        return Err(NoData);
      }
      var data := if toc.dataSize == 0 then [] else bytes[start..start+toc.dataSize];
      return Ok(if toc.compress == 0 then Raw(data) else Deflated(data + [DUMMY]));
    }
  }

  lemma ScanStep(s: seq<Byte>, q: nat, header: int, arc: int, maxPath: nat, files: Files, fuel: nat,
                 more: bool, name: seq<Byte>, entry: TocEntry, size: int, q': nat)
    requires ReadsEntry(s, q, header, arc, maxPath, more, name, entry, size, q')
    ensures Scan(s, q, header, arc, maxPath, files, fuel) ==
            if !more then Ok(files)
            else if fuel == 0 then Err(EndlessDirectory)
            else Scan(s, q', header + size, arc, maxPath, files[name := entry], fuel - 1)
  {
    hide LongAt, ShortAt, Text, CString;
  }

  /** What one pass of the loop reads. */
  ghost predicate ReadsEntry(s: seq<Byte>, q: nat, header: int, arc: int, maxPath: nat,
                             more: bool, name: seq<Byte>, entry: TocEntry, size: int, q': nat) {
    var q1 := Seek(q, header);
    && (more <==> LongAt(s, q1) == CENTRAL_SIGNATURE)
    && (more ==>
          var q2 := Seek(q1 + 4, header + 10);
          var nameSize := ShortAt(s, q2 + 18);
          var q3 := Seek(q2 + 24, header + 42);
          var n := NameLength(nameSize, maxPath);
          && entry == FieldsAt(s, q2).(fileOffset := Int32(LongAt(s, q3) + arc))
          && name == CString(Text(s, q3 + 4, n)) && q' == q3 + 4 + n
          && size == 46 + nameSize + (ShortAt(s, q2 + 20) + ShortAt(s, q2 + 22)))
  }
}
