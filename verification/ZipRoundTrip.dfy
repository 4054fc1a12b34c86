/** Reading back what a writer has laid out. */
module ZipRoundTrip {
  import opened ByteSequences
  import opened ZipDirectory
  import opened ZipFormat

  /** An archive that the readers understand: every field in its signed range, names without zero bytes
      and not longer than a path. */
  ghost predicate Readable(prefix: seq<Byte>, es: seq<Member>, maxPath: nat) {
    && AllReadable(es, maxPath)
    && |prefix| + |Locals(es)| + |Centrals(es, 0)| < 0x8000_0000
  }

  ghost predicate AllReadable(es: seq<Member>, maxPath: nat) {
    forall i | 0 <= i < |es| :: Writable(es[i]) && |es[i].name| <= maxPath && 0 !in es[i].name
  }

  ghost predicate DistinctNames(es: seq<Member>) {
    forall i, j | 0 <= i < j < |es| :: es[i].name != es[j].name
  }

  /** What the directory has to say about an entry whose local header is at `offset` of the file. */
  function Toc(e: Member, offset: nat): TocEntry {
    TocEntry(Signed16(e.compress), |e.data|, e.size, offset, Signed16(e.time), Signed16(e.date), Signed32(e.crc))
  }

  function LocalOffset(es: seq<Member>, i: nat): nat
    requires i <= |es|
  {
    if i == 0 then 0 else |Local(es[0])| + LocalOffset(es[1..], i - 1)
  }

  /** The dictionary after the entries have been entered in order. */
  function Entered(es: seq<Member>, base: nat, files: Files): Files {
    if es == [] then files
    else Entered(es[1..], base + |Local(es[0])|, files[es[0].name := Toc(es[0], base)])
  }

  lemma {:induction false} WholeCString(s: seq<Byte>)
    requires 0 !in s
    ensures CString(s) == s
  {
    if s != [] {
      WholeCString(s[1..]);
    }
  }

  lemma TextHeld(s: seq<Byte>, p: nat, t: seq<Byte>)
    requires HoldsAt(s, p, t)
    ensures Text(s, p, |t|) == t
  {
    forall i | 0 <= i < |t| ensures Text(s, p, |t|)[i] == t[i] {
      HoldsByte(s, p, t, i);
    }
  }

  lemma SmallInt32(n: nat)
    requires n < 0x8000_0000
    ensures Int32(n) == n
  {
  }

  /** What the loop reads from a header that a writer has laid out. */
  lemma EntryRead(s: seq<Byte>, q: nat, header: nat, arc: nat, maxPath: nat, e: Member, offset: nat)
    requires HoldsAt(s, header, Central(e, offset)) && Writable(e) && |e.name| <= maxPath && 0 !in e.name
    requires offset + arc < 0x8000_0000
    ensures ReadsEntry(s, q, header, arc, maxPath, true, e.name, Toc(e, offset + arc),
                       |Central(e, offset)|, header + 46 + |e.name|)
  {
    hide LongAt, ShortAt, Central, HoldsAt, Writable, Text, CString;
    CentralReads(s, header, e, offset);
    CentralFits(e, offset);
    TextHeld(s, header + 46, e.name);
    WholeCString(e.name);
    SmallInt32(offset + arc);
    var entry := Toc(e, offset + arc);
    assert FieldsAt(s, header + 10) == entry.(fileOffset := 0);
    hide *;
    FieldsGiveEntry(s, q, header, arc, maxPath, e.name, entry, |e.name|, |e.extra| + |e.comment|);
  }

  lemma CentralFits(e: Member, offset: nat)
    requires Writable(e)
    ensures |Central(e, offset)| == 46 + |e.name| + |e.extra| + |e.comment|
  {
    CentralLength(e, offset);
  }

  lemma FieldsGiveEntry(s: seq<Byte>, q: nat, header: nat, arc: nat, maxPath: nat, name: seq<Byte>, entry: TocEntry,
      n: nat, rest: nat)
    requires LongAt(s, header) == CENTRAL_SIGNATURE && FieldsAt(s, header + 10) == entry.(fileOffset := 0)
    requires n <= maxPath && ShortAt(s, header + 28) == n && ShortAt(s, header + 30) + ShortAt(s, header + 32) == rest
    requires entry.fileOffset == Int32(LongAt(s, header + 42) + arc) && CString(Text(s, header + 46, n)) == name
    ensures ReadsEntry(s, q, header, arc, maxPath, true, name, entry, 46 + n + rest, header + 46 + n)
  {
    hide LongAt, ShortAt, FieldsAt, CString, Text, Int32;
  }

  /** One pass of the scan over such a header. */
  lemma ScanOne(s: seq<Byte>, q: nat, header: nat, arc: nat, maxPath: nat, files: Files, fuel: nat, e: Member, offset: nat)
    requires HoldsAt(s, header, Central(e, offset)) && Writable(e) && |e.name| <= maxPath && 0 !in e.name
    requires offset + arc < 0x8000_0000 && fuel > 0
    ensures Scan(s, q, header, arc, maxPath, files, fuel) ==
      Scan(s, header + 46 + |e.name|, header + |Central(e, offset)|, arc, maxPath,
           files[e.name := Toc(e, offset + arc)], fuel - 1)
  {
    hide *;
    EntryRead(s, q, header, arc, maxPath, e, offset);
    ScanStep(s, q, header, arc, maxPath, files, fuel, true, e.name, Toc(e, offset + arc),
             |Central(e, offset)|, header + 46 + |e.name|);
  }

  /** The scan over all headers enters all entries, in order. */
  lemma {:induction false} ScanAll(s: seq<Byte>, q: nat, header: nat, arc: nat, maxPath: nat, files: Files, fuel: nat,
                                   es: seq<Member>, offset: nat)
    requires AllReadable(es, maxPath) && offset + |Locals(es)| + arc < 0x8000_0000 && fuel >= |es|
    requires HoldsAt(s, header, Centrals(es, offset)) && LongAt(s, header + |Centrals(es, offset)|) != CENTRAL_SIGNATURE
    ensures Scan(s, q, header, arc, maxPath, files, fuel) == Ok(Entered(es, offset + arc, files))
    decreases |es|
  {
    hide Scan, LongAt, HoldsAt, Central, Local, Writable, Toc, CString, ByteAt;
    if es == [] {
      ScanEnds(s, q, header, arc, maxPath, files, fuel);
    } else {
      var e := es[0];
      HoldsBoth(s, header, Central(e, offset), Centrals(es[1..], offset + |Local(e)|));
      ScanOne(s, q, header, arc, maxPath, files, fuel, e, offset);
      ScanAll(s, header + 46 + |e.name|, header + |Central(e, offset)|, arc, maxPath,
              files[e.name := Toc(e, offset + arc)], fuel - 1, es[1..], offset + |Local(e)|);
    }
  }

  lemma ScanEnds(s: seq<Byte>, q: nat, header: nat, arc: int, maxPath: nat, files: Files, fuel: nat)
    requires LongAt(s, header) != CENTRAL_SIGNATURE
    ensures Scan(s, q, header, arc, maxPath, files, fuel) == Ok(files)
  {
  }

  ghost predicate Named(es: seq<Member>, n: seq<Byte>) {
    exists i :: 0 <= i < |es| && es[i].name == n
  }

  lemma NamedFirst(es: seq<Member>, n: seq<Byte>)
    requires es != []
    ensures Named(es, n) <==> es[0].name == n || Named(es[1..], n)
  {
    var rest := es[1..];
    if Named(es, n) {
      var i :| 0 <= i < |es| && es[i].name == n;
      if i > 0 {
        assert rest[i-1].name == n;
      }
    }
    if Named(rest, n) {
      var i :| 0 <= i < |rest| && rest[i].name == n;
      assert es[i+1].name == n;
    }
  }

  /** Nothing is entered but the names of the entries; other names keep what they had. */
  lemma {:induction false} EnteredKeys(es: seq<Member>, base: nat, files: Files, n: seq<Byte>)
    ensures n in Entered(es, base, files) <==> n in files || Named(es, n)
    ensures !Named(es, n) && n in files ==> Entered(es, base, files)[n] == files[n]
  {
    hide Local, Toc, Named;
    if es == [] {
      assert !Named(es, n) by {
        NothingNamed(n);
      }
    } else {
      NamedFirst(es, n);
      EnteredKeys(es[1..], base + |Local(es[0])|, files[es[0].name := Toc(es[0], base)], n);
    }
  }

  lemma NothingNamed(n: seq<Byte>)
    ensures !Named([], n)
  {
  }

  /** With distinct names every entry is found under its name. */
  lemma {:induction false} EnteredAt(es: seq<Member>, base: nat, files: Files, i: nat)
    requires DistinctNames(es) && i < |es|
    ensures es[i].name in Entered(es, base, files)
    ensures Entered(es, base, files)[es[i].name] == Toc(es[i], base + LocalOffset(es, i))
    decreases i
  {
    hide Local, Toc;
    var rest, files' := es[1..], files[es[0].name := Toc(es[0], base)];
    if i == 0 {
      EnteredKeys(rest, base + |Local(es[0])|, files', es[0].name);
      assert forall j | 0 <= j < |rest| :: rest[j].name == es[j+1].name;
    } else {
      assert forall j | 0 <= j < |rest| :: rest[j] == es[j+1];
      EnteredAt(rest, base + |Local(es[0])|, files', i - 1);
    }
  }

  lemma {:induction false} LocalsHold(s: seq<Byte>, p: nat, es: seq<Member>, i: nat)
    requires HoldsAt(s, p, Locals(es)) && i < |es|
    ensures HoldsAt(s, p + LocalOffset(es, i), Local(es[i]))
    decreases i
  {
    hide HoldsAt, Local;
    HoldsBoth(s, p, Local(es[0]), Locals(es[1..]));
    if i > 0 {
      LocalsHold(s, p + |Local(es[0])|, es[1..], i - 1);
    }
  }

  /** Wherever the file stands, get_data delivers this. */
  ghost predicate AlwaysReads(s: seq<Byte>, toc: TocEntry, data: Data) {
    forall q: nat :: EntryData(s, q, toc) == Ok(data)
  }

  /** What get_data must deliver of a member: its bytes, or, if they have been compressed, those that zlib needs. */
  function DataOf(e: Member): Data {
    if e.compress == 0 then Raw(e.data) else Deflated(e.data + [0x5A])
  }

  /** The data of an entry. */
  lemma DataReadBack(s: seq<Byte>, e: Member, offset: nat)
    requires HoldsAt(s, offset, Local(e)) && Writable(e)
    ensures AlwaysReads(s, Toc(e, offset), DataOf(e))
  {
    MethodIsKnown(e, offset);
    hide Local, LongAt, ShortAt, Signed16, Signed32, Writable, AlwaysReads, Toc;
    LocalReads(s, offset, e);
    DataHeld(s, offset + 30 + |e.name| + |e.localExtra|, e.data);
    DataIs(s, Toc(e, offset), offset, |e.name|, |e.localExtra|, |e.data|);
  }

  lemma MethodIsKnown(e: Member, offset: nat)
    requires Writable(e)
    ensures var toc := Toc(e, offset);
      toc.dataSize == |e.data| && toc.fileOffset == offset && (toc.compress == 0 <==> e.compress == 0)
  {
  }

  lemma DataHeld(s: seq<Byte>, p: nat, data: seq<Byte>)
    requires HoldsAt(s, p, data)
    ensures p + |data| <= |s| && s[p..p+|data|] == data
  {
  }

  lemma DataIs(s: seq<Byte>, toc: TocEntry, offset: nat, n: nat, x: nat, size: nat)
    requires toc.dataSize == size && toc.fileOffset == offset
    requires LongAt(s, offset) == LOCAL_SIGNATURE && ShortAt(s, offset + 26) == n && ShortAt(s, offset + 28) == x
    requires offset + 30 + n + x + size <= |s|
    ensures var bytes := s[offset+30+n+x..offset+30+n+x+size];
      AlwaysReads(s, toc, if toc.compress == 0 then Raw(bytes) else Deflated(bytes + [0x5A]))
  {
    hide LongAt, ShortAt;
    var start := offset + 30 + n + x;
    assert size == 0 ==> s[start..start+size] == [];
  }

  /** read_directory returns exactly the names of the entries, each with its method, sizes and offset in the file;
      get_data returns the bytes of each entry, wherever the file stands. */
  lemma RoundTrip(prefix: seq<Byte>, es: seq<Member>, archive: string, maxPath: nat, fuel: nat)
    requires Readable(prefix, es, maxPath) && DistinctNames(es) && |archive| <= maxPath && fuel >= |es|
    ensures var s := Archive(prefix, es); var r := Directory(s, archive, maxPath, fuel);
      && r.Ok?
      && (forall n :: n in r.value <==> Named(es, n))
      && (forall i | 0 <= i < |es| :: es[i].name in r.value
            && r.value[es[i].name] == Toc(es[i], |prefix| + LocalOffset(es, i))
            && AlwaysReads(s, r.value[es[i].name], DataOf(es[i])))
  {
    hide *;
    DirectoryIs(prefix, es, archive, maxPath, fuel);
    var s, p := Archive(prefix, es), |prefix|;
    forall n ensures n in Entered(es, p, map[]) <==> Named(es, n) {
      EnteredKeys(es, p, map[], n);
    }
    forall i | 0 <= i < |es|
      ensures es[i].name in Entered(es, p, map[]) && Entered(es, p, map[])[es[i].name] == Toc(es[i], p + LocalOffset(es, i))
      ensures AlwaysReads(s, Toc(es[i], p + LocalOffset(es, i)), DataOf(es[i]))
    {
      EnteredAt(es, p, map[], i);
      Layout(prefix, es);
      LocalsHold(s, p, es, i);
      EachWritable(prefix, es, maxPath, i);
      DataReadBack(s, es[i], p + LocalOffset(es, i));
    }
  }

  /** The directory that is read back from an archive. */
  lemma DirectoryIs(prefix: seq<Byte>, es: seq<Member>, archive: string, maxPath: nat, fuel: nat)
    requires Readable(prefix, es, maxPath) && |archive| <= maxPath && fuel >= |es|
    ensures Directory(Archive(prefix, es), archive, maxPath, fuel) == Ok(Entered(es, |prefix|, map[]))
  {
    hide HoldsAt, LongAt, Archive, Locals, Centrals, End, Directory, Scan, Entered, AllReadable;
    var s, p, size := Archive(prefix, es), |prefix|, |Centrals(es, 0)|;
    var c := p + |Locals(es)|;
    Layout(prefix, es);
    EndReads(s, c + size, |es|, size, |Locals(es)|);
    DirectoryStarts(s, archive, maxPath, fuel, c, size, p);
    ScanAll(s, |s|, c, p, maxPath, map[], fuel, es, 0);
  }

  lemma EachWritable(prefix: seq<Byte>, es: seq<Member>, maxPath: nat, i: nat)
    requires Readable(prefix, es, maxPath) && i < |es|
    ensures Writable(es[i])
  {
  }

  lemma DirectoryStarts(s: seq<Byte>, archive: string, maxPath: nat, fuel: nat, c: nat, size: nat, p: nat)
    requires |archive| <= maxPath && |s| == c + size + 22 && c >= p
    requires LongAt(s, c + size) == END_SIGNATURE && LongAt(s, c + size + 12) == size && LongAt(s, c + size + 16) == c - p
    ensures Directory(s, archive, maxPath, fuel) == Scan(s, |s|, c, p, maxPath, map[], fuel)
  {
    hide LongAt, Scan;
  }

  lemma Layout(prefix: seq<Byte>, es: seq<Member>)
    ensures var s := Archive(prefix, es); var c := |prefix| + |Locals(es)|; var size := |Centrals(es, 0)|;
      && |s| == c + size + 22
      && HoldsAt(s, |prefix|, Locals(es)) && HoldsAt(s, c, Centrals(es, 0))
      && HoldsAt(s, c + size, End(|es|, size, |Locals(es)|))
  {
    hide Local, Central, Locals, Centrals, End, HoldsAt;
    var s, l, k := Archive(prefix, es), Locals(es), Centrals(es, 0);
    var end := End(|es|, |k|, |l|);
    EndLength(|es|, |k|, |l|);
    WholeHeld(s);
    HoldsBoth(s, 0, prefix, l + (k + end));
    HoldsBoth(s, |prefix|, l, k + end);
    HoldsBoth(s, |prefix| + |l|, k, end);
  }

  lemma EndLength(count: nat, size: nat, offset: nat)
    ensures |End(count, size, offset)| == 22
  {
    hide Le16, Le32;
  }

  lemma WholeHeld(s: seq<Byte>)
    ensures HoldsAt(s, 0, s)
  {
  }

  // ---------- what is no archive ----------

  lemma LowDigit(a: int, x: int, b: int, y: int)
    requires 0 <= a < 256 && 0 <= b < 256 && a + 256 * x == b + 256 * y
    ensures a == b && x == y
  {
  }

  lemma FourDigits(a: seq<Byte>, b: seq<Byte>)
    requires |a| == |b| == 4 && Sum32(a) == Sum32(b)
    ensures a == b
  {
    var a0: int, a1: int, a2: int, a3: int := a[0], a[1], a[2], a[3];
    var b0: int, b1: int, b2: int, b3: int := b[0], b[1], b[2], b[3];
    LowDigit(a0, a1 + 256 * a2 + 65536 * a3, b0, b1 + 256 * b2 + 65536 * b3);
    LowDigit(a1, a2 + 256 * a3, b1, b2 + 256 * b3);
    LowDigit(a2, a3, b2, b3);
  }

  lemma LongIsSum(s: seq<Byte>, p: nat)
    ensures var r := [ByteAt(s, p), ByteAt(s, p + 1), ByteAt(s, p + 2), ByteAt(s, p + 3)];
      LongAt(s, p) == Signed32(Sum32(r)) && 0 <= Sum32(r) < 0x1_0000_0000
  {
  }

  /** Four bytes that are not what reads behind the end deliver. */
  lemma SignatureIff(s: seq<Byte>, p: nat, b: seq<Byte>)
    requires |b| == 4 && 255 !in b && b[3] < 128
    ensures LongAt(s, p) == Sum32(b) <==> HoldsAt(s, p, b)
  {
    var r := [ByteAt(s, p), ByteAt(s, p + 1), ByteAt(s, p + 2), ByteAt(s, p + 3)];
    LongIsSum(s, p);
    PositiveSum(b);
    if LongAt(s, p) == Sum32(b) {
      FourDigits(r, b);
      assert b[3] == ByteAt(s, p + 3) != 255;
      assert s[p..p+4] == r;
    }
    if HoldsAt(s, p, b) {
      assert s[p..p+4] == [s[p], s[p+1], s[p+2], s[p+3]] == r;
    }
  }

  lemma PositiveSum(b: seq<Byte>)
    requires |b| == 4 && b[3] < 128
    ensures 0 <= Sum32(b) < 0x8000_0000
  {
  }

  /** A name that is longer than a path is cut, one of negative length is empty, and a zero byte ends it. */
  lemma NameIsCut(s: seq<Byte>, q: nat, header: nat, arc: int, maxPath: nat, name: seq<Byte>, entry: TocEntry, size: int, q': nat)
    requires ReadsEntry(s, q, header, arc, maxPath, true, name, entry, size, q')
    ensures var n := ShortAt(s, header + 28); var m := if n < 0 then 0 else if maxPath < n then maxPath else n;
      && q' == header + 46 + m && |name| <= m
      && (forall i | 0 <= i < |name| :: name[i] == ByteAt(s, header + 46 + i) != 0)
      && (|name| < m ==> ByteAt(s, header + 46 + |name|) == 0)
  {
    hide LongAt, ShortAt, FieldsAt;
  }

  /** read_directory fails exactly if the name of the archive is too long, the file is too short, or its last 22
      bytes do not begin with PK 05 06 (or the directory does not end). */
  lemma DirectoryFailsIff(s: seq<Byte>, archive: string, maxPath: nat, fuel: nat)
    ensures var r, mark := Directory(s, archive, maxPath, fuel), [0x50, 0x4B, 0x05, 0x06];
      if |archive| > maxPath then r == Err(NameTooLong)
      else if |s| < 22 then r == Err(CannotRead)
      else if !HoldsAt(s, |s| - 22, mark) then r == Err(NotAZip)
      else r.Ok? || r == Err(EndlessDirectory)
  {
    if |s| >= 22 {
      SignatureIff(s, |s| - 22, [0x50, 0x4B, 0x05, 0x06]);
      hide LongAt, HoldsAt;
      ScanFailsAtMost(s, |s|, LongAt(s, |s| - 6) + (|s| - 22 - LongAt(s, |s| - 6) - LongAt(s, |s| - 10)),
                      |s| - 22 - LongAt(s, |s| - 6) - LongAt(s, |s| - 10), maxPath, map[], fuel);
    }
  }

  lemma {:induction false} ScanFailsAtMost(s: seq<Byte>, q: nat, header: int, arc: int, maxPath: nat, files: Files, fuel: nat)
    ensures var r := Scan(s, q, header, arc, maxPath, files, fuel); r.Ok? || r == Err(EndlessDirectory)
    decreases fuel
  {
    hide LongAt, ShortAt, FieldsAt, CString, Text;
    var q1 := Seek(q, header);
    if LongAt(s, q1) == CENTRAL_SIGNATURE && fuel > 0 {
      var q2 := Seek(q1 + 4, header + 10);
      var size := ShortAt(s, q2 + 18);
      var q3 := Seek(q2 + 24, header + 42);
      var n := NameLength(size, maxPath);
      var entry := FieldsAt(s, q2).(fileOffset := Int32(LongAt(s, q3) + arc));
      ScanFailsAtMost(s, q3 + 4 + n, header + 46 + size + ShortAt(s, q2 + 20) + ShortAt(s, q2 + 22), arc, maxPath,
                      files[CString(Text(s, q3 + 4, n)) := entry], fuel - 1);
    }
  }

  /** A directory that does not begin with PK 01 02 has no entries. */
  lemma NoHeaderNoEntries(s: seq<Byte>, q: nat, header: nat, arc: int, maxPath: nat, files: Files, fuel: nat)
    ensures !HoldsAt(s, header, [0x50, 0x4B, 0x01, 0x02]) ==> Scan(s, q, header, arc, maxPath, files, fuel) == Ok(files)
  {
    SignatureIff(s, header, [0x50, 0x4B, 0x01, 0x02]);
    hide LongAt, HoldsAt;
    if !HoldsAt(s, header, [0x50, 0x4B, 0x01, 0x02]) {
      ScanEnds(s, q, header, arc, maxPath, files, fuel);
    }
  }

  /** get_data fails exactly if there is no local header, which begins with PK 03 04, at the offset of the entry,
      or the data that the header leads to reach behind the end of the file. */
  lemma DataFailsIff(s: seq<Byte>, q: nat, toc: TocEntry)
    requires toc.fileOffset >= 0 && toc.dataSize >= 0
    ensures var r, p := EntryData(s, q, toc), toc.fileOffset;
      var start := p + 30 + ShortAt(s, p + 26) + ShortAt(s, p + 28);
      if !HoldsAt(s, p, [0x50, 0x4B, 0x03, 0x04]) then r == Err(BadLocalHeader)
      else if start < 0 || (toc.dataSize > 0 && start + toc.dataSize > |s|) then r == Err(NoData)
      else r.Ok?
  {
    SignatureIff(s, toc.fileOffset, [0x50, 0x4B, 0x03, 0x04]);
    hide LongAt, ShortAt, HoldsAt;
  }
}
