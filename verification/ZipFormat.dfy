/** ZIP archives as a writer lays them out (PKWARE APPNOTE.TXT, sections 4.3.7, 4.3.12
    and 4.3.16), and what their fields read as. */
module ZipFormat {
  import opened ByteSequences

  const LOCAL_SIGNATURE := 0x04034B50
  const CENTRAL_SIGNATURE := 0x02014B50
  const END_SIGNATURE := 0x06054B50

  /** A member: `data` is what the archive holds of it, `size` how long it is when `compress` has been undone.  The
      fields that no reader of this model looks at are kept as they come. */
  datatype Member = Member(
    name: seq<Byte>, compress: nat, data: seq<Byte>, size: nat, time: nat, date: nat, crc: nat,
    localHead: seq<Byte>, localExtra: seq<Byte>,
    centralHead: seq<Byte>, centralTail: seq<Byte>, extra: seq<Byte>, comment: seq<Byte>)

  /** Local file header, name, extra field and data (4.3.7). */
  function Local(e: Member): seq<Byte> {
    Le32(LOCAL_SIGNATURE) + (e.localHead + (Le16(e.compress) + (Le16(e.time) + (Le16(e.date) + (Le32(e.crc)
    + (Le32(|e.data|) + (Le32(e.size) + (Le16(|e.name|) + (Le16(|e.localExtra|)
    + (e.name + (e.localExtra + e.data)))))))))))
  }

  /** Central directory header of an entry whose local header is at `offset` (4.3.12). */
  function Central(e: Member, offset: nat): seq<Byte> {
    Le32(CENTRAL_SIGNATURE) + (e.centralHead + (Le16(e.compress) + (Le16(e.time) + (Le16(e.date) + (Le32(e.crc)
    + (Le32(|e.data|) + (Le32(e.size) + (Le16(|e.name|) + (Le16(|e.extra|) + (Le16(|e.comment|)
    + (e.centralTail + (Le32(offset) + (e.name + (e.extra + e.comment))))))))))))))
  }

  /** End of central directory record, without an archive comment (4.3.16). */
  function End(count: nat, size: nat, offset: nat): seq<Byte> {
    Le32(END_SIGNATURE) + (Le16(0) + (Le16(0) + (Le16(count) + (Le16(count) + (Le32(size) + (Le32(offset) + Le16(0)))))))
  }

  function Locals(es: seq<Member>): seq<Byte> {
    if es == [] then [] else Local(es[0]) + Locals(es[1..])
  }

  function Centrals(es: seq<Member>, offset: nat): seq<Byte> {
    if es == [] then [] else Central(es[0], offset) + Centrals(es[1..], offset + |Local(es[0])|)
  }

  function Archive(prefix: seq<Byte>, es: seq<Member>): seq<Byte> {
    prefix + (Locals(es) + (Centrals(es, 0) + End(|es|, |Centrals(es, 0)|, |Locals(es)|)))
  }

  /** The lengths and values that the fields can hold and that are read back unchanged. */
  ghost predicate Writable(e: Member) {
    && |e.localHead| == 4 && |e.centralHead| == 6 && |e.centralTail| == 8
    && e.time < 0x1_0000 && e.date < 0x1_0000 && e.crc < 0x1_0000_0000
    && |e.name| < 0x8000 && |e.localExtra| < 0x8000 && |e.extra| < 0x8000 && |e.comment| < 0x8000
    && |e.data| < 0x8000_0000 && e.size < 0x8000_0000 && e.compress < 0x1_0000 && (e.compress == 0 ==> e.size == |e.data|)
  }

  lemma CentralLength(e: Member, offset: nat)
    requires |e.centralHead| == 6 && |e.centralTail| == 8
    ensures |Central(e, offset)| == 46 + |e.name| + |e.extra| + |e.comment|
  {
  }

  /** Where the fields of a local header are. */
  lemma LocalFields(s: seq<Byte>, p: nat, e: Member)
    requires HoldsAt(s, p, Local(e)) && |e.localHead| == 4
    ensures HoldsAt(s, p, Le32(LOCAL_SIGNATURE))
    ensures HoldsAt(s, p + 26, Le16(|e.name|)) && HoldsAt(s, p + 28, Le16(|e.localExtra|))
    ensures HoldsAt(s, p + 30 + |e.name| + |e.localExtra|, e.data)
  {
    var t10 := e.localExtra + e.data;
    var t9 := e.name + t10;
    var t8 := Le16(|e.localExtra|) + t9;
    var t7 := Le16(|e.name|) + t8;
    var t6 := Le32(e.size) + t7;
    var t5 := Le32(|e.data|) + t6;
    var t4 := Le32(e.crc) + t5;
    var t3 := Le16(e.date) + t4;
    var t2 := Le16(e.time) + t3;
    var t1 := Le16(e.compress) + t2;
    var t0 := e.localHead + t1;
    assert HoldsAt(s, p, Le32(LOCAL_SIGNATURE) + t0);
    hide *;
    HoldsBoth(s, p, Le32(LOCAL_SIGNATURE), t0);
    HoldsBoth(s, p + 4, e.localHead, t1);
    HoldsBoth(s, p + 8, Le16(e.compress), t2);
    HoldsBoth(s, p + 10, Le16(e.time), t3);
    HoldsBoth(s, p + 12, Le16(e.date), t4);
    HoldsBoth(s, p + 14, Le32(e.crc), t5);
    HoldsBoth(s, p + 18, Le32(|e.data|), t6);
    HoldsBoth(s, p + 22, Le32(e.size), t7);
    LocalTail(s, p + 26, e.name, e.localExtra, e.data);
  }

  /** The fields from the lengths on. */
  lemma LocalTail(s: seq<Byte>, p: nat, name: seq<Byte>, extra: seq<Byte>, data: seq<Byte>)
    requires HoldsAt(s, p, Le16(|name|) + (Le16(|extra|) + (name + (extra + data))))
    ensures HoldsAt(s, p, Le16(|name|)) && HoldsAt(s, p + 2, Le16(|extra|))
    ensures HoldsAt(s, p + 4 + |name| + |extra|, data)
  {
    hide *;
    HoldsBoth(s, p, Le16(|name|), Le16(|extra|) + (name + (extra + data)));
    HoldsBoth(s, p + 2, Le16(|extra|), name + (extra + data));
    HoldsBoth(s, p + 4, name, extra + data);
    HoldsBoth(s, p + 4 + |name|, extra, data);
  }

  /** What a local header reads as. */
  lemma LocalReads(s: seq<Byte>, p: nat, e: Member)
    requires HoldsAt(s, p, Local(e)) && Writable(e)
    ensures LongAt(s, p) == LOCAL_SIGNATURE
    ensures ShortAt(s, p + 26) == |e.name| && ShortAt(s, p + 28) == |e.localExtra|
    ensures HoldsAt(s, p + 30 + |e.name| + |e.localExtra|, e.data)
  {
    hide HoldsAt, Le16, Le32, Local, LongAt, ShortAt;
    LocalFields(s, p, e);
    LongIs(s, p, LOCAL_SIGNATURE);
    ShortIs(s, p + 26, |e.name|);
    ShortIs(s, p + 28, |e.localExtra|);
  }

  /** Where the fields of a central directory header are. */
  lemma CentralFields(s: seq<Byte>, p: nat, e: Member, offset: nat)
    requires HoldsAt(s, p, Central(e, offset)) && |e.centralHead| == 6 && |e.centralTail| == 8
    ensures HoldsAt(s, p, Le32(CENTRAL_SIGNATURE)) && HoldsAt(s, p + 10, Le16(e.compress))
    ensures HoldsAt(s, p + 12, Le16(e.time)) && HoldsAt(s, p + 14, Le16(e.date)) && HoldsAt(s, p + 16, Le32(e.crc))
    ensures HoldsAt(s, p + 20, Le32(|e.data|)) && HoldsAt(s, p + 24, Le32(e.size))
    ensures HoldsAt(s, p + 28, Le16(|e.name|)) && HoldsAt(s, p + 30, Le16(|e.extra|)) && HoldsAt(s, p + 32, Le16(|e.comment|))
    ensures HoldsAt(s, p + 42, Le32(offset)) && HoldsAt(s, p + 46, e.name)
  {
    var t13 := e.extra + e.comment;
    var t12 := e.name + t13;
    var t11 := Le32(offset) + t12;
    var t10 := e.centralTail + t11;
    var t9 := Le16(|e.comment|) + t10;
    var t8 := Le16(|e.extra|) + t9;
    var t7 := Le16(|e.name|) + t8;
    var t6 := Le32(e.size) + t7;
    var t5 := Le32(|e.data|) + t6;
    var t4 := Le32(e.crc) + t5;
    var t3 := Le16(e.date) + t4;
    var t2 := Le16(e.time) + t3;
    var t1 := Le16(e.compress) + t2;
    var t0 := e.centralHead + t1;
    assert HoldsAt(s, p, Le32(CENTRAL_SIGNATURE) + t0);
    hide *;
    HoldsBoth(s, p, Le32(CENTRAL_SIGNATURE), t0);
    HoldsBoth(s, p + 4, e.centralHead, t1);
    HoldsBoth(s, p + 10, Le16(e.compress), t2);
    HoldsBoth(s, p + 12, Le16(e.time), t3);
    HoldsBoth(s, p + 14, Le16(e.date), t4);
    HoldsBoth(s, p + 16, Le32(e.crc), t5);
    HoldsBoth(s, p + 20, Le32(|e.data|), t6);
    HoldsBoth(s, p + 24, Le32(e.size), t7);
    HoldsBoth(s, p + 28, Le16(|e.name|), t8);
    HoldsBoth(s, p + 30, Le16(|e.extra|), t9);
    HoldsBoth(s, p + 32, Le16(|e.comment|), t10);
    HoldsBoth(s, p + 34, e.centralTail, t11);
    HoldsBoth(s, p + 42, Le32(offset), t12);
    HoldsBoth(s, p + 46, e.name, t13);
  }

  /** What a central directory header reads as. */
  lemma CentralReads(s: seq<Byte>, p: nat, e: Member, offset: nat)
    requires HoldsAt(s, p, Central(e, offset)) && Writable(e) && offset < 0x8000_0000
    ensures LongAt(s, p) == CENTRAL_SIGNATURE
    ensures ShortAt(s, p + 10) == Signed16(e.compress)
    ensures ShortAt(s, p + 12) == Signed16(e.time) && ShortAt(s, p + 14) == Signed16(e.date)
    ensures LongAt(s, p + 16) == Signed32(e.crc) && LongAt(s, p + 20) == |e.data| && LongAt(s, p + 24) == e.size
    ensures ShortAt(s, p + 28) == |e.name| && ShortAt(s, p + 30) == |e.extra| && ShortAt(s, p + 32) == |e.comment|
    ensures LongAt(s, p + 42) == offset && HoldsAt(s, p + 46, e.name)
  {
    hide HoldsAt, Le16, Le32, Central, LongAt, ShortAt;
    CentralFields(s, p, e, offset);
    LongIs(s, p, CENTRAL_SIGNATURE);
    ShortIs(s, p + 10, e.compress);
    ShortIs(s, p + 12, e.time);
    ShortIs(s, p + 14, e.date);
    LongIs(s, p + 16, e.crc);
    LongIs(s, p + 20, |e.data|);
    LongIs(s, p + 24, e.size);
    ShortIs(s, p + 28, |e.name|);
    ShortIs(s, p + 30, |e.extra|);
    ShortIs(s, p + 32, |e.comment|);
    LongIs(s, p + 42, offset);
  }

  /** What the end record reads as. */
  lemma EndReads(s: seq<Byte>, p: nat, count: nat, size: nat, offset: nat)
    requires HoldsAt(s, p, End(count, size, offset)) && size < 0x8000_0000 && offset < 0x8000_0000
    ensures |End(count, size, offset)| == 22
    ensures LongAt(s, p) == END_SIGNATURE && LongAt(s, p + 12) == size && LongAt(s, p + 16) == offset
  {
    var t5 := Le32(offset) + Le16(0);
    var t4 := Le32(size) + t5;
    var t3 := Le16(count) + t4;
    var t2 := Le16(count) + t3;
    var t1 := Le16(0) + t2;
    var t0 := Le16(0) + t1;
    hide HoldsAt, Le16, Le32, LongAt;
    HoldsBoth(s, p, Le32(END_SIGNATURE), t0);
    HoldsBoth(s, p + 4, Le16(0), t1);
    HoldsBoth(s, p + 6, Le16(0), t2);
    HoldsBoth(s, p + 8, Le16(count), t3);
    HoldsBoth(s, p + 10, Le16(count), t4);
    HoldsBoth(s, p + 12, Le32(size), t5);
    HoldsBoth(s, p + 16, Le32(offset), Le16(0));
    LongIs(s, p, END_SIGNATURE);
    LongIs(s, p + 12, size);
    LongIs(s, p + 16, offset);
  }
}
