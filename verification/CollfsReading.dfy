/** read and lseek on a collectively opened file: rank 0 asks its kernel, every other rank works on its own
    copy of the file and an offset it keeps itself. */
module CollfsReading {
  import opened ByteSequences
  import opened CollfsFiles

  const WORD := 0x1_0000_0000_0000_0000
  const SIGN := 0x8000_0000_0000_0000

  /** size_t arithmetic. */
  function Wrap(n: int): nat {
    n % WORD
  }

  /** A size_t returned as an off_t. */
  function Signed(n: nat): int {
    if n < SIGN then n else n - WORD
  }

  const SEEK_SET := 0
  const SEEK_CUR := 1
  const SEEK_END := 2

  datatype Op = Read(count: nat) | Seek(offset: int, whence: int)

  /** What a call returns; the bytes that read stored are no bytes of the copy if it ran past its end. */
  datatype Reply = Count(n: int, data: seq<Byte>) | PastTheCopy(n: int) | Offset(at: int)

  // ---------- the two implementations, as functions of the state ----------

  function CopyRead(link: FileLink, count: nat): (Reply, FileLink) {
    var left := Wrap(link.len - link.offset);
    var n := if left < count then left else count;
    var reply :=
      if n == 0 then Count(0, [])
      else if link.offset + n <= |link.mem| then Count(n, link.mem[link.offset..link.offset+n])
      else PastTheCopy(n);
    (reply, link.(offset := Wrap(link.offset + n)))
  }

  function CopySeek(link: FileLink, offset: int, whence: int): (Reply, FileLink) {
    var at :=
      if whence == SEEK_SET then Wrap(offset)
      else if whence == SEEK_CUR then Wrap(link.offset + offset)
      else if whence == SEEK_END then Wrap(link.len + offset)
      else link.offset;
    (Offset(Signed(at)), link.(offset := at))
  }

  /** The kernel's open file on rank 0: its bytes, the position, and the largest position it admits. */
  datatype OpenFile = OpenFile(bytes: seq<Byte>, pos: nat, max: nat)

  function KernelRead(f: OpenFile, count: nat): (Reply, OpenFile) {
    if f.pos >= |f.bytes| then (Count(0, []), f)
    else
      var n := if |f.bytes| - f.pos < count then |f.bytes| - f.pos else count;
      (Count(n, f.bytes[f.pos..f.pos+n]), f.(pos := f.pos + n))
  }

  function Target(pos: nat, len: nat, offset: int, whence: int): int {
    if whence == SEEK_SET then offset else if whence == SEEK_CUR then pos + offset else len + offset
  }

  function KernelSeek(f: OpenFile, offset: int, whence: int): (Reply, OpenFile) {
    var at := Target(f.pos, |f.bytes|, offset, whence);
    if whence !in {SEEK_SET, SEEK_CUR, SEEK_END} || at < 0 || at > f.max then (Offset(-1), f)
    else (Offset(at), f.(pos := at))
  }

  function CopyStep(link: FileLink, op: Op): (Reply, FileLink) {
    match op
    case Read(count) => CopyRead(link, count)
    case Seek(offset, whence) => CopySeek(link, offset, whence)
  }

  function KernelStep(f: OpenFile, op: Op): (Reply, OpenFile) {
    match op
    case Read(count) => KernelRead(f, count)
    case Seek(offset, whence) => KernelSeek(f, offset, whence)
  }

  // ---------- the file of a rank other than 0, updated in place ----------

  class CopiedFile {
    var link: FileLink

    constructor (link: FileLink)
      ensures this.link == link
    {
      this.link := link;
    }

    /** collfs_read. */
    method ReadInto(count: nat) returns (reply: Reply)
      requires link.offset < WORD
      modifies this
      ensures (reply, link) == CopyRead(old(link), count)
    {
      var n := count;
      if (link.len - link.offset) % WORD < n {
        n := (link.len - link.offset) % WORD;
      }
      if n == 0 {
        reply := Count(0, []);
      } else if link.offset + n <= |link.mem| {
        reply := Count(n, link.mem[link.offset..link.offset+n]);
      } else {
        reply := PastTheCopy(n);
      }
      link := link.(offset := (link.offset + n) % WORD);
    }

    /** collfs_lseek. */
    method SeekTo(offset: int, whence: int) returns (reply: Reply)
      modifies this
      ensures (reply, link) == CopySeek(old(link), offset, whence)
    {
      if whence == SEEK_SET {
        link := link.(offset := offset % WORD);
      } else if whence == SEEK_CUR {
        link := link.(offset := (link.offset + offset) % WORD);
      } else if whence == SEEK_END {
        link := link.(offset := (link.len + offset) % WORD);
      }
      reply := Offset(Signed(link.offset));
    }

    /** Any run of the two calls. */
    method Perform(ops: seq<Op>) returns (replies: seq<Reply>)
      requires link.offset < WORD
      modifies this
      ensures (replies, link) == CopyRun(old(link), ops)
    {
      replies := [];
      for i := 0 to |ops|
        invariant (replies, link) == CopyRun(old(link), ops[..i]) && link.offset < WORD
      {
        assert ops[..i+1][..i] == ops[..i];
        var reply;
        match ops[i] {
          case Read(count) =>
            reply := ReadInto(count);
          case Seek(offset, whence) =>
            reply := SeekTo(offset, whence);
        }
        replies := replies + [reply];
      }
      assert ops[..|ops|] == ops;
    }
  }

  // ---------- agreement ----------

  function CopyRun(link: FileLink, ops: seq<Op>): (seq<Reply>, FileLink) {
    if ops == [] then ([], link)
    else
      var (replies, l) := CopyRun(link, ops[..|ops|-1]);
      var (reply, l') := CopyStep(l, ops[|ops|-1]);
      (replies + [reply], l')
  }

  function KernelRun(f: OpenFile, ops: seq<Op>): (r: (seq<Reply>, OpenFile))
    ensures |r.0| == |ops|
  {
    if ops == [] then ([], f)
    else
      var (replies, g) := KernelRun(f, ops[..|ops|-1]);
      var (reply, g') := KernelStep(g, ops[|ops|-1]);
      (replies + [reply], g')
  }

  /** The copy holds the file, zeros behind it, and stands where the kernel's file stands. */
  ghost predicate Tracks(link: FileLink, f: OpenFile) {
    && link.len == |f.bytes| <= |link.mem| && link.mem[..link.len] == f.bytes
    && link.offset == f.pos <= f.max && |f.bytes| <= f.max < SIGN
  }

  /** The arguments are in the range of their types. */
  ghost predicate InRange(op: Op) {
    match op
    case Read(count) => count < SIGN
    case Seek(offset, _) => -SIGN <= offset < SIGN
  }

  /** A seek to a place that a file can have; a read of nothing, or from inside the file or its end. */
  predicate Harmless(f: OpenFile, op: Op) {
    match op
    case Read(count) => count == 0 || f.pos <= |f.bytes|
    case Seek(offset, whence) =>
      whence in {SEEK_SET, SEEK_CUR, SEEK_END} && 0 <= Target(f.pos, |f.bytes|, offset, whence) <= f.max
  }

  /** The same reply, and the same place afterwards. */
  ghost predicate Agree(link: FileLink, f: OpenFile, op: Op) {
    CopyStep(link, op).0 == KernelStep(f, op).0 && CopyStep(link, op).1.offset == KernelStep(f, op).1.pos
  }

  lemma WrapIs(n: int)
    requires -WORD <= n < 2 * WORD
    ensures Wrap(n) == if n < 0 then n + WORD else if n < WORD then n else n - WORD
  {
  }

  lemma ReadAgreesIff(link: FileLink, f: OpenFile, count: nat)
    requires Tracks(link, f) && count < SIGN
    ensures Agree(link, f, Read(count)) <==> Harmless(f, Read(count))
    ensures Harmless(f, Read(count)) ==> Tracks(CopyRead(link, count).1, KernelRead(f, count).1)
  {
    if f.pos <= |f.bytes| {
      ReadInsideAgrees(link, f, count);
    } else {
      ReadBehindDiffers(link, f, count);
    }
  }

  lemma ReadInsideAgrees(link: FileLink, f: OpenFile, count: nat)
    requires Tracks(link, f) && count < SIGN && f.pos <= |f.bytes|
    ensures Agree(link, f, Read(count)) && Tracks(CopyRead(link, count).1, KernelRead(f, count).1)
  {
    var left := |f.bytes| - f.pos;
    var n := if left < count then left else count;
    WrapIs(left);
    WrapIs(link.offset + n);
    hide Wrap;
    assert f.bytes[f.pos..f.pos+n] == link.mem[..link.len][f.pos..f.pos+n] == link.mem[f.pos..f.pos+n];
    assert n == 0 ==> f.bytes[f.pos..f.pos+n] == [];
  }

  /** Behind the end the number of bytes left wraps around, so that no read is cut short. */
  lemma ReadBehindDiffers(link: FileLink, f: OpenFile, count: nat)
    requires Tracks(link, f) && count < SIGN && f.pos > |f.bytes|
    ensures Agree(link, f, Read(count)) <==> count == 0
    ensures count == 0 ==> Tracks(CopyRead(link, count).1, KernelRead(f, count).1)
  {
    WrapIs(link.len - link.offset);
    WrapIs(link.offset + count);
    hide Wrap;
  }

  lemma SeekAgreesIff(link: FileLink, f: OpenFile, offset: int, whence: int)
    requires Tracks(link, f) && -SIGN <= offset < SIGN
    ensures Agree(link, f, Seek(offset, whence)) <==> Harmless(f, Seek(offset, whence))
    ensures Harmless(f, Seek(offset, whence)) ==> Tracks(CopySeek(link, offset, whence).1, KernelSeek(f, offset, whence).1)
  {
    WrapIs(Target(link.offset, link.len, offset, whence));
    hide Wrap;
  }

  /** One call agrees exactly when it is harmless, and then the two go on agreeing. */
  lemma StepAgreesIff(link: FileLink, f: OpenFile, op: Op)
    requires Tracks(link, f) && InRange(op)
    ensures Agree(link, f, op) <==> Harmless(f, op)
    ensures Harmless(f, op) ==> Tracks(CopyStep(link, op).1, KernelStep(f, op).1)
  {
    hide Agree, Harmless, Tracks, CopyRead, CopySeek, KernelRead, KernelSeek;
    match op
    case Read(count) => ReadAgreesIff(link, f, count);
    case Seek(offset, whence) => SeekAgreesIff(link, f, offset, whence);
  }

  ghost predicate HarmlessRun(f: OpenFile, ops: seq<Op>) {
    forall n | 0 <= n < |ops| :: Harmless(KernelRun(f, ops[..n]).1, ops[n])
  }

  ghost predicate AgreeingRun(link: FileLink, f: OpenFile, ops: seq<Op>) {
    forall n | 0 <= n <= |ops| ::
      CopyRun(link, ops[..n]).0 == KernelRun(f, ops[..n]).0 && CopyRun(link, ops[..n]).1.offset == KernelRun(f, ops[..n]).1.pos
  }

  lemma {:induction false} HarmlessTracks(link: FileLink, f: OpenFile, ops: seq<Op>)
    requires Tracks(link, f) && HarmlessRun(f, ops) && forall op | op in ops :: InRange(op)
    ensures Tracks(CopyRun(link, ops).1, KernelRun(f, ops).1) && CopyRun(link, ops).0 == KernelRun(f, ops).0
  {
    if ops != [] {
      var init, op := ops[..|ops|-1], ops[|ops|-1];
      HarmlessPrefix(f, ops, |init|);
      HarmlessTracks(link, f, init);
      StepAgreesIff(CopyRun(link, init).1, KernelRun(f, init).1, op);
    }
  }

  lemma {:induction false} HarmlessPrefix(f: OpenFile, ops: seq<Op>, k: nat)
    requires k <= |ops| && HarmlessRun(f, ops)
    ensures HarmlessRun(f, ops[..k])
  {
    forall n | 0 <= n < k ensures Harmless(KernelRun(f, ops[..k][..n]).1, ops[..k][n]) {
      assert ops[..k][..n] == ops[..n];
    }
  }

  /** A rank's reads and seeks agree with rank 0's at every step of a run exactly when every one of them
      is harmless where rank 0's file stands at that moment. */
  lemma {:induction false} RunAgreesIff(link: FileLink, f: OpenFile, ops: seq<Op>)
    requires Tracks(link, f) && forall op | op in ops :: InRange(op)
    ensures AgreeingRun(link, f, ops) <==> HarmlessRun(f, ops)
  {
    if HarmlessRun(f, ops) {
      forall n | 0 <= n <= |ops|
        ensures CopyRun(link, ops[..n]).0 == KernelRun(f, ops[..n]).0
            && CopyRun(link, ops[..n]).1.offset == KernelRun(f, ops[..n]).1.pos
      {
        HarmlessPrefix(f, ops, n);
        HarmlessTracks(link, f, ops[..n]);
      }
    }
    if AgreeingRun(link, f, ops) {
      AgreeingIsHarmless(link, f, ops, |ops|);
      assert ops[..|ops|] == ops;
    }
  }

  lemma {:induction false} AgreeingIsHarmless(link: FileLink, f: OpenFile, ops: seq<Op>, k: nat)
    requires Tracks(link, f) && AgreeingRun(link, f, ops) && (forall op | op in ops :: InRange(op)) && k <= |ops|
    ensures HarmlessRun(f, ops[..k])
  {
    if k == 0 {
      assert HarmlessRun(f, ops[..0]);
    } else {
      hide *;
      AgreeingIsHarmless(link, f, ops, k - 1);
      var init, op := ops[..k-1], ops[k-1];
      assert forall x | x in init :: x in ops;
      HarmlessTracks(link, f, init);
      LastAgrees(link, f, ops, k);
      StepAgreesIff(CopyRun(link, init).1, KernelRun(f, init).1, op);
      assert ops[..k] == init + [op];
      HarmlessMore(f, init, op);
    }
  }

  lemma {:induction false} LastAgrees(link: FileLink, f: OpenFile, ops: seq<Op>, k: nat)
    requires AgreeingRun(link, f, ops) && 0 < k <= |ops|
    ensures Agree(CopyRun(link, ops[..k-1]).1, KernelRun(f, ops[..k-1]).1, ops[k-1])
  {
    hide CopyStep, KernelStep;
    assert ops[..k][..k-1] == ops[..k-1];
    var a, b := CopyRun(link, ops[..k]), KernelRun(f, ops[..k]);
    assert a.0 == b.0 && a.1.offset == b.1.pos;
    assert a.0[|a.0|-1] == b.0[|b.0|-1];
  }

  lemma {:induction false} HarmlessMore(f: OpenFile, init: seq<Op>, op: Op)
    requires HarmlessRun(f, init) && Harmless(KernelRun(f, init).1, op)
    ensures HarmlessRun(f, init + [op])
  {
    hide Harmless, KernelRun;
    var ops := init + [op];
    forall n | 0 <= n < |ops| ensures Harmless(KernelRun(f, ops[..n]).1, ops[n]) {
      assert ops[..n] == init[..n];
      if n == |init| {
        assert init[..n] == init;
      }
    }
  }

  /** Seek targets all lie between the beginning and the end of the file. */
  ghost predicate SeeksInside(f: OpenFile, ops: seq<Op>) {
    forall n | 0 <= n < |ops| :: SeekInside(KernelRun(f, ops[..n]).1, ops[n])
  }

  ghost predicate SeekInside(f: OpenFile, op: Op) {
    op.Seek? ==>
      op.whence in {SEEK_SET, SEEK_CUR, SEEK_END} && 0 <= Target(f.pos, |f.bytes|, op.offset, op.whence) <= |f.bytes|
  }

  /** Such a run agrees throughout, whatever it reads. */
  lemma {:induction false} SeeksInsideAgree(link: FileLink, f: OpenFile, ops: seq<Op>)
    requires Tracks(link, f) && f.pos <= |f.bytes| && SeeksInside(f, ops) && forall op | op in ops :: InRange(op)
    ensures AgreeingRun(link, f, ops)
  {
    forall n | 0 <= n < |ops| ensures Harmless(KernelRun(f, ops[..n]).1, ops[n]) {
      StaysInside(f, ops, n);
    }
    RunAgreesIff(link, f, ops);
  }

  lemma {:induction false} StaysInside(f: OpenFile, ops: seq<Op>, n: nat)
    requires f.pos <= |f.bytes| <= f.max && SeeksInside(f, ops) && n <= |ops|
    ensures var g := KernelRun(f, ops[..n]).1; g.pos <= |g.bytes| && g.bytes == f.bytes && g.max == f.max
  {
    if n > 0 {
      StaysInside(f, ops, n - 1);
      assert ops[..n][..n-1] == ops[..n-1];
      assert SeekInside(KernelRun(f, ops[..n-1]).1, ops[n-1]);
    }
  }

  /** A seek behind the end is admitted by both, and the next read tells them apart: the kernel reports
      the end of the file, the copy a byte that is not in the file. */
  lemma ReadBehindTheEndDiffers()
    ensures var link := FileLink(10002, 1, "lib", [7, 0, 0, 0], 1, 4, 0);
      var f := OpenFile([7], 0, 100);
      && Tracks(link, f)
      && KernelRun(f, [Seek(2, SEEK_SET), Read(1)]).0 == [Offset(2), Count(0, [])]
      && CopyRun(link, [Seek(2, SEEK_SET), Read(1)]).0 == [Offset(2), Count(1, [0])]
  {
    var link := FileLink(10002, 1, "lib", [7, 0, 0, 0], 1, 4, 0);
    var f := OpenFile([7], 0, 100);
    var s, r := Seek(2, SEEK_SET), Read(1);
    assert [s, r][..|[s, r]|-1] == [s] && [s][..|[s]|-1] == [];
    assert KernelRun(f, []) == ([], f) && CopyRun(link, []) == ([], link);
    assert KernelStep(f, s) == (Offset(2), f.(pos := 2));
    assert [] + [Offset(2)] == [Offset(2)];
    assert KernelRun(f, [s]).1 == f.(pos := 2) && KernelRun(f, [s]).0 == [Offset(2)];
    WrapIs(2);
    assert CopyRun(link, [s]) == ([Offset(2)], link.(offset := 2));
    assert link.mem[2..3] == [0];
  }

  // ---------- what a file reads like ----------

  function Total(ops: seq<Op>): nat {
    if ops == [] then 0
    else Total(ops[..|ops|-1]) + match ops[|ops|-1] case Read(count) => count case Seek(_, _) => 0
  }

  function Joined(replies: seq<Reply>): seq<Byte> {
    if replies == [] then []
    else Joined(replies[..|replies|-1]) + match replies[|replies|-1] case Count(_, data) => data case _ => []
  }

  /** Reads one after the other deliver the bytes of the file one after the other, and no more than are asked
      for or left. */
  lemma {:induction false} ReadsAreConsecutive(f: OpenFile, ops: seq<Op>)
    requires f.pos <= |f.bytes| && forall op | op in ops :: op.Read?
    ensures var (replies, g) := KernelRun(f, ops); var left := |f.bytes| - f.pos;
      && g == f.(pos := f.pos + if Total(ops) < left then Total(ops) else left)
      && Joined(replies) == f.bytes[f.pos..g.pos]
  {
    if ops == [] {
      assert f.bytes[f.pos..f.pos] == [];
    } else {
      var init, last := ops[..|ops|-1], ops[|ops|-1];
      assert last in ops && forall op | op in init :: op in ops;
      ReadsAreConsecutive(f, init);
      var (replies, g) := KernelRun(f, init);
      OneMoreRead(f, ops, g, replies);
      hide *;
      OneRead(g, last.count);
      var (reply, h) := KernelRead(g, last.count);
      JoinedMore(replies, reply.n, reply.data);
      Adjoin(f.bytes, f.pos, g.pos, h.pos);
    }
  }

  lemma OneMoreRead(f: OpenFile, ops: seq<Op>, g: OpenFile, replies: seq<Reply>)
    requires ops != [] && ops[|ops|-1].Read? && KernelRun(f, ops[..|ops|-1]) == (replies, g)
    ensures var (reply, h) := KernelRead(g, ops[|ops|-1].count);
      KernelRun(f, ops) == (replies + [reply], h) && Total(ops) == Total(ops[..|ops|-1]) + ops[|ops|-1].count
  {
  }

  lemma Adjoin(s: seq<Byte>, p: nat, q: nat, r: nat)
    requires p <= q <= r <= |s|
    ensures s[p..r] == s[p..q] + s[q..r]
  {
  }

  /** On every rank that follows rank 0 the same reads deliver the same bytes. */
  lemma {:induction false} CopiedReadsAreConsecutive(link: FileLink, f: OpenFile, ops: seq<Op>)
    requires Tracks(link, f) && f.pos <= |f.bytes| && forall op | op in ops :: op.Read? && InRange(op)
    ensures var left := |f.bytes| - f.pos;
      Joined(CopyRun(link, ops).0) == f.bytes[f.pos..][..if Total(ops) < left then Total(ops) else left]
  {
    ReadsSeekNowhere(f, ops);
    SeeksInsideAgree(link, f, ops);
    ReadsAreConsecutive(f, ops);
    AgreeAtEnd(link, f, ops);
    hide KernelRun, CopyRun, AgreeingRun, SeeksInside, Joined, Total;
    var n := KernelRun(f, ops).1.pos;
    assert f.bytes[f.pos..n] == f.bytes[f.pos..][..n-f.pos];
  }

  lemma ReadsSeekNowhere(f: OpenFile, ops: seq<Op>)
    requires forall op | op in ops :: op.Read?
    ensures SeeksInside(f, ops)
  {
    forall n | 0 <= n < |ops| ensures SeekInside(KernelRun(f, ops[..n]).1, ops[n]) {
      assert ops[n] in ops;
    }
  }

  lemma AgreeAtEnd(link: FileLink, f: OpenFile, ops: seq<Op>)
    requires AgreeingRun(link, f, ops)
    ensures CopyRun(link, ops).0 == KernelRun(f, ops).0
  {
    hide CopyRun, KernelRun;
    assert ops[..|ops|] == ops;
    assert CopyRun(link, ops[..|ops|]).0 == KernelRun(f, ops[..|ops|]).0;
  }

  /** One read. */
  lemma OneRead(f: OpenFile, count: nat)
    requires f.pos <= |f.bytes|
    ensures var left := |f.bytes| - f.pos; var n := if count < left then count else left;
      KernelRead(f, count) == (Count(n, f.bytes[f.pos..f.pos+n]), f.(pos := f.pos + n))
  {
    assert f.bytes[f.pos..f.pos] == [];
  }

  lemma JoinedMore(replies: seq<Reply>, n: int, data: seq<Byte>)
    ensures Joined(replies + [Count(n, data)]) == Joined(replies) + data
  {
    assert (replies + [Count(n, data)])[..|replies|] == replies;
  }

  /** The arguments of lseek, in the numbers that POSIX gives them: a position from the beginning, from where the
      file stands, and from its end. */
  lemma SeekMeans(link: FileLink, f: OpenFile, offset: int)
    requires Tracks(link, f)
    ensures 0 <= offset <= f.max ==>
              KernelSeek(f, offset, 0) == (Offset(offset), f.(pos := offset))
              && CopySeek(link, offset, 0) == (Offset(offset), link.(offset := offset))
    ensures 0 <= f.pos + offset <= f.max ==>
              KernelSeek(f, offset, 1) == (Offset(f.pos + offset), f.(pos := f.pos + offset))
              && CopySeek(link, offset, 1) == (Offset(f.pos + offset), link.(offset := f.pos + offset))
    ensures 0 <= |f.bytes| + offset <= f.max ==>
              KernelSeek(f, offset, 2) == (Offset(|f.bytes| + offset), f.(pos := |f.bytes| + offset))
              && CopySeek(link, offset, 2) == (Offset(|f.bytes| + offset), link.(offset := |f.bytes| + offset))
  {
    if 0 <= offset <= f.max {
      WrapIs(offset);
    }
    if 0 <= f.pos + offset <= f.max {
      WrapIs(f.pos + offset);
    }
    if 0 <= |f.bytes| + offset <= f.max {
      WrapIs(|f.bytes| + offset);
    }
    hide Wrap;
  }

  /** What rank 0's kernel refuses with -1, leaving the position, is taken elsewhere: an unknown whence reports the
      position, and any other target, as an off_t, becomes the position, a negative one as a size_t. */
  lemma RefusedSeeks(link: FileLink, f: OpenFile, offset: int, whence: int)
    requires Tracks(link, f)
    ensures !(0 <= whence <= 2) ==>
              KernelSeek(f, offset, whence) == (Offset(-1), f) && CopySeek(link, offset, whence) == (Offset(f.pos), link)
    ensures 0 <= whence <= 2 ==>
              var at := [offset, f.pos + offset, |f.bytes| + offset][whence];
              && ((at < 0 || at > f.max) <==> KernelSeek(f, offset, whence) == (Offset(-1), f))
              && (-SIGN <= at < SIGN ==>
                    CopySeek(link, offset, whence) == (Offset(at), link.(offset := if at < 0 then at + WORD else at)))
  {
    if 0 <= whence <= 2 {
      var at := [offset, f.pos + offset, |f.bytes| + offset][whence];
      if -SIGN <= at < SIGN {
        WrapIs(at);
      }
    }
    hide Wrap;
  }
}
