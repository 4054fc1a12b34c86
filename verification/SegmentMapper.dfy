/** Mapping the loadable segments of an ELF object, directly or through the collective file layer. */
module SegmentMapper {
  import opened ByteSequences
  import opened CollfsFiles
  import opened Paging

  // ---------- address spaces ----------

  /** A page of a file mapping that lies wholly behind the end of the file faults when it is touched. */
  datatype Content = Holds(byte: Byte) | Beyond

  datatype Cell = Unmapped | Mapped(content: Content, prot: Prot)

  type Memory = int -> Cell

  /** What a new mapping shows: the file from some offset on, or zeros. */
  datatype Source = FromFile(off: int) | Zeros

  function ContentAt(file: seq<Byte>, page: nat, src: Source, i: int): Content
    requires page > 0
  {
    match src
    case Zeros => Holds(0)
    case FromFile(off) =>
      if 0 <= off + i < |file| then Holds(file[off + i])
      else if off + i < RoundUp(|file|, page) then Holds(0)
      else Beyond
  }

  function Paint(m: Memory, file: seq<Byte>, page: nat, addr: int, n: int, src: Source, prot: Prot): Memory
    requires page > 0
  {
    a => if addr <= a < addr + n then Mapped(ContentAt(file, page, src, a - addr), prot) else m(a)
  }

  function Protect(m: Memory, addr: int, n: int, prot: Prot): Memory {
    a => if addr <= a < addr + n && m(a).Mapped? then m(a).(prot := prot) else m(a)
  }

  function Write(m: Memory, addr: int, data: seq<Byte>): Memory {
    a => if addr <= a < addr + |data| && m(a).Mapped? then m(a).(content := Holds(data[a - addr])) else m(a)
  }

  predicate Writable(c: Cell) {
    c.Mapped? && c.prot.w && c.content.Holds?
  }

  /** Rank 0 maps a part of the file; elsewhere fresh pages are filled from a copy of the file with zeros up to the
      end of its last page.  Both show the same exactly up to there: behind, the mapping of the file faults. */
  lemma CopyAgreesIff(m: Memory, file: seq<Byte>, page: nat, mem: seq<Byte>, addr: int, n: nat, off: nat, prot: Prot, a: int)
    requires page > 0 && |file| <= |mem| == RoundUp(|file|, page) && off <= |mem| && addr <= a < addr + n
    requires mem == file + seq(|mem| - |file|, _ => 0)
    ensures var at, part := off + a - addr, mem[off..if off + n < |mem| then off + n else |mem|];
      var mapped := Paint(m, file, page, addr, n, FromFile(off), prot);
      var copied := Protect(Write(Paint(m, file, page, addr, n, Zeros, READ_WRITE), addr, part), addr, n, prot);
      && (mapped(a) == copied(a) <==> at < |mem|)
      && copied(a) == Mapped(Holds(if at < |mem| then mem[at] else 0), prot)
      && (at >= |mem| ==> mapped(a) == Mapped(Beyond, prot))
  {
    var at, part := off + a - addr, mem[off..if off + n < |mem| then off + n else |mem|];
    assert at < |mem| <==> a - addr < |part|;
    assert at < |mem| ==> part[a - addr] == mem[at];
    assert ContentAt(file, page, FromFile(off), a - addr) == if at < |mem| then Holds(mem[at]) else Beyond;
    var zeros := Paint(m, file, page, addr, n, Zeros, READ_WRITE);
    assert ContentAt(file, page, Zeros, a - addr) == Holds(0);
    assert zeros(a) == Mapped(Holds(0), READ_WRITE);
    assert Write(zeros, addr, part)(a) == Mapped(Holds(if at < |mem| then mem[at] else 0), READ_WRITE);
    hide RoundUp, ContentAt;
  }

  /** Outside [lo, hi) nothing has changed. */
  ghost predicate Kept(m: Memory, m': Memory, lo: int, hi: int) {
    forall a {:trigger m'(a)} | !(lo <= a < hi) :: m'(a) == m(a)
  }

  /** Nothing is mapped in [lo, hi). */
  ghost predicate FreeAt(m: Memory, lo: int, hi: int) {
    forall a {:trigger m(a)} | lo <= a < hi :: m(a) == Unmapped
  }

  /** What was mapped before has not changed. */
  ghost predicate Undisturbed(m: Memory, m': Memory) {
    forall a {:trigger m'(a)} | m(a) != Unmapped :: m'(a) == m(a)
  }

  /** Nothing has changed but in a range of n free bytes. */
  ghost predicate Confined(m: Memory, m': Memory, n: int) {
    m' == m || exists lo, hi :: hi == lo + n && FreeAt(m, lo, hi) && Kept(m, m', lo, hi)
  }

  lemma KeptOnFree(m: Memory, m': Memory, lo: int, n: int)
    requires FreeAt(m, lo, lo + n) && Kept(m, m', lo, lo + n)
    ensures Confined(m, m', n)
  {
  }

  lemma ConfinedIsUndisturbed(m: Memory, m': Memory, n: int)
    requires Confined(m, m', n)
    ensures Undisturbed(m, m')
  {
  }

  // ---------- the program header ----------

  datatype SegmentType = Load | OtherType

  datatype Phdr = Phdr(kind: SegmentType, prot: Prot, offset: nat, vaddr: nat, filesz: nat, memsz: nat, align: nat)

  datatype LoadCmd = LoadCmd(mapstart: int, mapend: int, dataend: int, allocend: int, mapoff: int, prot: Prot)

  function CmdOf(ph: Phdr, page: nat): LoadCmd
    requires page > 0
  {
    LoadCmd(RoundDown(ph.vaddr, page), RoundUp(ph.vaddr + ph.filesz, page),
            ph.vaddr + ph.filesz, ph.vaddr + ph.memsz, RoundDown(ph.offset, page), ph.prot)
  }

  /** What the segment must look like in memory (System V gABI, chapter 5, "Program Header" and "Program
      Loading"): the bytes of the file, then zeros up to the size in memory. */
  ghost predicate Image(m: Memory, base: int, ph: Phdr, file: seq<Byte>)
    requires ph.offset + ph.filesz <= |file|
  {
    PartImage(m, base, ph, ph.memsz, file) && HasProt(m, base + ph.vaddr, base + ph.vaddr + ph.memsz, ph.prot)
  }

  /** The first n bytes of it. */
  ghost predicate PartImage(m: Memory, base: int, ph: Phdr, n: nat, file: seq<Byte>)
    requires ph.offset + ph.filesz <= |file|
  {
    forall a {:trigger m(a)} | base + ph.vaddr <= a < base + ph.vaddr + n ::
      m(a).Mapped? && m(a).content == Holds(ImageByte(ph, file, a - base - ph.vaddr))
  }

  ghost predicate HasProt(m: Memory, lo: int, hi: int, prot: Prot) {
    forall a {:trigger m(a)} | lo <= a < hi :: m(a).Mapped? && m(a).prot == prot
  }

  function ImageByte(ph: Phdr, file: seq<Byte>, k: nat): Byte
    requires ph.offset + ph.filesz <= |file|
  {
    if k < ph.filesz then file[ph.offset + k] else 0
  }

  /** What the gABI and the file layer ask of a loadable segment: it lies inside the file, is not smaller in
      memory than in the file, and its address and offset are congruent modulo the page size. */
  ghost predicate Loadable(ph: Phdr, file: seq<Byte>, page: nat)
    requires page > 0
  {
    ph.filesz <= ph.memsz && ph.offset + ph.filesz <= |file| && Aligned(ph.vaddr - ph.offset, page)
  }

  /** The address range, in whole pages, that mapping the segment touches. */
  function First(ph: Phdr, page: nat): int
    requires page > 0
  {
    RoundDown(ph.vaddr, page)
  }

  function Last(ph: Phdr, page: nat): int
    requires page > 0
  {
    RoundUp(ph.vaddr + ph.memsz, page)
  }

  ghost predicate AllLoadable(loads: seq<Phdr>, file: seq<Byte>, page: nat)
    requires page > 0
  {
    forall i | 0 <= i < |loads| :: Loadable(loads[i], file, page)
  }

  /** The segments are in ascending order, and no page belongs to two of them. */
  ghost predicate InOrder(loads: seq<Phdr>, page: nat)
    requires page > 0
  {
    forall i, j | 0 <= i < j < |loads| :: Last(loads[i], page) <= First(loads[j], page)
  }

  lemma LengthIsNatural(loads: seq<Phdr>, file: seq<Byte>, page: nat)
    requires page > 0 && loads != [] && InFile(loads, file) && InOrder(loads, page)
    ensures loads[|loads|-1].vaddr + loads[|loads|-1].memsz - First(loads[0], page) >= 0
  {
    if |loads| > 1 {
      assert Last(loads[0], page) <= First(loads[|loads|-1], page);
    }
  }

  /** The arithmetic of one load command. */
  lemma CmdFacts(ph: Phdr, file: seq<Byte>, page: nat)
    requires page > 0 && Loadable(ph, file, page)
    ensures var c := CmdOf(ph, page);
      && c.mapstart == First(ph, page) <= ph.vaddr <= c.dataend <= c.allocend <= Last(ph, page)
      && c.mapstart <= c.mapend <= Last(ph, page) && c.dataend <= c.mapend
      && Aligned(c.mapstart, page) && Aligned(c.mapend, page) && Aligned(c.mapoff, page) && Aligned(Last(ph, page), page)
      && Aligned(c.mapend - c.mapstart, page)
      && c.mapstart - c.mapoff == ph.vaddr - ph.offset && 0 <= c.mapoff
      && c.mapoff + (c.mapend - c.mapstart) <= RoundUp(|file|, page)
  {
    var d := ph.vaddr - ph.offset;
    RoundsShift(ph.offset, d, page);
    RoundsShift(ph.offset + ph.filesz, d, page);
    RoundsMonotone(ph.vaddr + ph.filesz, ph.vaddr + ph.memsz, page);
    RoundsMonotone(ph.offset + ph.filesz, |file|, page);
    RoundsMonotone(0, ph.offset, page);
    ZeroIsAligned(page);
    RoundUpOfAligned(0, page);
    hide Aligned, RoundUp, RoundDown;
    AlignedSum(RoundDown(ph.vaddr, page), RoundUp(ph.vaddr + ph.filesz, page), page);
  }

  // ---------- the load commands ----------

  function CheckOf(ph: Phdr, page: nat): LoadError
    requires page > 0
  {
    if ph.kind != Load then NoError
    else if And(ph.align, page - 1) != 0 then NotPageAligned
    else if And(Minus(ph.vaddr, ph.offset), Minus(ph.align, 1)) != 0 then NotCongruent
    else NoError
  }

  /** The first complaint about a list of program headers. */
  function FirstError(phdrs: seq<Phdr>, page: nat): LoadError
    requires page > 0
  {
    if phdrs == [] then NoError
    else if FirstError(phdrs[..|phdrs|-1], page) != NoError then FirstError(phdrs[..|phdrs|-1], page)
    else CheckOf(phdrs[|phdrs|-1], page)
  }

  function Loads(phdrs: seq<Phdr>): (r: seq<Phdr>)
    ensures forall ph :: ph in r <==> ph in phdrs && ph.kind == Load
  {
    if phdrs == [] then []
    else Loads(phdrs[..|phdrs|-1]) + if phdrs[|phdrs|-1].kind == Load then [phdrs[|phdrs|-1]] else []
  }

  /** The loadable segments come in the order of their headers. */
  lemma {:induction false} LoadsConcat(a: seq<Phdr>, b: seq<Phdr>)
    ensures Loads(a + b) == Loads(a) + Loads(b) && |Loads(a)| <= |a|
  {
    if b == [] {
      assert a + b == a;
      if a != [] {
        LoadsConcat(a[..|a|-1], []);
        assert a[..|a|-1] + [] == a[..|a|-1];
      }
    } else {
      assert (a + b)[..|a + b|-1] == a + b[..|b|-1];
      LoadsConcat(a, b[..|b|-1]);
    }
  }

  function CmdsOf(loads: seq<Phdr>, page: nat): (r: seq<LoadCmd>)
    requires page > 0
    ensures |r| == |loads| && forall i | 0 <= i < |r| :: r[i] == CmdOf(loads[i], page)
  {
    seq(|loads|, i requires 0 <= i < |loads| => CmdOf(loads[i], page))
  }

  lemma HolesNeedTwo(cmds: seq<LoadCmd>)
    ensures HasHoles(cmds) ==> |cmds| > 1
  {
  }

  /** Every segment lies inside the file and is not smaller in memory than in the file. */
  ghost predicate InFile(loads: seq<Phdr>, file: seq<Byte>) {
    forall i | 0 <= i < |loads| :: loads[i].filesz <= loads[i].memsz && loads[i].offset + loads[i].filesz <= |file|
  }

  ghost predicate HasHoles(cmds: seq<LoadCmd>) {
    exists i, j :: 0 <= i < j < |cmds| && j == i + 1 && cmds[i].mapend != cmds[j].mapstart
  }

  // ---------- what lies between the segments ----------

  ghost predicate AllMapped(m: Memory, lo: int, hi: int) {
    forall a {:trigger m(a)} | lo <= a < hi :: m(a).Mapped?
  }

  ghost predicate NoAccess(m: Memory, lo: int, hi: int) {
    forall a {:trigger m(a)} | lo <= a < hi :: m(a).Mapped? && m(a).prot == NO_ACCESS
  }

  /** The address lies in the pages of some segment. */
  ghost predicate InSome(a: int, base: int, loads: seq<Phdr>, page: nat)
    requires page > 0
  {
    exists s :: 0 <= s < |loads| && base + First(loads[s], page) <= a < base + Last(loads[s], page)
  }

  /** Outside the pages of the segments nothing has changed. */
  ghost predicate KeptOutside(m: Memory, m': Memory, base: int, loads: seq<Phdr>, page: nat)
    requires page > 0
  {
    forall a {:trigger m'(a)} | !InSome(a, base, loads, page) :: m'(a) == m(a)
  }

  /** Between the file part of the first segment and the last segment, what belongs to no segment cannot be
      accessed. */
  ghost predicate GapsClosed(m: Memory, base: int, loads: seq<Phdr>, page: nat)
    requires page > 0 && loads != []
  {
    forall a {:trigger m(a)} |
      && base + RoundUp(loads[0].vaddr + loads[0].filesz, page) <= a < base + First(loads[|loads|-1], page)
      && !InSome(a, base, loads, page) ::
        m(a).Mapped? && m(a).prot == NO_ACCESS
  }

  lemma KeptInOne(m: Memory, m': Memory, base: int, loads: seq<Phdr>, i: nat, page: nat)
    requires page > 0 && i < |loads| && Kept(m, m', base + First(loads[i], page), base + Last(loads[i], page))
    ensures KeptOutside(m, m', base, loads, page)
  {
  }

  lemma KeptOutsideTwice(m: Memory, m': Memory, m'': Memory, base: int, loads: seq<Phdr>, page: nat)
    requires page > 0 && KeptOutside(m, m', base, loads, page) && KeptOutside(m', m'', base, loads, page)
    ensures KeptOutside(m, m'', base, loads, page)
  {
    hide InSome;
    assert forall a {:trigger m''(a)} | !InSome(a, base, loads, page) :: m''(a) == m'(a) == m(a);
  }

  lemma GapsStay(m: Memory, m': Memory, base: int, loads: seq<Phdr>, page: nat)
    requires page > 0 && loads != [] && GapsClosed(m, base, loads, page) && KeptOutside(m, m', base, loads, page)
    ensures GapsClosed(m', base, loads, page)
  {
    hide InSome, First, RoundUp;
  }

  lemma ClosedAtOnce(m: Memory, base: int, loads: seq<Phdr>, page: nat)
    requires page > 0 && loads != []
    requires NoAccess(m, base + CmdOf(loads[0], page).mapend, base + First(loads[|loads|-1], page))
    ensures GapsClosed(m, base, loads, page)
  {
    hide InSome, First;
  }

  /** Where every file part ends where the next one begins, there is nothing between the segments. */
  lemma {:induction false} NoHolesNoGaps(loads: seq<Phdr>, file: seq<Byte>, page: nat, n: nat, a: int)
    requires page > 0 && AllLoadable(loads, file, page) && n < |loads| && !HasHoles(CmdsOf(loads, page))
    requires CmdOf(loads[0], page).mapend <= a < First(loads[n], page)
    ensures InSome(a, 0, loads, page)
    decreases n
  {
    if n == 0 {
      CmdFacts(loads[0], file, page);
      assert false;
    }
    var cmds := CmdsOf(loads, page);
    assert cmds[n-1].mapend == cmds[n].mapstart;
    CmdFacts(loads[n-1], file, page);
    if a < First(loads[n-1], page) {
      NoHolesNoGaps(loads, file, page, n - 1, a);
    }
  }

  lemma NothingToClose(m: Memory, base: int, loads: seq<Phdr>, file: seq<Byte>, page: nat)
    requires page > 0 && loads != [] && AllLoadable(loads, file, page) && !HasHoles(CmdsOf(loads, page))
    ensures GapsClosed(m, base, loads, page)
  {
    var n := |loads| - 1;
    forall a | base + CmdOf(loads[0], page).mapend <= a < base + First(loads[n], page)
      ensures InSome(a, base, loads, page)
    {
      NoHolesNoGaps(loads, file, page, n, a - base);
      var s :| 0 <= s < |loads| && First(loads[s], page) <= a - base < Last(loads[s], page);
    }
  }

  /** Reads the program headers: the load commands, or the first complaint. */
  method Collect(phdrs: seq<Phdr>, page: nat) returns (error: LoadError, cmds: seq<LoadCmd>, hasHoles: bool)
    requires page > 0
    ensures error == if FirstError(phdrs, page) != NoError then FirstError(phdrs, page)
                     else if Loads(phdrs) == [] then NoSegments else NoError
    ensures FirstError(phdrs, page) == NoError ==> cmds == CmdsOf(Loads(phdrs), page) && (hasHoles <==> HasHoles(cmds))
  {
    cmds, hasHoles := [], false;
    NothingCollected(phdrs, page);
    hide *;
    for i := 0 to |phdrs|
      invariant FirstError(phdrs[..i], page) == NoError
      invariant cmds == CmdsOf(Loads(phdrs[..i]), page) && (hasHoles <==> HasHoles(cmds))
    {
      var ph := phdrs[i];
      CollectStep(phdrs, i, page);
      if ph.kind == Load {
        if And(ph.align, page - 1) != 0 {
          FirstErrorStays(phdrs, i + 1, page);
          return NotPageAligned, cmds, hasHoles;
        }
        if And(Minus(ph.vaddr, ph.offset), Minus(ph.align, 1)) != 0 {
          FirstErrorStays(phdrs, i + 1, page);
          return NotCongruent, cmds, hasHoles;
        }
        var c := CmdOf(ph, page);
        ghost var before := cmds;
        if |cmds| > 0 && cmds[|cmds|-1].mapend != c.mapstart {
          hasHoles := true;
        }
        cmds := cmds + [c];
        HolesStep(before, c);
      }
    }
    assert phdrs[..|phdrs|] == phdrs;
    error := if cmds == [] then NoSegments else NoError;
  }

  lemma NothingCollected(phdrs: seq<Phdr>, page: nat)
    requires page > 0
    ensures FirstError(phdrs[..0], page) == NoError && CmdsOf(Loads(phdrs[..0]), page) == [] && !HasHoles([])
  {
  }

  lemma CollectStep(phdrs: seq<Phdr>, i: nat, page: nat)
    requires page > 0 && i < |phdrs| && FirstError(phdrs[..i], page) == NoError
    ensures var ph := phdrs[i];
      && (ph.kind != Load ==> FirstError(phdrs[..i+1], page) == NoError && Loads(phdrs[..i+1]) == Loads(phdrs[..i]))
      && (ph.kind == Load ==>
            && (FirstError(phdrs[..i+1], page) ==
                  if And(ph.align, page - 1) != 0 then NotPageAligned
                  else if And(Minus(ph.vaddr, ph.offset), Minus(ph.align, 1)) != 0 then NotCongruent
                  else NoError)
            && CmdsOf(Loads(phdrs[..i+1]), page) == CmdsOf(Loads(phdrs[..i]), page) + [CmdOf(ph, page)])
  {
    hide And, Minus, CmdOf;
    assert phdrs[..i+1][..i] == phdrs[..i];
  }

  lemma HolesStep(cmds: seq<LoadCmd>, c: LoadCmd)
    ensures HasHoles(cmds + [c]) <==> HasHoles(cmds) || (|cmds| > 0 && cmds[|cmds|-1].mapend != c.mapstart)
  {
    var more := cmds + [c];
    if HasHoles(cmds) {
      var i, j :| 0 <= i < j < |cmds| && j == i + 1 && cmds[i].mapend != cmds[j].mapstart;
      assert more[i].mapend != more[j].mapstart;
    }
    if |cmds| > 0 && cmds[|cmds|-1].mapend != c.mapstart {
      assert more[|cmds|-1].mapend != more[|cmds|].mapstart;
    }
  }

  lemma {:induction false} FirstErrorStays(phdrs: seq<Phdr>, n: nat, page: nat)
    requires page > 0 && n <= |phdrs| && FirstError(phdrs[..n], page) != NoError
    ensures FirstError(phdrs, page) == FirstError(phdrs[..n], page)
  {
    if n < |phdrs| {
      var init := phdrs[..|phdrs|-1];
      assert init[..n] == phdrs[..n];
      FirstErrorStays(init, n, page);
    } else {
      assert phdrs[..n] == phdrs;
    }
  }

  /** Headers that pass the checks are congruent. */
  lemma {:induction false} ChecksPassed(phdrs: seq<Phdr>, k: nat)
    requires k <= WORD_BITS && FirstError(phdrs, Pow2(k)) == NoError
    requires forall ph | ph in phdrs :: ph.align < Pow2(WORD_BITS)
    ensures forall ph | ph in Loads(phdrs) :: Aligned(ph.vaddr - ph.offset, Pow2(k))
  {
    if phdrs != [] {
      var init, ph := phdrs[..|phdrs|-1], phdrs[|phdrs|-1];
      ChecksPassed(init, k);
      if ph.kind == Load {
        ChecksForceCongruence(ph.vaddr, ph.offset, ph.align, k);
      }
    }
  }

  /** The complaint about a program header, in the terms of the gABI, for an alignment that is a power of two. */
  lemma CheckMeans(ph: Phdr, k: nat, j: nat)
    requires k <= WORD_BITS && j < WORD_BITS && ph.align == Pow2(j)
    ensures CheckOf(ph, Pow2(k)) ==
      if ph.kind != Load then NoError
      else if j < k then NotPageAligned
      else if !Aligned(ph.vaddr - ph.offset, Pow2(j)) then NotCongruent
      else NoError
  {
    hide And, Minus, Pow2;
    AndLowMask(Pow2(j), k);
    if j < k {
      PowerIsBelow(j, k);
    } else {
      Pow2Divides(j, k);
      PowerIsBelow(j, WORD_BITS);
      MinusOne(Pow2(j));
      AndLowMask(Minus(ph.vaddr, ph.offset), j);
      MinusIsCongruent(ph.vaddr, ph.offset, j);
    }
  }

  /** And for an alignment of 0, which asks for address and offset to be the same. */
  lemma CheckOfNoAlignment(ph: Phdr, k: nat)
    requires k <= WORD_BITS && ph.kind == Load && ph.align == 0
    ensures CheckOf(ph, Pow2(k)) == if Minus(ph.vaddr, ph.offset) == 0 then NoError else NotCongruent
  {
    AndLowMask(0, k);
    LowOfZero(k);
    MinusOne(0);
    AndLowMask(Minus(ph.vaddr, ph.offset), WORD_BITS);
    MinusIsWord(ph.vaddr, ph.offset);
    hide And, Minus, Pow2;
  }

  /** The complaint about a list of headers is that about the first one that fails a check. */
  lemma {:induction false} FirstErrorIff(phdrs: seq<Phdr>, page: nat)
    requires page > 0
    ensures FirstError(phdrs, page) == NoError <==> forall i | 0 <= i < |phdrs| :: CheckOf(phdrs[i], page) == NoError
    ensures forall i | 0 <= i < |phdrs| && CheckOf(phdrs[i], page) != NoError
              && (forall j | 0 <= j < i :: CheckOf(phdrs[j], page) == NoError) ::
                FirstError(phdrs, page) == CheckOf(phdrs[i], page)
  {
    hide CheckOf;
    if phdrs != [] {
      var init := phdrs[..|phdrs|-1];
      FirstErrorIff(init, page);
      assert forall i | 0 <= i < |init| :: init[i] == phdrs[i];
    }
  }

  lemma MinusAligned(a: int, page: nat)
    requires page > 0 && Aligned(a, page)
    ensures Aligned(-a, page)
  {
    ZeroIsAligned(page);
    AlignedSum(a, 0, page);
  }

  lemma PageIsAligned(page: nat)
    requires page > 0
    ensures Aligned(page, page)
  {
    DivisionIsUnique(page, page, 1, 0);
  }

  lemma ZeroIsAligned(page: nat)
    requires page > 0
    ensures Aligned(0, page)
  {
  }

  // ---------- the collective mappings of a load ----------

  datatype Request = Request(len: int, prot: Prot, flags: MapFlags, off: int)

  /** What one process brought to the conjunction after a request, and what it was told. */
  datatype Vote = Vote(request: Request, mine: bool, all: bool)

  /** The fixed mappings for the file parts of these load commands. */
  function Remaps(cmds: seq<LoadCmd>): seq<Request> {
    if cmds == [] then [] else Remaps(cmds[..|cmds|-1]) + RemapOf(cmds[|cmds|-1])
  }

  function RemapOf(c: LoadCmd): seq<Request> {
    if c.mapend > c.mapstart then [Request(c.mapend - c.mapstart, c.prot, MapFlags(true, false, false), c.mapoff)] else []
  }

  /** All file mappings of an object: the first segment of a shared object gets one mapping for all. */
  function RequestsOf(cmds: seq<LoadCmd>, dyn: bool): seq<Request> {
    if dyn && cmds != [] then
      [Request(cmds[|cmds|-1].allocend - cmds[0].mapstart, cmds[0].prot, MapFlags(false, false, false), cmds[0].mapoff)]
      + Remaps(cmds[1..])
    else Remaps(cmds)
  }

  /** All of them are private mappings of the file, at a fixed address but for the first of a shared object. */
  lemma RequestsArePrivate(cmds: seq<LoadCmd>, dyn: bool)
    ensures forall j | 0 <= j < |RequestsOf(cmds, dyn)| ::
              var flags := RequestsOf(cmds, dyn)[j].flags;
              !flags.anonymous && !flags.shared && (flags.fixed <==> !dyn || j > 0)
  {
    RemapsArePrivate(cmds);
    if cmds != [] {
      RemapsArePrivate(cmds[1..]);
    }
  }

  lemma {:induction false} RemapsArePrivate(cmds: seq<LoadCmd>)
    ensures forall r | r in Remaps(cmds) :: r.flags.fixed && !r.flags.anonymous && !r.flags.shared
  {
    if cmds != [] {
      RemapsArePrivate(cmds[..|cmds|-1]);
    }
  }

  /** The requests were put one after the other, and all granted but perhaps the last one. */
  ghost predicate Votes(votes: seq<Vote>, requests: seq<Request>, fine: bool) {
    && |votes| == |requests|
    && forall j | 0 <= j < |votes| ::
         && votes[j].request == requests[j] && (votes[j].all ==> votes[j].mine)
         && (votes[j].all <==> fine || j < |votes| - 1)
  }

  ghost predicate Voted(was: seq<Vote>, now: seq<Vote>, requests: seq<Request>, fine: bool) {
    |was| <= |now| && now[..|was|] == was && Votes(now[|was|..], requests, fine)
  }

  /** How a load that ended with this error has put the first of its requests: all of them if there was no
      error; if a mapping failed, up to the one that was not granted. */
  ghost predicate Asked(was: seq<Vote>, now: seq<Vote>, requests: seq<Request>, error: LoadError) {
    var n := |now| - |was|;
    && 0 <= n <= |requests| && Voted(was, now, requests[..n], error != MapError)
    && (error == NoError ==> n == |requests|) && (error == MapError ==> n > 0)
  }

  lemma VotedTwice(was: seq<Vote>, mid: seq<Vote>, now: seq<Vote>, a: seq<Request>, b: seq<Request>, fine: bool)
    requires Voted(was, mid, a, true) && Voted(mid, now, b, fine) && (b == [] ==> fine)
    ensures Voted(was, now, a + b, fine)
  {
    assert now[|was|..] == mid[|was|..] + now[|mid|..];
    assert now[..|was|] == now[..|mid|][..|was|];
  }

  lemma NothingVoted(was: seq<Vote>)
    ensures Voted(was, was, [], true)
  {
  }

  lemma RemapsStep(cmds: seq<LoadCmd>, start: nat, i: nat)
    requires start <= i < |cmds|
    ensures Remaps(cmds[start..i+1]) == Remaps(cmds[start..i]) + RemapOf(cmds[i])
  {
    assert cmds[start..i+1][..i-start] == cmds[start..i];
  }

  lemma {:induction false} RemapsPrefix(cmds: seq<LoadCmd>, n: nat)
    requires n <= |cmds|
    ensures |Remaps(cmds[..n])| <= |Remaps(cmds)| && Remaps(cmds)[..|Remaps(cmds[..n])|] == Remaps(cmds[..n])
  {
    if n == |cmds| {
      assert cmds[..n] == cmds;
    } else {
      assert cmds[..|cmds|-1][..n] == cmds[..n];
      RemapsPrefix(cmds[..|cmds|-1], n);
    }
  }

  /** A load that has put the requests of the commands from start to n. */
  lemma AskedSome(was: seq<Vote>, now: seq<Vote>, cmds: seq<LoadCmd>, start: nat, n: nat, error: LoadError)
    requires start <= n <= |cmds| && Voted(was, now, Remaps(cmds[start..n]), error != MapError)
    requires (error == NoError ==> n == |cmds|) && (error == MapError ==> Remaps(cmds[start..n]) != [])
    ensures Asked(was, now, Remaps(cmds[start..]), error)
  {
    assert cmds[start..][..n-start] == cmds[start..n] && cmds[start..|cmds|] == cmds[start..];
    RemapsPrefix(cmds[start..], n - start);
  }

  lemma OneMoreVoted(was: seq<Vote>, mid: seq<Vote>, now: seq<Vote>, cmds: seq<LoadCmd>, start: nat, i: nat, error: LoadError)
    requires start <= i < |cmds| && Voted(was, mid, Remaps(cmds[start..i]), true)
    requires Voted(mid, now, RemapOf(cmds[i]), error != MapError) && (error == MapError ==> RemapOf(cmds[i]) != [])
    ensures Voted(was, now, Remaps(cmds[start..i+1]), error != MapError)
    ensures error != NoError ==> Asked(was, now, Remaps(cmds[start..]), error)
  {
    RemapsStep(cmds, start, i);
    VotedTwice(was, mid, now, Remaps(cmds[start..i]), RemapOf(cmds[i]), error != MapError);
    if error != NoError {
      AskedSome(was, now, cmds, start, i + 1, error);
    }
  }

  /** The mapping of all segments, and then the fixed ones. */
  lemma AskedAfterFirst(was: seq<Vote>, mid: seq<Vote>, now: seq<Vote>, cmds: seq<LoadCmd>, error: LoadError)
    requires cmds != [] && Voted(was, mid, RequestsOf(cmds, true)[..1], true) && Asked(mid, now, Remaps(cmds[1..]), error)
    ensures Asked(was, now, RequestsOf(cmds, true), error)
  {
    var rs, n := RequestsOf(cmds, true), |now| - |mid|;
    assert rs[1..] == Remaps(cmds[1..]) && rs[..n+1] == rs[..1] + Remaps(cmds[1..])[..n];
    VotedTwice(was, mid, now, rs[..1], Remaps(cmds[1..])[..n], error != MapError);
  }

  /** A load that ended after the first mapping. */
  lemma AskedFirst(was: seq<Vote>, now: seq<Vote>, cmds: seq<LoadCmd>, error: LoadError)
    requires cmds != [] && Voted(was, now, RequestsOf(cmds, true)[..1], error != MapError) && error != NoError
    ensures Asked(was, now, RequestsOf(cmds, true), error)
  {
  }

  lemma AskedNothing(was: seq<Vote>, cmds: seq<LoadCmd>)
    ensures Asked(was, was, RequestsOf(cmds, false), CannotLoad)
  {
  }

  lemma AskedFixed(cmds: seq<LoadCmd>)
    ensures RequestsOf(cmds, false) == Remaps(cmds[0..])
  {
    assert cmds[0..] == cmds;
  }

  // ---------- one process ----------

  datatype LoadError = NoError | NotPageAligned | NotCongruent | NoSegments | CannotLoad | MapError | ProtError | ZeroFillError

  datatype LoadResult = Failed(error: LoadError) | LoadedAt(base: int)

  datatype MapResult = MapFailed | At(addr: int)

  /** Without a communicator; on rank 0; on any other rank. */
  datatype Role = Independent | Root | Other

  class Process {
    const page: nat
    const role: Role
    const file: seq<Byte>
    const fd: int
    /** The entry of DLOpenFiles for fd, unless the role is Independent. */
    var link: FileLink
    var cells: Memory
    /** Whether the kernel, or another rank, has refused something. */
    var refused: bool
    /** What has gone through the conjunctions of the file layer so far. */
    ghost var votes: seq<Vote>

    /** The file has been opened, collectively unless the role is Independent. */
    ghost predicate Opened()
      reads `link
    {
      && page > 0 && fd >= 0
      && (role != Independent ==>
            link.fd == fd && link.len == |file| && link.totallen == RoundUp(|file|, page))
      && (role.Other? ==>
            |link.mem| == link.totallen
            && forall i | 0 <= i < |link.mem| :: link.mem[i] == if i < |file| then file[i] else 0)
    }

    constructor (page: nat, role: Role, file: seq<Byte>, link: FileLink, cells: Memory)
      ensures this.page == page && this.role == role && this.file == file && this.fd == link.fd
      ensures this.link == link && this.cells == cells && !refused && votes == []
    {
      this.page, this.role, this.file, this.fd := page, role, file, link.fd;
      this.link, this.cells, refused, votes := link, cells, false, [];
    }

    // ----- the kernel -----

    ghost predicate Sound(addr: int, len: nat, src: Source)
      requires page > 0
    {
      Aligned(addr, page) && len > 0 && (src.FromFile? ==> Aligned(src.off, page))
    }

    /** mmap with MAP_FIXED. */
    method KernelMap(addr: int, len: nat, prot: Prot, src: Source) returns (ok: bool)
      requires page > 0
      modifies `cells, `refused
      ensures refused <==> old(refused) || (!ok && Sound(addr, len, src))
      ensures ok ==> Sound(addr, len, src)
      ensures cells == if ok then Paint(old(cells), file, page, addr, RoundUp(len, page), src, prot) else old(cells)
    {
      ok := *;
      if addr % page != 0 || len == 0 || (src.FromFile? && src.off % page != 0) {
        ok := false;
      } else if ok {
        cells := Paint(cells, file, page, addr, RoundUp(len, page), src, prot);
      } else {
        refused := true;
      }
    }

    /** mmap without MAP_FIXED: the kernel picks free pages. */
    method KernelMapAnywhere(len: nat, prot: Prot, src: Source) returns (r: MapResult)
      requires page > 0
      modifies `cells, `refused
      ensures refused <==> old(refused) || (r.MapFailed? && Sound(0, len, src))
      ensures r.MapFailed? ==> cells == old(cells)
      ensures r.At? ==> Aligned(r.addr, page) && FreeAt(old(cells), r.addr, r.addr + RoundUp(len, page))
      ensures r.At? ==> cells == Paint(old(cells), file, page, r.addr, RoundUp(len, page), src, prot)
    {
      ZeroIsAligned(page);
      var pick: int := *;
      if len == 0 || (src.FromFile? && src.off % page != 0) {
        return MapFailed;
      }
      if pick % page != 0 || exists a :: pick <= a < pick + RoundUp(len, page) && cells(a) != Unmapped {
        refused := true;
        return MapFailed;
      }
      cells := Paint(cells, file, page, pick, RoundUp(len, page), src, prot);
      return At(pick);
    }

    method Mprotect(addr: int, len: nat, prot: Prot) returns (ok: bool)
      requires page > 0
      modifies `cells, `refused
      ensures old(refused) ==> refused
      ensures ok ==> refused == old(refused)
      ensures ok ==> Aligned(addr, page) && forall a | addr <= a < addr + RoundUp(len, page) :: old(cells)(a) != Unmapped
      ensures !ok ==> (refused || !Aligned(addr, page)
          || exists a :: addr <= a < addr + RoundUp(len, page) && old(cells)(a) == Unmapped)
      ensures cells == if ok then Protect(old(cells), addr, RoundUp(len, page), prot) else old(cells)
    {
      ok := *;
      if addr % page != 0 || exists a :: addr <= a < addr + RoundUp(len, page) && cells(a) == Unmapped {
        ok := false;
      } else if ok {
        cells := Protect(cells, addr, RoundUp(len, page), prot);
      } else {
        refused := true;
      }
    }

    /** memmove and memset into this address space; writing what is not writable is a fault. */
    method Store(addr: int, data: seq<Byte>)
      requires forall a | addr <= a < addr + |data| :: Writable(cells(a))
      modifies `cells
      ensures cells == Write(old(cells), addr, data)
    {
      cells := Write(cells, addr, data);
    }

    // ----- the collective layer -----

    /** Allreduce with MPI_LAND: true only if every rank brought true. */
    method AllHave(mine: bool, ghost request: Request) returns (all: bool)
      modifies `refused, `votes
      ensures Voted(old(votes), votes, [request], all) && votes[|old(votes)|] == Vote(request, mine, all)
      ensures all ==> mine && refused == old(refused)
      ensures mine && !all ==> refused
      ensures old(refused) ==> refused
    {
      var others: bool := *;
      all := mine && others;
      votes := votes + [Vote(request, mine, all)];
      refused := refused || (mine && !others);
    }

    /** The part of [addr, addr + n) that the file fills shows the file, everything has the protection.
        Rank 0's copy has it at once; elsewhere a refused mprotect leaves the pages as they were made. */
    ghost predicate Shows(m: Memory, addr: int, n: int, off: int, prot: Prot, exact: bool)
      requires page > 0
    {
      forall a {:trigger m(a)} | addr <= a < addr + n ::
        && m(a).Mapped? && (m(a).prot == prot || (!exact && m(a).prot == READ_WRITE))
        && (off + a - addr < RoundUp(|file|, page) ==> m(a).content == ContentAt(file, page, FromFile(off), a - addr))
    }

    lemma PaintedShows(m: Memory, addr: int, n: nat, src: Source, prot: Prot)
      requires page > 0
      ensures var m' := Paint(m, file, page, addr, n, src, prot);
        && Kept(m, m', addr, addr + n)
        && (src.FromFile? ==> Shows(m', addr, n, src.off, prot, true))
        && (src.Zeros? ==> AllZero(m', addr, n, prot))
    {
      assert src.Zeros? ==> forall i :: ContentAt(file, page, src, i) == Holds(0);
    }

    /** Copying the process's own copy of the file into fresh pages shows the file there. */
    lemma CopiedShows(m: Memory, addr: int, n: nat, shown: nat, data: seq<Byte>, off: nat, prot: Prot)
      requires page > 0 && AllZero(m, addr, n, READ_WRITE) && |data| <= n && shown <= n
      requires forall i | 0 <= i < |data| :: Holds(data[i]) == ContentAt(file, page, FromFile(off), i)
      requires off + |data| >= RoundUp(|file|, page) || shown <= |data|
      ensures var m' := Write(m, addr, data); var m'' := Protect(m', addr, n, prot);
        && Kept(m, m', addr, addr + n) && Shows(m', addr, shown, off, prot, false)
        && Kept(m, m'', addr, addr + n) && Shows(m'', addr, shown, off, prot, true)
        && forall a {:trigger m'(a)} | addr <= a < addr + n :: m'(a) != Unmapped
    {
      hide RoundUp;
    }

    /** The process's own copy agrees with the file as a mapping would show it. */
    lemma OwnCopy(off: nat, n: nat)
      requires Opened() && role.Other? && off + n <= |link.mem|
      ensures forall i | 0 <= i < n :: Holds(link.mem[off..off+n][i]) == ContentAt(file, page, FromFile(off), i)
    {
      hide RoundUp;
    }

    lemma ShowsLess(m: Memory, addr: int, n: nat, shown: nat, off: int, prot: Prot)
      requires page > 0 && shown <= n && Shows(m, addr, n, off, prot, true)
      ensures Shows(m, addr, shown, off, prot, true) && Shows(m, addr, shown, off, prot, false)
    {
    }

    /** Fills fresh pages from the process's own copy of the file. */
    method FillFromCopy(addr: int, len: nat, data: seq<Byte>, ghost shown: nat, ghost off: nat, prot: Prot)
      requires page > 0 && Aligned(addr, page)
      requires AllZero(cells, addr, RoundUp(len, page), READ_WRITE) && |data| <= RoundUp(len, page) && shown <= RoundUp(len, page)
      requires forall i | 0 <= i < |data| :: Holds(data[i]) == ContentAt(file, page, FromFile(off), i)
      requires off + |data| >= RoundUp(|file|, page) || shown <= |data|
      modifies `cells, `refused
      ensures old(refused) ==> refused
      ensures Kept(old(cells), cells, addr, addr + RoundUp(len, page)) && Shows(cells, addr, shown, off, prot, !refused)
    {
      CopiedShows(cells, addr, RoundUp(len, page), shown, data, off, prot);
      assert forall a | addr <= a < addr + |data| :: Writable(cells(a));
      hide Shows, Kept, Write, Protect, AllZero, RoundUp, ContentAt;
      Store(addr, data);
      var ok := Mprotect(addr, len, prot);
      if ok && refused {
        ShowsLess(cells, addr, shown, shown, off, prot);
      }
    }

    /** The MAP_FIXED branch of collfs_mmap. */
    method Remap(addr: int, len: nat, prot: Prot, ghost flags: MapFlags, off: nat) returns (r: MapResult)
      requires Opened() && role != Independent && off + len <= link.totallen
      modifies `cells, `refused, `votes
      ensures old(refused) ==> refused
      ensures Voted(old(votes), votes, [Request(len, prot, flags, off)], r.At?)
      ensures Kept(old(cells), cells, addr, addr + RoundUp(len, page)) && (r.At? ==> r.addr == addr)
      ensures r.At? ==> Shows(cells, addr, len, off, prot, !refused)
      ensures r.MapFailed? && Sound(addr, len, FromFile(off)) ==> refused
    {
      ghost var n := RoundUp(len, page);
      PaintedShows(cells, addr, n, if role.Root? then FromFile(off) else Zeros, if role.Root? then prot else READ_WRITE);
      NothingChanged(cells, addr, addr + n);
      hide Shows, Kept, AllZero, Paint, RoundUp, ContentAt, Voted;
      ghost var m := cells;
      var ok;
      if role.Root? {
        ok := KernelMap(addr, len, prot, FromFile(off));
      } else {
        ok := KernelMap(addr, len, READ_WRITE, Zeros);
      }
      var gotmem := AllHave(ok, Request(len, prot, flags, off));
      if !gotmem {
        return MapFailed;
      }
      if role.Other? {
        OwnCopy(off, len);
        ghost var m' := cells;
        FillFromCopy(addr, len, link.mem[off..off+len], len, off, prot);
        KeptTwice(m, m', cells, addr, addr + n);
      } else {
        ShowsLess(cells, addr, n, len, off, prot);
      }
      return At(addr);
    }

    /** The branch of collfs_mmap without MAP_FIXED: a new private mapping, at a place of its own. */
    method Extend(len: nat, prot: Prot, ghost flags: MapFlags, off: nat) returns (r: MapResult)
      requires Opened() && role != Independent
      requires role.Other? ==> off + CopyLength(link, RoundUp(len, page)) <= |link.mem|
      modifies `cells, `refused, `link, `votes
      ensures old(refused) ==> refused
      ensures Voted(old(votes), votes, [Request(len, prot, flags, off)], r.At?)
      ensures link == old(link).(refct := link.refct) && link.refct == old(link).refct + if r.At? then 1 else 0
      ensures r.At? ==> Aligned(r.addr, page) && Kept(old(cells), cells, r.addr, r.addr + RoundUp(len, page))
      ensures r.At? ==> FreeAt(old(cells), r.addr, r.addr + RoundUp(len, page))
      ensures Confined(old(cells), cells, RoundUp(len, page))
      ensures r.At? ==> Shows(cells, r.addr, RoundUp(len, page), off, prot, !refused)
      ensures r.MapFailed? && Sound(0, len, FromFile(off)) ==> refused
    {
      var totallen := RoundUp(len, page);
      RoundUpOfAligned(totallen, page);
      ghost var m := cells;
      PaintedAnywhere(cells, totallen, if role.Root? then FromFile(off) else Zeros, if role.Root? then prot else READ_WRITE);
      hide Shows, Kept, AllZero, Paint, RoundUp, ContentAt, Voted, FreeAt, Confined;
      NothingDisturbed(m, totallen);
      if role.Root? {
        r := KernelMapAnywhere(totallen, prot, FromFile(off));
      } else {
        r := KernelMapAnywhere(totallen, READ_WRITE, Zeros);
      }
      if r.At? {
        KeptOnFree(m, cells, r.addr, totallen);
      }
      var gotmem := AllHave(r.At?, Request(len, prot, flags, off));
      if !gotmem {
        return MapFailed;
      }
      if role.Other? {
        var copylen := CopyLength(link, totallen);
        OwnCopy(off, copylen);
        ghost var m' := cells;
        FillFromCopy(r.addr, len, link.mem[off..off+copylen], totallen, off, prot);
        KeptTwice(m, m', cells, r.addr, r.addr + totallen);
        KeptOnFree(m, cells, r.addr, totallen);
      } else {
        ShowsLess(cells, r.addr, totallen, totallen, off, prot);
      }
      link := link.(refct := link.refct + 1);
    }

    lemma PaintedAnywhere(m: Memory, n: nat, src: Source, prot: Prot)
      requires page > 0
      ensures forall addr :: var m' := Paint(m, file, page, addr, n, src, prot);
        && Kept(m, m', addr, addr + n)
        && (src.FromFile? ==> Shows(m', addr, n, src.off, prot, true))
        && (src.Zeros? ==> AllZero(m', addr, n, prot))
    {
      hide *;
      forall addr ensures var m' := Paint(m, file, page, addr, n, src, prot);
        && Kept(m, m', addr, addr + n)
        && (src.FromFile? ==> Shows(m', addr, n, src.off, prot, true))
        && (src.Zeros? ==> AllZero(m', addr, n, prot))
      {
        PaintedShows(m, addr, n, src, prot);
      }
    }

    /** A request that nothing but a refusal can make fail. */
    ghost predicate Plausible(addr: int, len: nat, prot: Prot, flags: MapFlags, fildes: int, off: int)
      requires page > 0
      reads `link
    {
      && len > 0 && off >= 0
      && (flags.fixed ==> Aligned(addr, page))
      && (!flags.anonymous ==> Aligned(off, page))
      && (role != Independent && fildes == fd ==> !BranchOf(link, len, prot, flags, off).Refuse?)
    }

    /** mmap through the system call alone. */
    method PlainMmap(addr: int, len: nat, prot: Prot, flags: MapFlags, off: int) returns (r: MapResult)
      requires page > 0
      modifies `cells, `refused
      ensures old(refused) ==> refused
      ensures r.At? && flags.fixed ==> r.addr == addr
      ensures r.At? && !flags.fixed ==> Aligned(r.addr, page)
      ensures r.At? ==> Kept(old(cells), cells, r.addr, r.addr + RoundUp(len, page))
      ensures flags.fixed ==> Kept(old(cells), cells, addr, addr + RoundUp(len, page))
      ensures !flags.fixed ==> Confined(old(cells), cells, RoundUp(len, page))
      ensures !flags.fixed && r.At? ==> FreeAt(old(cells), r.addr, r.addr + RoundUp(len, page))
      ensures r.At? && !flags.anonymous ==> Shows(cells, r.addr, RoundUp(len, page), off, prot, !refused)
      ensures r.At? && flags.anonymous ==> AllZero(cells, r.addr, RoundUp(len, page), prot)
      ensures (r.MapFailed? && len > 0 && (flags.fixed ==> Aligned(addr, page)) &&
          (!flags.anonymous ==> Aligned(off, page))) ==> refused
    {
      ghost var n := RoundUp(len, page);
      var src := if flags.anonymous then Zeros else FromFile(off);
      ZeroIsAligned(page);
      PaintedAnywhere(cells, n, src, prot);
      ghost var m := cells;
      NothingChanged(m, addr, addr + n);
      NothingDisturbed(m, n);
      hide Shows, Kept, AllZero, Paint, RoundUp, ContentAt, Aligned, FreeAt, Confined;
      if flags.fixed {
        var ok := KernelMap(addr, len, prot, src);
        r := if ok then At(addr) else MapFailed;
      } else {
        r := KernelMapAnywhere(len, prot, src);
        if r.At? {
          KeptOnFree(m, cells, r.addr, n);
        }
      }
      if r.At? && !flags.anonymous {
        ShowsLess(cells, r.addr, n, n, off, prot);
      }
    }

    /** A request that comes to a conjunction. */
    ghost predicate Consults(len: nat, prot: Prot, flags: MapFlags, fildes: int, off: int)
      reads `link
    {
      role != Independent && fildes == fd && off >= 0 && !BranchOf(link, len, prot, flags, off).Refuse?
    }

    /** collfs_mmap, for the collective file and for anonymous memory. */
    method Mmap(addr: int, len: nat, prot: Prot, flags: MapFlags, fildes: int, off: int) returns (r: MapResult)
      requires Opened() && (flags.anonymous <==> fildes != fd)
      requires role.Other? && fildes == fd && off >= 0 && BranchOf(link, len, prot, flags, off).Extend? ==>
                 off + CopyLength(link, RoundUp(len, page)) <= |link.mem|
      modifies `cells, `refused, `link, `votes
      ensures Opened() && (old(refused) ==> refused)
      ensures r.At? && flags.fixed ==> r.addr == addr
      ensures r.At? ==> Kept(old(cells), cells, r.addr, r.addr + RoundUp(len, page))
      ensures flags.fixed ==> Kept(old(cells), cells, addr, addr + RoundUp(len, page))
      ensures !flags.fixed ==> Confined(old(cells), cells, RoundUp(len, page))
      ensures !flags.fixed && r.At? ==> FreeAt(old(cells), r.addr, r.addr + RoundUp(len, page))
      ensures r.At? && !flags.anonymous ==> Shows(cells, r.addr, len, off, prot, !refused)
      ensures r.At? && !flags.fixed ==> Aligned(r.addr, page)
      ensures r.At? && !flags.fixed && !flags.anonymous ==> Shows(cells, r.addr, RoundUp(len, page), off, prot, !refused)
      ensures r.At? && flags.anonymous ==> AllZero(cells, r.addr, RoundUp(len, page), prot)
      ensures r.MapFailed? && old(Plausible(addr, len, prot, flags, fildes, off)) ==> refused
      ensures if old(Consults(len, prot, flags, fildes, off))
              then Voted(old(votes), votes, [Request(len, prot, flags, off)], r.At?)
              else votes == old(votes) && (role != Independent && fildes == fd ==> r.MapFailed?)
      ensures link == if old(Consults(len, prot, flags, fildes, off)) && !flags.fixed && r.At?
                      then old(link).(refct := old(link).refct + 1) else old(link)
    {
      hide Shows, Kept, AllZero, Paint, RoundUp, ContentAt, Aligned, Voted, FreeAt, Confined;
      NothingChanged(cells, addr, addr + RoundUp(len, page));
      NothingDisturbed(cells, RoundUp(len, page));
      ZeroIsAligned(page);
      if role != Independent {
        if off < 0 {
          return MapFailed;
        }
        if fildes == fd {
          match BranchOf(link, len, prot, flags, off) {
            case Refuse(_) =>
              return MapFailed;
            case Remap =>
              r := Remap(addr, len, prot, flags, off);
              return;
            case Extend =>
              r := Extend(len, prot, flags, off);
              if r.At? {
                LessLong(cells, r.addr, RoundUp(len, page), len, off, prot, !refused);
              }
              return;
          }
        }
      }
      r := PlainMmap(addr, len, prot, flags, off);
      if r.At? && !flags.anonymous {
        LessLong(cells, r.addr, RoundUp(len, page), len, off, prot, !refused);
      }
    }

    // ----- one segment -----

    /** The bytes of the segment that come from the file. */
    lemma FilePart(m: Memory, base: int, ph: Phdr, exact: bool)
      requires page > 0 && Loadable(ph, file, page)
      requires var c := CmdOf(ph, page); Shows(m, base + c.mapstart, c.mapend - c.mapstart, c.mapoff, c.prot, exact)
      ensures PartImage(m, base, ph, ph.filesz, file)
      ensures exact ==> HasProt(m, base + ph.vaddr, base + ph.vaddr + ph.filesz, ph.prot)
    {
      CmdFacts(ph, file, page);
      hide RoundUp, RoundDown, Aligned, First, Last;
    }

    /** The last page of the file part: mapped, readable, and with the protection asked for. */
    ghost predicate PageReady(m: Memory, pg: int, prot: Prot, exact: bool) {
      forall a {:trigger m(a)} | pg <= a < pg + page ::
        m(a).Mapped? && m(a).content.Holds? && (m(a).prot == prot || (!exact && m(a).prot == READ_WRITE))
    }

    /** The last page of the file part, if it is not full: it lies in the file part, and can be written once
        it has write permission. */
    lemma LastPage(m: Memory, base: int, ph: Phdr, exact: bool)
      requires page > 0 && Loadable(ph, file, page) && Aligned(base, page)
      requires var c := CmdOf(ph, page); Shows(m, base + c.mapstart, c.mapend - c.mapstart, c.mapoff, c.prot, exact)
      ensures var c := CmdOf(ph, page); var zero := base + c.dataend; var pg := RoundDown(zero, page);
        && RoundUp(zero, page) == base + c.mapend
        && (zero < base + c.mapend ==>
              && base + c.mapstart <= pg <= zero < pg + page == base + c.mapend
              && PageReady(m, pg, ph.prot, exact))
    {
      CmdFacts(ph, file, page);
      var c := CmdOf(ph, page);
      var zero := base + c.dataend;
      RoundsShift(c.dataend, base, page);
      var pg := RoundDown(zero, page);
      AlignedSum(base, c.mapstart, page);
      AlignedSum(base, c.mapend, page);
      RoundsMonotone(base + c.mapstart, zero, page);
      RoundUpOfAligned(base + c.mapstart, page);
      if zero < base + c.mapend {
        AlignedApart(pg, base + c.mapend, page);
        if pg + page < base + c.mapend {
          AlignedSum(page, pg, page);
          PageIsAligned(page);
          AlignedApart(pg + page, base + c.mapend, page);
        }
      }
    }

    lemma PageUnlocked(m: Memory, pg: int, prot: Prot, exact: bool)
      requires PageReady(m, pg, prot, exact)
      ensures prot.w ==> forall a {:trigger m(a)} | pg <= a < pg + page :: Writable(m(a))
      ensures var m' := Protect(m, pg, page, prot.(w := true));
        Kept(m, m', pg, pg + page) && forall a {:trigger m'(a)} | pg <= a < pg + page ::
          Writable(m'(a)) && m'(a).content == m(a).content
    {
    }

    lemma ContentStays(m: Memory, m': Memory, pg: int, base: int, ph: Phdr, n: nat)
      requires ph.offset + ph.filesz <= |file| && PartImage(m, base, ph, n, file) && Kept(m, m', pg, pg + page)
      requires forall a {:trigger m'(a)} | pg <= a < pg + page :: m(a).Mapped? && m'(a).Mapped? && m'(a).content == m(a).content
      ensures PartImage(m', base, ph, n, file)
    {
    }

    lemma ZeroesWritten(m: Memory, base: int, ph: Phdr, pg: int, zero: int, n: nat)
      requires ph.offset + ph.filesz <= |file| && zero == base + ph.vaddr + ph.filesz && pg <= zero && zero + n <= pg + page
      requires PartImage(m, base, ph, ph.filesz, file)
      requires forall a {:trigger m(a)} | pg <= a < pg + page :: Writable(m(a))
      ensures var m' := Write(m, zero, seq(n, _ => 0));
        Kept(m, m', pg, pg + page) && PartImage(m', base, ph, ph.filesz + n, file)
        && forall a {:trigger m'(a)} | pg <= a < pg + page :: m'(a).Mapped? && m'(a).prot == m(a).prot
    {
    }

    lemma ProtectedAgain(m: Memory, base: int, ph: Phdr, pg: int, n: nat)
      requires ph.offset + ph.filesz <= |file| && PartImage(m, base, ph, n, file)
      requires forall a {:trigger m(a)} | pg <= a < pg + page :: m(a).Mapped?
      ensures var m' := Protect(m, pg, page, ph.prot);
        Kept(m, m', pg, pg + page) && PartImage(m', base, ph, n, file) && HasProt(m', pg, pg + page, ph.prot)
    {
    }

    lemma ProtsJoin(m: Memory, m': Memory, lo: int, zero: int, hi: int, pg: int, prot: Prot)
      requires Kept(m, m', pg, pg + page) && HasProt(m, lo, zero, prot) && HasProt(m', pg, pg + page, prot)
      requires pg <= zero && hi <= pg + page
      ensures HasProt(m', lo, hi, prot)
    {
    }

    /** Zeroes [zero, zeropage), lifting the write protection for the while. */
    method ZeroLastPage(ghost base: int, c: LoadCmd, ghost ph: Phdr, zero: int, zeropage: int) returns (error: LoadError)
      requires page > 0 && c == CmdOf(ph, page)
      requires Opened() && Loadable(ph, file, page) && Aligned(base, page)
      requires zero == base + ph.vaddr + ph.filesz < zeropage <= base + c.mapend && zeropage <= base + ph.vaddr + ph.memsz
      requires Shows(cells, base + c.mapstart, c.mapend - c.mapstart, c.mapoff, c.prot, !refused)
      modifies `cells, `refused
      ensures old(refused) ==> refused
      ensures error.NoError? || (error.ProtError? && refused)
      ensures Kept(old(cells), cells, base + c.mapstart, base + c.mapend)
      ensures error.NoError? ==> PartImage(cells, base, ph, zeropage - base - ph.vaddr, file)
      ensures !refused ==> HasProt(cells, base + ph.vaddr, zeropage, ph.prot)
    {
      var pg := RoundDown(zero, page);
      ghost var m, exact, lo, hi := cells, !refused, base + c.mapstart, base + c.mapend;
      FilePart(m, base, ph, exact);
      LastPage(m, base, ph, exact);
      error := ZeroInPage(base, c.prot, ph, zero, zeropage - zero, pg);
      KeptMore(m, cells, pg, pg + page, lo, hi);
    }

    /** The same, with the page at hand. */
    method ZeroInPage(ghost base: int, prot: Prot, ghost ph: Phdr, zero: int, n: nat, pg: int) returns (error: LoadError)
      requires page > 0 && prot == ph.prot && ph.offset + ph.filesz <= |file| && Aligned(pg, page)
      requires zero == base + ph.vaddr + ph.filesz && pg <= zero && zero + n <= pg + page
      requires PartImage(cells, base, ph, ph.filesz, file) && PageReady(cells, pg, ph.prot, !refused)
      requires !refused ==> HasProt(cells, base + ph.vaddr, zero, ph.prot)
      modifies `cells, `refused
      ensures old(refused) ==> refused
      ensures error.NoError? || (error.ProtError? && refused)
      ensures Kept(old(cells), cells, pg, pg + page)
      ensures error.NoError? ==> PartImage(cells, base, ph, ph.filesz + n, file)
      ensures !refused ==> HasProt(cells, base + ph.vaddr, zero + n, ph.prot)
    {
      PageIsAligned(page);
      RoundUpOfAligned(page, page);
      ghost var m, exact := cells, !refused;
      PageUnlocked(m, pg, prot, exact);
      NothingChanged(m, pg, pg + page);
      assert forall a | pg <= a < pg + page :: m(a) != Unmapped;
      hide PartImage, Kept, Protect, Write, Aligned, RoundUp, RoundDown;
      if prot.w {
        ZeroesWritten(m, base, ph, pg, zero, n);
        Store(zero, seq(n, _ => 0));
        if exact {
          ProtsJoin(m, cells, base + ph.vaddr, zero, zero + n, pg, prot);
        }
        return NoError;
      }
      var ok := Mprotect(pg, page, prot.(w := true));
      if !ok {
        return ProtError;
      }
      ghost var m1 := cells;
      ContentStays(m, m1, pg, base, ph, ph.filesz);
      ZeroesWritten(m1, base, ph, pg, zero, n);
      Store(zero, seq(n, _ => 0));
      ghost var m2 := cells;
      KeptTwice(m, m1, m2, pg, pg + page);
      ProtectedAgain(m2, base, ph, pg, ph.filesz + n);
      ok := Mprotect(pg, page, prot);
      if ok {
        KeptTwice(m, m2, cells, pg, pg + page);
        if !refused {
          ProtsJoin(m, cells, base + ph.vaddr, zero, zero + n, pg, prot);
        }
      }
      return NoError;
    }

    /** Maps the zero pages of a segment, from zeropage on. */
    method AddZeroPages(ghost base: int, prot: Prot, ghost ph: Phdr, zeropage: int, zeroend: int) returns (error: LoadError)
      requires Opened() && prot == ph.prot && zeroend == base + ph.vaddr + ph.memsz
      requires ph.offset + ph.filesz <= |file| && Aligned(zeropage, page) && base + First(ph, page) <= zeropage
      requires base + ph.vaddr + ph.filesz <= zeropage < base + ph.vaddr + ph.memsz
      requires zeropage + RoundUp(base + ph.vaddr + ph.memsz - zeropage, page) == base + Last(ph, page)
      requires PartImage(cells, base, ph, zeropage - base - ph.vaddr, file)
      requires !refused ==> HasProt(cells, base + ph.vaddr, zeropage, ph.prot)
      modifies `cells, `refused, `link, `votes
      ensures Opened() && (old(refused) ==> refused)
      ensures Kept(old(cells), cells, base + First(ph, page), base + Last(ph, page))
      ensures error.NoError? ==> PartImage(cells, base, ph, ph.memsz, file)
      ensures error.NoError? && !refused ==> HasProt(cells, base + ph.vaddr, base + ph.vaddr + ph.memsz, ph.prot)
      ensures error == NoError || (error == ZeroFillError && refused)
      ensures link == old(link) && votes == old(votes)
    {
      hide PartImage, HasProt, Kept, Aligned, RoundUp, RoundDown, AllZero;
      ghost var m := cells;
      var mapat := Mmap(zeropage, zeroend - zeropage, prot, MapFlags(true, true, false), -1, 0);
      KeptMore(m, cells, zeropage, base + Last(ph, page), base + First(ph, page), base + Last(ph, page));
      if mapat == MapFailed {
        return ZeroFillError;
      }
      ZeroPagesAdded(m, cells, base, ph, zeropage, RoundUp(zeroend - zeropage, page));
      return NoError;
    }

    /** Everything after the segment's file part has been mapped: zeros to the end of its last page, and
        fresh zero pages behind it. */
    method ZeroFill(base: int, c: LoadCmd, ghost ph: Phdr) returns (error: LoadError)
      requires Opened() && Loadable(ph, file, page) && Aligned(base, page) && c == CmdOf(ph, page)
      requires Shows(cells, base + c.mapstart, c.mapend - c.mapstart, c.mapoff, c.prot, !refused)
      modifies `cells, `refused, `link, `votes
      ensures Opened() && (old(refused) ==> refused)
      ensures Kept(old(cells), cells, base + First(ph, page), base + Last(ph, page))
      ensures error.NoError? && !refused ==> Image(cells, base, ph, file)
      ensures error.NoError? ==> PartImage(cells, base, ph, ph.memsz, file)
      ensures !error.NoError? ==> refused && error != MapError
      ensures link == old(link) && votes == old(votes)
    {
      CmdFacts(ph, file, page);
      FilePart(cells, base, ph, !refused);
      LastPage(cells, base, ph, !refused);
      EndOfSegment(base, ph);
      assert page > 0;
      hide Opened, Shows, PartImage, HasProt, Kept, Aligned, RoundUp, RoundDown, AllZero, Loadable, First, Last;
      ghost var m := cells;
      NothingChanged(m, base + First(ph, page), base + Last(ph, page));
      if c.allocend > c.dataend {
        var zero, zeroend := base + c.dataend, base + c.allocend;
        var zeropage := RoundUp(zero, page);
        if zeroend < zeropage {
          zeropage := zeroend;
        }
        if zeropage > zero {
          error := ZeroLastPage(base, c, ph, zero, zeropage);
          KeptMore(m, cells, base + c.mapstart, base + c.mapend, base + First(ph, page), base + Last(ph, page));
          if error != NoError {
            return;
          }
        }
        if zeroend > zeropage {
          ghost var m1 := cells;
          error := AddZeroPages(base, c.prot, ph, zeropage, zeroend);
          KeptTwice(m, m1, cells, base + First(ph, page), base + Last(ph, page));
          return;
        }
      }
      return NoError;
    }

    /** Where the zero pages of a segment end. */
    lemma EndOfSegment(base: int, ph: Phdr)
      requires page > 0 && Loadable(ph, file, page) && Aligned(base, page)
      ensures var zero := base + ph.vaddr + ph.filesz; var zeroend := base + ph.vaddr + ph.memsz;
          var zeropage := RoundUp(zero, page);
        && Aligned(zeropage, page) && base + First(ph, page) <= zeropage
        && zeropage + RoundUp(zeroend - zeropage, page) == base + Last(ph, page)
    {
      var zero, zeroend := base + ph.vaddr + ph.filesz, base + ph.vaddr + ph.memsz;
      var zeropage := RoundUp(zero, page);
      CmdFacts(ph, file, page);
      assert Aligned(zeropage, page) && First(ph, page) <= ph.vaddr && Last(ph, page) == RoundUp(ph.vaddr + ph.memsz, page);
      hide *;
      RoundsShift(ph.vaddr + ph.filesz, base, page);
      RoundsShift(ph.vaddr + ph.memsz, base, page);
      RoundsShift(zeroend - zeropage, zeropage, page);
    }

    lemma ZeroPagesAdded(m: Memory, m': Memory, base: int, ph: Phdr, zeropage: int, n: nat)
      requires ph.offset + ph.filesz <= |file| && Kept(m, m', zeropage, zeropage + n) && AllZero(m', zeropage, n, ph.prot)
      requires base + ph.vaddr + ph.filesz <= zeropage <= base + ph.vaddr + ph.memsz <= zeropage + n
      requires PartImage(m, base, ph, zeropage - base - ph.vaddr, file)
      ensures PartImage(m', base, ph, ph.memsz, file)
      ensures HasProt(m, base + ph.vaddr, zeropage, ph.prot) ==> HasProt(m', base + ph.vaddr, base + ph.vaddr + ph.memsz, ph.prot)
    {
    }

    /** One load command at its fixed address. */
    method MapSegment(base: int, c: LoadCmd, ghost ph: Phdr) returns (error: LoadError)
      requires Opened() && Loadable(ph, file, page) && Aligned(base, page) && c == CmdOf(ph, page)
      modifies `cells, `refused, `link, `votes
      ensures Opened() && (old(refused) ==> refused)
      ensures Kept(old(cells), cells, base + First(ph, page), base + Last(ph, page))
      ensures error.NoError? && !refused ==> Image(cells, base, ph, file)
      ensures error.NoError? ==> PartImage(cells, base, ph, ph.memsz, file)
      ensures !error.NoError? ==> refused
      ensures role != Independent ==>
                Voted(old(votes), votes, RemapOf(c), error != MapError) && (error == MapError ==> RemapOf(c) != [])
    {
      ghost var m, lo, hi := cells, base + First(ph, page), base + Last(ph, page);
      CmdFacts(ph, file, page);
      AlignedSum(base, c.mapstart, page);
      RoundUpOfAligned(c.mapend - c.mapstart, page);
      NothingChanged(m, lo, hi);
      NothingVoted(votes);
      NothingShown(m, base + c.mapstart, c.mapoff, c.prot, !refused);
      hide Shows, PartImage, HasProt, Image, Kept, Aligned, RoundUp, RoundDown, Loadable, Voted;
      if c.mapend > c.mapstart {
        var r := Mmap(base + c.mapstart, c.mapend - c.mapstart, c.prot, MapFlags(true, false, false), fd, c.mapoff);
        KeptMore(m, cells, base + c.mapstart, base + c.mapend, lo, hi);
        if r == MapFailed {
          return MapError;
        }
      }
      ghost var m1 := cells;
      error := ZeroFill(base, c, ph);
      KeptTwice(m, m1, cells, lo, hi);
    }

    lemma NothingShown(m: Memory, addr: int, off: int, prot: Prot, exact: bool)
      requires page > 0
      ensures Shows(m, addr, 0, off, prot, exact)
    {
    }

    // ----- all segments -----

    /** The first n segments are as they must be. */
    ghost predicate Images(m: Memory, base: int, loads: seq<Phdr>, n: nat, exact: bool)
      requires page > 0 && n <= |loads| && AllLoadable(loads, file, page)
    {
      forall i | 0 <= i < n ::
        PartImage(m, base, loads[i], loads[i].memsz, file) && (exact ==> Image(m, base, loads[i], file))
    }

    lemma ImagesStay(m: Memory, m': Memory, base: int, loads: seq<Phdr>, n: nat, exact: bool, exact': bool)
      requires page > 0 && n < |loads| && AllLoadable(loads, file, page) && InOrder(loads, page)
      requires Images(m, base, loads, n, exact) && (exact' ==> exact)
      requires Kept(m, m', base + First(loads[n], page), base + Last(loads[n], page))
      requires PartImage(m', base, loads[n], loads[n].memsz, file) && (exact' ==> Image(m', base, loads[n], file))
      ensures Images(m', base, loads, n + 1, exact')
    {
      forall i | 0 <= i < n ensures PartImage(m', base, loads[i], loads[i].memsz, file)
          && (exact' ==> Image(m', base, loads[i], file)) {
        CmdFacts(loads[i], file, page);
        ImageStays(m, m', base, loads[i], base + First(loads[n], page), base + Last(loads[n], page));
      }
    }

    lemma ImageStays(m: Memory, m': Memory, base: int, ph: Phdr, lo: int, hi: int)
      requires page > 0 && ph.offset + ph.filesz <= |file| && Kept(m, m', lo, hi) && base + ph.vaddr + ph.memsz <= lo
      ensures PartImage(m, base, ph, ph.memsz, file) ==> PartImage(m', base, ph, ph.memsz, file)
      ensures Image(m, base, ph, file) ==> Image(m', base, ph, file)
    {
    }

    /** One turn of the mapping loop. */
    method MapNext(base: int, c: LoadCmd, ghost loads: seq<Phdr>, ghost i: nat) returns (error: LoadError)
      requires Opened() && AllLoadable(loads, file, page) && InOrder(loads, page) && Aligned(base, page)
      requires i < |loads| && c == CmdOf(loads[i], page) && Images(cells, base, loads, i, !refused)
      modifies `cells, `refused, `link, `votes
      ensures Opened() && (old(refused) ==> refused)
      ensures error.NoError? ==> Images(cells, base, loads, i + 1, !refused)
      ensures Kept(old(cells), cells, base + First(loads[0], page), base + Last(loads[|loads|-1], page))
      ensures KeptOutside(old(cells), cells, base, loads, page)
      ensures !error.NoError? ==> refused
      ensures role != Independent ==>
                Voted(old(votes), votes, RemapOf(c), error != MapError) && (error == MapError ==> RemapOf(c) != [])
    {
      hide Image, PartImage, Images, Loadable, Kept, Aligned, First, Last, InOrder, Voted, RemapOf, KeptOutside;
      ghost var m, exact := cells, !refused;
      error := MapSegment(base, c, loads[i]);
      if error.NoError? {
        ImagesStay(m, cells, base, loads, i, exact, !refused);
      }
      KeptInOne(m, cells, base, loads, i, page);
      OrderBounds(loads, i);
      KeptMore(m, cells, base + First(loads[i], page), base + Last(loads[i], page),
               base + First(loads[0], page), base + Last(loads[|loads|-1], page));
    }

    /** What the mapping loop has done when it has reached the segment i, if it began with `start`: the memory
        was m0 and is m, the votes were `was` and are `now`. */
    ghost predicate MappedTo(m0: Memory, m: Memory, base: int, loads: seq<Phdr>, start: nat, i: nat,
                             was: seq<Vote>, now: seq<Vote>, exact: bool)
      requires page > 0 && start <= i <= |loads| && AllLoadable(loads, file, page)
    {
      && Images(m, base, loads, i, exact)
      && (loads != [] ==> Kept(m0, m, base + First(loads[0], page), base + Last(loads[|loads|-1], page)))
      && KeptOutside(m0, m, base, loads, page)
      && (role != Independent ==> Voted(was, now, Remaps(CmdsOf(loads, page)[start..i]), true))
    }

    lemma MappedNothing(m: Memory, base: int, loads: seq<Phdr>, start: nat, was: seq<Vote>, exact: bool)
      requires page > 0 && start <= |loads| && AllLoadable(loads, file, page) && Images(m, base, loads, start, exact)
      ensures MappedTo(m, m, base, loads, start, start, was, was, exact)
    {
    }

    lemma MappedOneMore(m0: Memory, m: Memory, m': Memory, base: int, loads: seq<Phdr>, start: nat, i: nat,
                        was: seq<Vote>, mid: seq<Vote>, now: seq<Vote>, exact: bool, exact': bool)
      requires page > 0 && start <= i < |loads| && AllLoadable(loads, file, page)
      requires MappedTo(m0, m, base, loads, start, i, was, mid, exact) && Images(m', base, loads, i + 1, exact')
      requires Kept(m, m', base + First(loads[0], page), base + Last(loads[|loads|-1], page))
      requires KeptOutside(m, m', base, loads, page)
      requires role != Independent ==> Voted(mid, now, RemapOf(CmdOf(loads[i], page)), true)
      ensures MappedTo(m0, m', base, loads, start, i + 1, was, now, exact')
    {
      hide Images, Kept, Voted, Remaps, RemapOf, AllLoadable, First, Last, KeptOutside;
      KeptOutsideTwice(m0, m, m', base, loads, page);
      KeptTwice(m0, m, m', base + First(loads[0], page), base + Last(loads[|loads|-1], page));
      if role != Independent {
        OneMoreVoted(was, mid, now, CmdsOf(loads, page), start, i, NoError);
      }
    }

    lemma MapEnded(m0: Memory, m: Memory, m': Memory, base: int, loads: seq<Phdr>, start: nat, i: nat,
                   was: seq<Vote>, mid: seq<Vote>, now: seq<Vote>, exact: bool, error: LoadError)
      requires page > 0 && start <= i < |loads| && AllLoadable(loads, file, page) && error != NoError
      requires Kept(m, m', base + First(loads[0], page), base + Last(loads[|loads|-1], page))
      requires MappedTo(m0, m, base, loads, start, i, was, mid, exact)
      requires role != Independent ==> var c := CmdOf(loads[i], page);
                 Voted(mid, now, RemapOf(c), error != MapError) && (error == MapError ==> RemapOf(c) != [])
      ensures Kept(m0, m', base + First(loads[0], page), base + Last(loads[|loads|-1], page))
      ensures role != Independent ==> Asked(was, now, Remaps(CmdsOf(loads, page)[start..]), error)
    {
      hide Images, Kept, Voted, Remaps, RemapOf, AllLoadable, First, Last, Asked, KeptOutside;
      KeptTwice(m0, m, m', base + First(loads[0], page), base + Last(loads[|loads|-1], page));
      if role != Independent {
        OneMoreVoted(was, mid, now, CmdsOf(loads, page), start, i, error);
      }
    }

    lemma MappedAll(m0: Memory, m: Memory, base: int, loads: seq<Phdr>, start: nat, was: seq<Vote>, now: seq<Vote>,
                    exact: bool)
      requires page > 0 && start <= |loads| && AllLoadable(loads, file, page)
      requires MappedTo(m0, m, base, loads, start, |loads|, was, now, exact)
      ensures Images(m, base, loads, |loads|, exact)
      ensures loads != [] ==> Kept(m0, m, base + First(loads[0], page), base + Last(loads[|loads|-1], page))
      ensures KeptOutside(m0, m, base, loads, page)
      ensures role != Independent ==> Asked(was, now, Remaps(CmdsOf(loads, page)[start..]), NoError)
    {
      hide Images, Kept, AllLoadable, First, Last, KeptOutside;
      if role != Independent {
        AskedSome(was, now, CmdsOf(loads, page), start, |loads|, NoError);
      }
    }

    /** The mapping loop, from the segment `start` on. */
    method MapFrom(base: int, cmds: seq<LoadCmd>, ghost loads: seq<Phdr>, start: nat) returns (error: LoadError)
      requires Opened() && page > 0 && AllLoadable(loads, file, page) && InOrder(loads, page)
      requires cmds == CmdsOf(loads, page) && Aligned(base, page) && start <= |loads|
          && Images(cells, base, loads, start, !refused)
      modifies `cells, `refused, `link, `votes
      ensures Opened() && (old(refused) ==> refused)
      ensures error.NoError? ==> Images(cells, base, loads, |loads|, !refused)
      ensures loads != [] ==>
                Kept(old(cells), cells, base + First(loads[0], page), base + Last(loads[|loads|-1], page))
      ensures error.NoError? ==> KeptOutside(old(cells), cells, base, loads, page)
      ensures !error.NoError? ==> refused
      ensures role != Independent ==> Asked(old(votes), votes, Remaps(cmds[start..]), error)
    {
      hide *;
      ghost var m0, was := cells, votes;
      MappedNothing(m0, base, loads, start, was, !refused);
      for i := start to |cmds|
        invariant Opened() && (old(refused) ==> refused)
        invariant MappedTo(m0, cells, base, loads, start, i, was, votes, !refused)
      {
        ghost var m, mid, exact := cells, votes, !refused;
        MappedImages(m0, m, base, loads, start, i, was, mid, exact);
        error := MapNext(base, cmds[i], loads, i);
        if error != NoError {
          MapEnded(m0, m, cells, base, loads, start, i, was, mid, votes, exact, error);
          return;
        }
        MappedOneMore(m0, m, cells, base, loads, start, i, was, mid, votes, exact, !refused);
      }
      MappedAll(m0, cells, base, loads, start, was, votes, !refused);
      return NoError;
    }

    lemma MappedImages(m0: Memory, m: Memory, base: int, loads: seq<Phdr>, start: nat, i: nat,
                       was: seq<Vote>, now: seq<Vote>, exact: bool)
      requires page > 0 && start <= i <= |loads| && AllLoadable(loads, file, page)
      requires MappedTo(m0, m, base, loads, start, i, was, now, exact)
      ensures Images(m, base, loads, i, exact)
    {
    }

    lemma OrderBounds(loads: seq<Phdr>, i: nat)
      requires page > 0 && AllLoadable(loads, file, page) && InOrder(loads, page) && i < |loads|
      ensures First(loads[0], page) <= First(loads[i], page) && Last(loads[i], page) <= Last(loads[|loads|-1], page)
    {
      forall k | 0 <= k < |loads| ensures First(loads[k], page) <= Last(loads[k], page) {
        CmdFacts(loads[k], file, page);
      }
    }

    /** What the collective layer needs of the first mapping of a shared object, which is made without
        MAP_FIXED: it is not writable, and a copy of its length stays inside the process's memory. */
    ghost predicate FirstFits(loads: seq<Phdr>)
      requires page > 0 && loads != []
      reads `link
    {
      role != Independent ==>
        && !loads[0].prot.w
        && var off, total := RoundDown(loads[0].offset, page), RoundUp(MapLength(loads), page);
           off >= 0 && total >= 0 && off + CopyLength(link, total) <= link.totallen
    }

    ghost function MapLength(loads: seq<Phdr>): int
      requires page > 0 && loads != []
    {
      loads[|loads|-1].vaddr + loads[|loads|-1].memsz - First(loads[0], page)
    }

    /** The address range that the first mapping of a shared object reserves. */
    lemma Reserved(loads: seq<Phdr>, addr: int)
      requires page > 0 && loads != [] && AllLoadable(loads, file, page) && InOrder(loads, page) && Aligned(addr, page)
      ensures var base := addr - First(loads[0], page);
        && Aligned(base, page) && MapLength(loads) >= 0
        && addr + RoundUp(MapLength(loads), page) == base + Last(loads[|loads|-1], page)
        && First(loads[0], page) <= CmdOf(loads[0], page).mapend <= Last(loads[0], page) <= Last(loads[|loads|-1], page)
        && Aligned(CmdOf(loads[0], page).mapend, page) && Aligned(base + CmdOf(loads[0], page).mapend, page)
    {
      var n := |loads| - 1;
      var base := addr - First(loads[0], page);
      CmdFacts(loads[0], file, page);
      CmdFacts(loads[n], file, page);
      OrderBounds(loads, n);
      OrderBounds(loads, 0);
      AlignedSum(First(loads[0], page), addr, page);
      AlignedSum(base, CmdOf(loads[0], page).mapend, page);
      hide Aligned, Loadable, InOrder, RoundDown;
      MinusAligned(First(loads[0], page), page);
      RoundsShift(loads[n].vaddr + loads[n].memsz, -First(loads[0], page), page);
    }

    lemma ProtectedIsClosed(m: Memory, addr: int, n: int, lo: int, hi: int)
      requires AllMapped(m, lo, hi) && lo <= addr && addr + n <= hi
      ensures NoAccess(Protect(m, addr, n, NO_ACCESS), addr, addr + n)
      ensures forall a | addr <= a < addr + n :: m(a) != Unmapped
    {
    }

    /** Takes the access away from the pages between the first segment's file part and the last segment. */
    method CloseHoles(base: int, cmds: seq<LoadCmd>, ghost loads: seq<Phdr>)
      requires page > 0 && |loads| > 1 && AllLoadable(loads, file, page) && InOrder(loads, page) && Aligned(base, page)
      requires cmds == CmdsOf(loads, page)
      requires AllMapped(cells, base + First(loads[0], page), base + Last(loads[|loads|-1], page))
      modifies `cells, `refused
      ensures old(refused) ==> refused
      ensures !refused ==> GapsClosed(cells, base, loads, page)
      ensures Kept(old(cells), cells, base + cmds[0].mapend, base + Last(loads[|loads|-1], page))
    {
      var first, last := cmds[0], cmds[|cmds|-1];
      CmdFacts(loads[0], file, page);
      CmdFacts(loads[|loads|-1], file, page);
      AlignedSum(first.mapend, last.mapstart, page);
      RoundUpOfAligned(last.mapstart - first.mapend, page);
      AlignedSum(base, first.mapend, page);
      OrderBounds(loads, 0);
      ghost var m := cells;
      var _ := Mprotect(base + first.mapend, last.mapstart - first.mapend, NO_ACCESS);
      if !refused {
        ProtectedIsClosed(m, base + first.mapend, last.mapstart - first.mapend,
                          base + First(loads[0], page), base + Last(loads[|loads|-1], page));
        ClosedAtOnce(cells, base, loads, page);
      }
    }

    /** The first mapping passes the checks of the file layer. */
    ghost predicate FirstPasses(c: LoadCmd, len: nat)
      requires page > 0
      reads `link
    {
      var flags := MapFlags(false, false, false);
      && 0 <= c.mapend - c.mapstart <= RoundUp(len, page)
      && (len > 0 ==> Plausible(0, len, c.prot, flags, fd, c.mapoff))
      && (role != Independent ==> Consults(len, c.prot, flags, fd, c.mapoff))
      && (role.Other? ==> c.mapoff + CopyLength(link, RoundUp(len, page)) <= |link.mem|)
    }

    lemma FirstRequest(loads: seq<Phdr>)
      requires Opened() && loads != [] && AllLoadable(loads, file, page) && InOrder(loads, page) && FirstFits(loads)
      ensures MapLength(loads) >= 0 && FirstPasses(CmdOf(loads[0], page), MapLength(loads))
    {
      ZeroIsAligned(page);
      CmdFacts(loads[0], file, page);
      Reserved(loads, 0);
      FirstBranch(loads);
      hide Aligned, RoundUp, RoundDown, Loadable, AllLoadable, InOrder, FirstFits, BranchOf, CopyLength, First, Last;
    }

    lemma FirstOfAll(cmds: seq<LoadCmd>, loads: seq<Phdr>)
      requires page > 0 && loads != [] && cmds == CmdsOf(loads, page)
      ensures cmds != [] && cmds[0] == CmdOf(loads[0], page) && cmds[0].mapstart == First(loads[0], page)
      ensures cmds[|cmds|-1].allocend - cmds[0].mapstart == MapLength(loads)
      ensures RequestsOf(cmds, true)[..1]
              == [Request(MapLength(loads), cmds[0].prot, MapFlags(false, false, false), cmds[0].mapoff)]
    {
    }

    /** The mapping of the first load command, extended to a length for all segments. */
    method MapWhole(c: LoadCmd, len: nat) returns (a: MapResult)
      requires Opened() && page > 0 && FirstPasses(c, len)
      modifies `cells, `refused, `link, `votes
      ensures Opened() && (old(refused) ==> refused) && (a.MapFailed? && len > 0 ==> refused)
      ensures a.At? ==> Aligned(a.addr, page) && Kept(old(cells), cells, a.addr, a.addr + RoundUp(len, page))
      ensures Confined(old(cells), cells, RoundUp(len, page))
          && (a.At? ==> FreeAt(old(cells), a.addr, a.addr + RoundUp(len, page)))
      ensures a.At? ==> AllMapped(cells, a.addr, a.addr + RoundUp(len, page))
      ensures a.At? ==> Shows(cells, a.addr, c.mapend - c.mapstart, c.mapoff, c.prot, !refused)
      ensures role != Independent ==>
                Voted(old(votes), votes, [Request(len, c.prot, MapFlags(false, false, false), c.mapoff)], a.At?)
    {
      hide Opened, Shows, Kept, Aligned, RoundUp, Voted, Plausible, Consults, CopyLength, FreeAt, Confined, AllMapped;
      FdIsValid();
      a := Mmap(0, len, c.prot, MapFlags(false, false, false), fd, c.mapoff);
      if a.At? {
        ShownIsMapped(cells, a.addr, RoundUp(len, page), c.mapoff, c.prot, !refused);
        LessLong(cells, a.addr, RoundUp(len, page), c.mapend - c.mapstart, c.mapoff, c.prot, !refused);
      }
    }

    lemma ShownIsMapped(m: Memory, addr: int, n: int, off: int, prot: Prot, exact: bool)
      requires page > 0 && Shows(m, addr, n, off, prot, exact)
      ensures AllMapped(m, addr, addr + n)
    {
    }

    lemma FdIsValid()
      requires Opened()
      ensures fd >= 0
    {
    }

    /** The first mapping of a shared object, which reserves the addresses of all segments. */
    method Reserve(cmds: seq<LoadCmd>, ghost loads: seq<Phdr>) returns (r: LoadResult)
      requires Opened() && page > 0 && loads != [] && AllLoadable(loads, file, page) && InOrder(loads, page) && FirstFits(loads)
      requires cmds == CmdsOf(loads, page)
      modifies `cells, `refused, `link, `votes
      ensures Opened() && (old(refused) ==> refused)
      ensures r.Failed? ==> r.error == MapError && (MapLength(loads) > 0 ==> refused)
      ensures r.LoadedAt? ==> Aligned(r.base, page)
      ensures r.LoadedAt? ==>
                Kept(old(cells), cells, r.base + First(loads[0], page), r.base + Last(loads[|loads|-1], page))
      ensures r.LoadedAt? ==>
                FreeAt(old(cells), r.base + First(loads[0], page), r.base + Last(loads[|loads|-1], page))
      ensures Confined(old(cells), cells, Last(loads[|loads|-1], page) - First(loads[0], page))
      ensures r.LoadedAt? ==>
                AllMapped(cells, r.base + First(loads[0], page), r.base + Last(loads[|loads|-1], page))
      ensures r.LoadedAt? ==> var c := cmds[0];
                Shows(cells, r.base + c.mapstart, c.mapend - c.mapstart, c.mapoff, c.prot, !refused)
      ensures role != Independent ==> Voted(old(votes), votes, RequestsOf(cmds, true)[..1], r.LoadedAt?)
    {
      hide *;
      FirstOfAll(cmds, loads);
      FirstRequest(loads);
      var c := cmds[0];
      var a := MapWhole(c, cmds[|cmds|-1].allocend - c.mapstart);
      ZeroIsAligned(page);
      Reserved(loads, 0);
      if a == MapFailed {
        return Failed(MapError);
      }
      Reserved(loads, a.addr);
      return LoadedAt(a.addr - c.mapstart);
    }

    /** The same, with access closed between the segments, and the zeros of the first one. */
    method MapFirst(cmds: seq<LoadCmd>, ghost loads: seq<Phdr>, hasHoles: bool) returns (r: LoadResult)
      requires Opened() && page > 0 && loads != [] && AllLoadable(loads, file, page) && InOrder(loads, page) && FirstFits(loads)
      requires cmds == CmdsOf(loads, page) && cmds != [] && (hasHoles <==> HasHoles(cmds))
      modifies `cells, `refused, `link, `votes
      ensures Opened() && (old(refused) ==> refused)
      ensures r.LoadedAt? ==> Aligned(r.base, page) && Images(cells, r.base, loads, 1, !refused)
      ensures r.LoadedAt? ==>
                Kept(old(cells), cells, r.base + First(loads[0], page), r.base + Last(loads[|loads|-1], page))
      ensures r.LoadedAt? ==>
                FreeAt(old(cells), r.base + First(loads[0], page), r.base + Last(loads[|loads|-1], page))
      ensures Confined(old(cells), cells, Last(loads[|loads|-1], page) - First(loads[0], page))
      ensures r.LoadedAt? && !refused ==> GapsClosed(cells, r.base, loads, page)
      ensures r.Failed? ==> r.error != NoError && (MapLength(loads) > 0 ==> refused)
      ensures role != Independent ==> Voted(old(votes), votes, RequestsOf(cmds, true)[..1], r != Failed(MapError))
    {
      hide *;
      ghost var m, n := cells, |loads|;
      var c := cmds[0];
      r := Reserve(cmds, loads);
      if r.Failed? {
        return;
      }
      var base := r.base;
      FirstBounds(loads);
      ghost var lo, hi := base + First(loads[0], page), base + Last(loads[n-1], page);
      HolesNeedTwo(cmds);
      if hasHoles {
        ghost var m1, exact := cells, !refused;
        CloseHoles(base, cmds, loads);
        ShowsStays(m1, cells, base + c.mapstart, c.mapend - c.mapstart, c.mapoff, c.prot, exact, !refused, hi);
        KeptMore(m1, cells, base + c.mapend, hi, lo, hi);
        KeptTwice(m, m1, cells, lo, hi);
      }
      ghost var m2, closed := cells, !refused;
      if !hasHoles {
        NothingToClose(m2, base, loads, file, page);
      }
      var error := ZeroFill(base, c, loads[0]);
      KeptMore(m2, cells, base + First(loads[0], page), base + Last(loads[0], page), lo, hi);
      KeptTwice(m, m2, cells, lo, hi);
      KeptInOne(m2, cells, base, loads, 0, page);
      if closed {
        GapsStay(m2, cells, base, loads, page);
      }
      KeptOnFree(m, cells, lo, hi - lo);
      if error != NoError {
        return Failed(error);
      }
      OneImage(cells, base, loads, !refused);
    }

    lemma FirstBounds(loads: seq<Phdr>)
      requires page > 0 && loads != [] && AllLoadable(loads, file, page) && InOrder(loads, page)
      ensures Loadable(loads[0], file, page) && loads[0].offset + loads[0].filesz <= |file|
      ensures var c := CmdsOf(loads, page)[0];
        && c == CmdOf(loads[0], page)
        && First(loads[0], page) == c.mapstart <= c.mapend <= Last(loads[0], page) <= Last(loads[|loads|-1], page)
    {
      CmdFacts(loads[0], file, page);
      OrderBounds(loads, 0);
    }

    lemma FirstBranch(loads: seq<Phdr>)
      requires Opened() && loads != [] && AllLoadable(loads, file, page) && FirstFits(loads) && MapLength(loads) >= 0
      ensures var c := CmdOf(loads[0], page); var flags := MapFlags(false, false, false);
        && (role != Independent ==> !BranchOf(link, MapLength(loads), c.prot, flags, c.mapoff).Refuse? && c.mapoff >= 0)
        && (role.Other? ==> c.mapoff + CopyLength(link, RoundUp(MapLength(loads), page)) <= |link.mem|)
    {
    }

    lemma OneImage(m: Memory, base: int, loads: seq<Phdr>, exact: bool)
      requires page > 0 && loads != [] && AllLoadable(loads, file, page)
      requires PartImage(m, base, loads[0], loads[0].memsz, file) && (exact ==> Image(m, base, loads[0], file))
      ensures Images(m, base, loads, 1, exact)
    {
    }

    lemma ShowsStays(m: Memory, m': Memory, addr: int, n: nat, off: int, prot: Prot, exact: bool, exact': bool, hi: int)
      requires page > 0 && Shows(m, addr, n, off, prot, exact) && Kept(m, m', addr + n, hi) && (exact' ==> exact)
      ensures Shows(m', addr, n, off, prot, exact')
    {
    }

    /** All load commands: those of a shared object at addresses the kernel picks, those of an executable
        at the addresses they name. */
    method MapCommands(cmds: seq<LoadCmd>, ghost loads: seq<Phdr>, hasHoles: bool, dyn: bool, openExec: bool)
      returns (r: LoadResult)
      requires Opened() && page > 0 && loads != [] && AllLoadable(loads, file, page) && InOrder(loads, page)
      requires dyn ==> FirstFits(loads)
      requires cmds == CmdsOf(loads, page) && (hasHoles <==> HasHoles(cmds))
      modifies `cells, `refused, `link, `votes
      ensures Opened() && (old(refused) ==> refused)
      ensures r.LoadedAt? ==> Aligned(r.base, page) && Images(cells, r.base, loads, |loads|, !refused)
      ensures r.LoadedAt? ==>
                Kept(old(cells), cells, r.base + First(loads[0], page), r.base + Last(loads[|loads|-1], page))
      ensures dyn && r.LoadedAt? && !refused ==> GapsClosed(cells, r.base, loads, page)
      ensures dyn ==> Confined(old(cells), cells, Last(loads[|loads|-1], page) - First(loads[0], page))
      ensures !dyn ==> Kept(old(cells), cells, First(loads[0], page), Last(loads[|loads|-1], page))
      ensures r.Failed? ==> r.error != NoError
      ensures r.Failed? ==> (!dyn && !openExec && r.error == CannotLoad) || (dyn && MapLength(loads) <= 0) || refused
      ensures !dyn && r.LoadedAt? ==> openExec && r.base == 0
      ensures role != Independent ==> Asked(old(votes), votes, RequestsOf(cmds, dyn), if r.Failed? then r.error else NoError)
    {
      hide *;
      ghost var m, was := cells, votes;
      var base, start := 0, 0;
      NothingChanged(m, First(loads[0], page), Last(loads[|loads|-1], page));
      if dyn {
        var first := MapFirst(cmds, loads, hasHoles);
        if first.Failed? {
          if role != Independent {
            AskedFirst(was, votes, cmds, first.error);
          }
          return Failed(first.error);
        }
        base, start := first.base, 1;
      } else {
        if !openExec {
          AskedNothing(was, cmds);
          return Failed(CannotLoad);
        }
        ZeroIsAligned(page);
        NoImages(cells, base, loads, !refused);
      }
      ghost var m1, mid, closed := cells, votes, !refused;
      var error := MapFrom(base, cmds, loads, start);
      if role != Independent {
        if dyn {
          AskedAfterFirst(was, mid, votes, cmds, error);
        } else {
          AskedFixed(cmds);
        }
      }
      KeptTwice(m, m1, cells, base + First(loads[0], page), base + Last(loads[|loads|-1], page));
      if dyn {
        KeptOnFree(m, cells, base + First(loads[0], page), Last(loads[|loads|-1], page) - First(loads[0], page));
      }
      if error != NoError {
        return Failed(error);
      }
      if dyn && closed {
        GapsStay(m1, cells, base, loads, page);
      }
      return LoadedAt(base);
    }

    lemma NoImages(m: Memory, base: int, loads: seq<Phdr>, exact: bool)
      requires page > 0 && AllLoadable(loads, file, page)
      ensures Images(m, base, loads, 0, exact)
    {
    }

    /** _dl_map_object_from_fd, from the reading of the program headers to the end of the mapping loop. */
    method MapObject(phdrs: seq<Phdr>, dyn: bool, openExec: bool, ghost k: nat) returns (r: LoadResult)
      requires Opened() && page == Pow2(k) && k <= WORD_BITS
      requires forall ph | ph in phdrs :: ph.align < Pow2(WORD_BITS)
      requires InFile(Loads(phdrs), file) && InOrder(Loads(phdrs), page) &&
          (Loads(phdrs) != [] && dyn ==> FirstFits(Loads(phdrs)))
      modifies `cells, `refused, `link, `votes
      ensures Opened()
      ensures FirstError(phdrs, page) != NoError ==> r == Failed(FirstError(phdrs, page))
      ensures FirstError(phdrs, page) == NoError && Loads(phdrs) == [] ==> r == Failed(NoSegments)
      ensures r.LoadedAt? ==> AllLoadable(Loads(phdrs), file, page) && Loads(phdrs) != [] && Aligned(r.base, page)
      ensures r.LoadedAt? ==>
                forall i | 0 <= i < |Loads(phdrs)| ::
                  PartImage(cells, r.base, Loads(phdrs)[i], Loads(phdrs)[i].memsz, file)
      ensures r.LoadedAt? && !refused ==> forall i | 0 <= i < |Loads(phdrs)| :: Image(cells, r.base, Loads(phdrs)[i], file)
      ensures r.LoadedAt? ==>
                var loads := Loads(phdrs);
                Kept(old(cells), cells, r.base + First(loads[0], page), r.base + Last(loads[|loads|-1], page))
      ensures dyn && r.LoadedAt? && !refused ==> GapsClosed(cells, r.base, Loads(phdrs), page)
      ensures !dyn && r.LoadedAt? ==> openExec && r.base == 0
      ensures dyn ==> Undisturbed(old(cells), cells)
      ensures dyn && Loads(phdrs) != [] ==>
                var loads := Loads(phdrs);
                Confined(old(cells), cells, Last(loads[|loads|-1], page) - First(loads[0], page))
      ensures !dyn ==>
                var loads := Loads(phdrs);
                if loads == [] then cells == old(cells)
                else Kept(old(cells), cells, First(loads[0], page), Last(loads[|loads|-1], page))
      ensures FirstError(phdrs, page) != NoError ==> cells == old(cells)
      ensures r.Failed? && FirstError(phdrs, page) == NoError && Loads(phdrs) != [] ==>
                || (!dyn && !openExec && r.error == CannotLoad)
                || (dyn && MapLength(Loads(phdrs)) <= 0)
                || refused
      ensures if FirstError(phdrs, page) == NoError && Loads(phdrs) != [] && role != Independent
              then Asked(old(votes), votes, RequestsOf(CmdsOf(Loads(phdrs), page), dyn), if r.Failed? then r.error else NoError)
              else role == Independent || votes == old(votes)
    {
      hide *;
      var error, cmds, hasHoles := Collect(phdrs, page);
      ghost var m := cells;
      NothingDisturbed(m, 0);
      if error != NoError {
        if Loads(phdrs) != [] {
          NothingDisturbed(m, Last(Loads(phdrs)[|Loads(phdrs)|-1], page) - First(Loads(phdrs)[0], page));
          NothingChanged(cells, First(Loads(phdrs)[0], page), Last(Loads(phdrs)[|Loads(phdrs)|-1], page));
        }
        return Failed(error);
      }
      ghost var loads := Loads(phdrs);
      ChecksPassed(phdrs, k);
      Congruent(loads);
      r := MapCommands(cmds, loads, hasHoles, dyn, openExec);
      if dyn {
        ConfinedIsUndisturbed(m, cells, Last(loads[|loads|-1], page) - First(loads[0], page));
      }
      if r.LoadedAt? {
        EveryImage(cells, r.base, loads, !refused);
      }
    }

    lemma Congruent(loads: seq<Phdr>)
      requires page > 0 && InFile(loads, file) && forall ph | ph in loads :: Aligned(ph.vaddr - ph.offset, page)
      ensures AllLoadable(loads, file, page)
    {
    }

    lemma EveryImage(m: Memory, base: int, loads: seq<Phdr>, exact: bool)
      requires page > 0 && AllLoadable(loads, file, page) && Images(m, base, loads, |loads|, exact)
      ensures InFile(loads, file)
      ensures forall i | 0 <= i < |loads| :: PartImage(m, base, loads[i], loads[i].memsz, file)
      ensures exact ==> forall i | 0 <= i < |loads| :: Image(m, base, loads[i], file)
    {
    }

    lemma LessLong(m: Memory, addr: int, n: nat, shown: nat, off: int, prot: Prot, exact: bool)
      requires page > 0 && shown <= n && Shows(m, addr, n, off, prot, exact)
      ensures Shows(m, addr, shown, off, prot, exact)
    {
    }
  }

  lemma NothingChanged(m: Memory, lo: int, hi: int)
    ensures Kept(m, m, lo, hi)
  {
  }

  lemma NothingDisturbed(m: Memory, n: int)
    ensures Undisturbed(m, m) && Confined(m, m, n)
  {
  }

  lemma KeptMore(m: Memory, m': Memory, lo: int, hi: int, lo': int, hi': int)
    requires Kept(m, m', lo, hi) && lo' <= lo && hi <= hi'
    ensures Kept(m, m', lo', hi')
  {
  }

  ghost predicate AllZero(m: Memory, addr: int, n: int, prot: Prot) {
    forall a {:trigger m(a)} | addr <= a < addr + n :: m(a) == Mapped(Holds(0), prot)
  }

  lemma KeptTwice(m: Memory, m': Memory, m'': Memory, lo: int, hi: int)
    requires Kept(m, m', lo, hi) && Kept(m', m'', lo, hi)
    ensures Kept(m, m'', lo, hi)
  {
    assert forall a {:trigger m''(a)} | !(lo <= a < hi) :: m''(a) == m'(a) == m(a);
  }
}
