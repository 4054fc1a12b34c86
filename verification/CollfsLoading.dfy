/** Loading a shared object from a collectively opened file, on every process. */
module CollfsLoading {
  import opened ByteSequences
  import opened CollfsFiles
  import opened CollfsProtocol
  import opened Paging
  import opened SegmentMapper

  // ---------- from the collective open to the mapper ----------

  /** A collective open that rank 0 can do and for which every process finds memory. */
  datatype OpeningData = Opening(ranks: seq<Rank>, path: string, envs: seq<Env>, pf: Platform, log: seq<Collective>) {
    ghost predicate Valid() {
      && ranks != [] && |envs| == |ranks| && LengthOf(envs[0]) == |envs[0].data|
      && forall i | 0 <= i < |envs| :: envs[i].memory
    }

    function Programs(): (ps: seq<Program>)
      requires |envs| == |ranks|
      ensures |ps| == |ranks| && forall i | 0 <= i < |ps| :: ps[i] == OpenProgram(ranks[i], i == 0, path, true, envs[i], pf)
    {
      seq(|ranks|, i requires 0 <= i < |ranks| => OpenProgram(ranks[i], i == 0, path, true, envs[i], pf))
    }

    function End(): Ending
      requires |envs| == |ranks|
    {
      Run(Programs(), log, 3)
    }
  }

  type Opening = o: OpeningData | o.Valid()
    ghost witness Opening([Rank([], 0)], "", [Env(0, 0, true, 0, [], true, 0, 0)], Platform(1, 0), [])

  /** The process i, as the open has left it. */
  ghost predicate LeftBy(p: Process, o: Opening, i: nat)
    requires i < |o.ranks|
    reads p`link, p`votes
  {
    var e := o.End();
    && p.page == o.pf.page && p.file == o.envs[0].data && p.role == (if i == 0 then Root else Other) && p.votes == []
    && e.Done? && |e.ranks| == |o.ranks| && e.ranks[i].files != [] && p.link == e.ranks[i].files[0]
    && p.fd == p.link.fd >= 0
  }

  /** The segment mapper can work on any process, if the first segment starts at the beginning of the file
      and is not writable. */
  lemma {:induction false} OpenServesMapper(o: Opening, i: nat, p: Process, loads: seq<Phdr>)
    requires i < |o.ranks| && LeftBy(p, o, i) && InFile(loads, p.file) && InOrder(loads, p.page)
    ensures p.Opened()
    ensures loads != [] && loads[0].offset < o.pf.page && !loads[0].prot.w ==> p.FirstFits(loads)
  {
    hide Run, LengthOf, OpenProgram;
    OpenSharesBytes(o.ranks, o.path, o.envs, o.pf, o.Programs(), o.log);
    var data, total := o.envs[0].data, RoundUp(|o.envs[0].data|, o.pf.page);
    assert p.link.mem == data + seq(total - |data|, _ => 0);
    if loads != [] && loads[0].offset < o.pf.page {
      LengthIsNatural(loads, p.file, p.page);
      RoundDownOf(loads[0].offset, 0, o.pf.page);
      CopyStaysInsideIff(p.link, RoundUp(p.MapLength(loads), p.page), 0);
    }
  }

  // ---------- all processes load ----------

  /** Two memories show the same bytes in every segment: the file's, then zeros. */
  ghost predicate SameBytes(m: Memory, base: int, m': Memory, base': int, loads: seq<Phdr>, file: seq<Byte>)
  {
    InFile(loads, file) && forall s, k | 0 <= s < |loads| && 0 <= k < loads[s].memsz ::
      var c, c' := m(base + loads[s].vaddr + k), m'(base' + loads[s].vaddr + k);
      c.Mapped? && c'.Mapped? && c.content == c'.content == Holds(ImageByte(loads[s], file, k))
  }

  ghost predicate ShowsAll(m: Memory, base: int, loads: seq<Phdr>, file: seq<Byte>) {
    InFile(loads, file) && forall s | 0 <= s < |loads| :: PartImage(m, base, loads[s], loads[s].memsz, file)
  }

  lemma SameBytesEverywhere(m: Memory, base: int, m': Memory, base': int, loads: seq<Phdr>, file: seq<Byte>)
    requires ShowsAll(m, base, loads, file) && ShowsAll(m', base', loads, file)
    ensures SameBytes(m, base, m', base', loads, file)
  {
    forall s, k | 0 <= s < |loads| && 0 <= k < loads[s].memsz
      ensures var c, c' := m(base + loads[s].vaddr + k), m'(base' + loads[s].vaddr + k);
        c.Mapped? && c'.Mapped? && c.content == c'.content == Holds(ImageByte(loads[s], file, k))
    {
      assert PartImage(m, base, loads[s], loads[s].memsz, file) && PartImage(m', base', loads[s], loads[s].memsz, file);
      var a, a' := base + loads[s].vaddr + k, base' + loads[s].vaddr + k;
      assert m(a).Mapped? && m'(a').Mapped?;
    }
  }

  /** What is asked of the headers of the object. */
  ghost predicate Suitable(phdrs: seq<Phdr>, dyn: bool, file: seq<Byte>, page: nat, k: nat)
  {
    var loads := Loads(phdrs);
    && page > 0 && page == Pow2(k) && k <= WORD_BITS && (forall ph | ph in phdrs :: ph.align < Pow2(WORD_BITS))
    && InFile(loads, file) && InOrder(loads, page)
    && (dyn && loads != [] ==> loads[0].offset < page && !loads[0].prot.w)
  }

  /** A load has spared what was mapped before: a shared object takes a free range of its own, whatever became
      of the load; an executable changes nothing but the pages that its headers name. */
  ghost predicate Spared(was: Memory, now: Memory, loads: seq<Phdr>, dyn: bool, page: nat)
    requires page > 0
  {
    && (dyn ==> Undisturbed(was, now))
    && (dyn && loads != [] ==> Confined(was, now, Last(loads[|loads|-1], page) - First(loads[0], page)))
    && (!dyn ==> if loads == [] then now == was else Kept(was, now, First(loads[0], page), Last(loads[|loads|-1], page)))
  }

  /** Before it loads. */
  ghost predicate Ready(p: Process, was: Memory, loads: seq<Phdr>, dyn: bool, file: seq<Byte>, page: nat)
    reads p`link, p`votes, p`cells
  {
    p.cells == was && p.Opened() && p.page == page && p.file == file && p.role != Independent && p.votes == []
    && (dyn && loads != [] ==> p.FirstFits(loads))
  }

  /** After it has loaded: what it shows, what it has spared, and which requests it has put. */
  ghost predicate Ended(p: Process, r: LoadResult, was: Memory, phdrs: seq<Phdr>, dyn: bool, file: seq<Byte>, page: nat)
    reads p`cells, p`refused, p`votes
  {
    var loads, error := Loads(phdrs), if r.Failed? then r.error else NoError;
    && page > 0 && InFile(loads, file) && Spared(was, p.cells, loads, dyn, page)
    && (r.LoadedAt? ==> ShowsAll(p.cells, r.base, loads, file))
    && (r.LoadedAt? && !p.refused ==> forall s | 0 <= s < |loads| :: Image(p.cells, r.base, loads[s], file))
    && (dyn && r.LoadedAt? && !p.refused ==> loads != [] && GapsClosed(p.cells, r.base, loads, page))
    && (FirstError(phdrs, page) != NoError ==> error == FirstError(phdrs, page) && p.votes == [])
    && (FirstError(phdrs, page) == NoError && loads == [] ==> error == NoSegments && p.votes == [])
    && (FirstError(phdrs, page) == NoError && loads != [] ==> Asked([], p.votes, RequestsOf(CmdsOf(loads, page), dyn), error))
  }

  method LoadOne(p: Process, ghost was: Memory, phdrs: seq<Phdr>, dyn: bool,
      openExec: bool, ghost file: seq<Byte>, ghost page: nat, ghost k: nat)
    returns (r: LoadResult)
    requires Suitable(phdrs, dyn, file, page, k) && Ready(p, was, Loads(phdrs), dyn, file, page)
    modifies p
    ensures Ended(p, r, was, phdrs, dyn, file, page)
  {
    hide Image, PartImage, Asked, FirstError, Loads, RequestsOf, CmdsOf, InOrder, Process.FirstFits;
    r := p.MapObject(phdrs, dyn, openExec, k);
  }

  /** Every process that the open has left loads the object: any two that succeed, rank 0 or not, see the same
      bytes in every segment, and all put the same requests, which depend on the headers alone, one after the
      other, up to the end or to where their load ended. */
  method LoadEverywhere(procs: seq<Process>, phdrs: seq<Phdr>, dyn: bool, openExec: bool, ghost o: Opening, ghost k: nat)
    returns (results: seq<LoadResult>)
    requires |procs| == |o.ranks| && (forall i, j | 0 <= i < j < |procs| :: procs[i] != procs[j])
    requires forall i | 0 <= i < |procs| :: LeftBy(procs[i], o, i)
    requires Suitable(phdrs, dyn, o.envs[0].data, o.pf.page, k)
    modifies procs
    ensures |results| == |procs|
    ensures forall i, j | 0 <= i < |procs| && 0 <= j < |procs| && results[i].LoadedAt? && results[j].LoadedAt? ::
              SameBytes(procs[i].cells, results[i].base, procs[j].cells, results[j].base, Loads(phdrs), o.envs[0].data)
    ensures forall i | 0 <= i < |procs| ::
              Ended(procs[i], results[i], old(procs[i].cells), phdrs, dyn, o.envs[0].data, o.pf.page)
  {
    ghost var was := Memories(procs);
    AllReady(procs, phdrs, dyn, o, k);
    hide *;
    results := [];
    for i := 0 to |procs|
      invariant |results| == i && Progress(procs, results, was, phdrs, dyn, o.envs[0].data, o.pf.page)
    {
      var r := LoadNext(procs, results, was, phdrs, dyn, openExec, o.envs[0].data, o.pf.page, k);
      results := results + [r];
    }
    AllEnded(procs, results, was, phdrs, dyn, o.envs[0].data, o.pf.page);
    EndedAlike(procs, results, was, phdrs, dyn, o.envs[0].data, o.pf.page);
  }

  ghost function Memories(procs: seq<Process>): (ms: seq<Memory>)
    reads procs
    ensures |ms| == |procs| && forall i | 0 <= i < |procs| :: ms[i] == procs[i].cells
  {
    if procs == [] then [] else [procs[0].cells] + Memories(procs[1..])
  }

  /** The processes that have a result have ended, and the others are ready. */
  ghost predicate Progress(procs: seq<Process>, results: seq<LoadResult>, was: seq<Memory>, phdrs: seq<Phdr>, dyn: bool,
                           file: seq<Byte>, page: nat)
    reads procs
  {
    && |results| <= |procs| == |was|
    && (forall j | 0 <= j < |results| :: Ended(procs[j], results[j], was[j], phdrs, dyn, file, page))
    && forall j | |results| <= j < |procs| :: Ready(procs[j], was[j], Loads(phdrs), dyn, file, page)
  }

  method LoadNext(procs: seq<Process>, results: seq<LoadResult>, ghost was: seq<Memory>, phdrs: seq<Phdr>,
      dyn: bool, openExec: bool,
                  ghost file: seq<Byte>, ghost page: nat, ghost k: nat) returns (r: LoadResult)
    requires |results| < |procs| && (forall i, j | 0 <= i < j < |procs| :: procs[i] != procs[j])
    requires Progress(procs, results, was, phdrs, dyn, file, page) && Suitable(phdrs, dyn, file, page, k)
    modifies procs[|results|]
    ensures Progress(procs, results + [r], was, phdrs, dyn, file, page)
  {
    hide Ready, Ended, Suitable, Loads;
    var n := |results|;
    r := LoadOne(procs[n], was[n], phdrs, dyn, openExec, file, page, k);
    forall j | 0 <= j < n ensures procs[j] != procs[n] {
    }
    forall j | n < j < |procs| ensures procs[j] != procs[n] {
    }
  }

  lemma AllEnded(procs: seq<Process>, results: seq<LoadResult>, was: seq<Memory>, phdrs: seq<Phdr>, dyn: bool,
      file: seq<Byte>, page: nat)
    requires Progress(procs, results, was, phdrs, dyn, file, page) && |results| == |procs|
    ensures |was| == |procs| && forall i | 0 <= i < |procs| :: Ended(procs[i], results[i], was[i], phdrs, dyn, file, page)
  {
  }

  lemma AllReady(procs: seq<Process>, phdrs: seq<Phdr>, dyn: bool, o: Opening, k: nat)
    requires |procs| == |o.ranks| && forall i | 0 <= i < |procs| :: LeftBy(procs[i], o, i)
    requires Suitable(phdrs, dyn, o.envs[0].data, o.pf.page, k)
    ensures Progress(procs, [], Memories(procs), phdrs, dyn, o.envs[0].data, o.pf.page)
  {
    hide OpeningData.End, Process.Opened, Process.FirstFits;
    forall i | 0 <= i < |procs| ensures Ready(procs[i], procs[i].cells, Loads(phdrs), dyn, o.envs[0].data, o.pf.page) {
      OpenServesMapper(o, i, procs[i], Loads(phdrs));
    }
  }

  lemma EndedAlike(procs: seq<Process>, results: seq<LoadResult>, was: seq<Memory>, phdrs: seq<Phdr>,
      dyn: bool, file: seq<Byte>, page: nat)
    requires |results| == |procs| == |was|
    requires forall i | 0 <= i < |procs| :: Ended(procs[i], results[i], was[i], phdrs, dyn, file, page)
    ensures forall i, j | 0 <= i < |procs| && 0 <= j < |procs| && results[i].LoadedAt? && results[j].LoadedAt? ::
              SameBytes(procs[i].cells, results[i].base, procs[j].cells, results[j].base, Loads(phdrs), file)
  {
    hide *;
    forall i, j | 0 <= i < |procs| && 0 <= j < |procs| && results[i].LoadedAt? && results[j].LoadedAt?
      ensures SameBytes(procs[i].cells, results[i].base, procs[j].cells, results[j].base, Loads(phdrs), file)
    {
      EndedShows(procs[i], results[i], was[i], phdrs, dyn, file, page);
      EndedShows(procs[j], results[j], was[j], phdrs, dyn, file, page);
      SameBytesEverywhere(procs[i].cells, results[i].base, procs[j].cells, results[j].base, Loads(phdrs), file);
    }
  }

  lemma EndedShows(p: Process, r: LoadResult, was: Memory, phdrs: seq<Phdr>, dyn: bool, file: seq<Byte>, page: nat)
    requires Ended(p, r, was, phdrs, dyn, file, page) && r.LoadedAt?
    ensures ShowsAll(p.cells, r.base, Loads(phdrs), file)
  {
  }

  // ---------- one mapping is one call of the protocol ----------

  /** The program that is left when the conjunction it waits for has been served. */
  function Resumed(prog: Program, votes: seq<Vote>): Program {
    if prog.Meet? && votes != [] then prog.next(Flag(votes[0].all)) else prog
  }

  /** A process that maps from the collective file does what its program in the protocol does: it brings the
      same flag to the conjunction or refuses without one, and with the same answer it keeps the same list and
      comes to the same result. */
  method MmapAsProgram(p: Process, ghost r: Rank, addr: int, len: nat, prot: Prot, flags: MapFlags, off: int)
    returns (result: MapResult, ghost env: Env)
    requires p.Opened() && p.role != Independent && !flags.anonymous
    requires var k := Position(r.files, p.fd); k < |r.files| && r.files[k] == p.link
    requires p.role.Other? && off >= 0 && BranchOf(p.link, len, prot, flags, off).Extend? ==>
               off + CopyLength(p.link, RoundUp(len, p.page)) <= |p.link.mem|
    modifies p
    ensures |old(p.votes)| <= |p.votes| && p.votes[..|old(p.votes)|] == old(p.votes)
    ensures var prog, votes := MmapProgram(r, p.fd, len, prot, flags, off, env), p.votes[|old(p.votes)|..];
      && (prog.Meet? <==> |votes| == 1) && |votes| <= 1
      && (prog.Meet? ==> prog.op == AllreduceAnd && prog.mine == Flag(votes[0].mine))
      && Resumed(prog, votes).Return?
      && Resumed(prog, votes).rank == r.(files := r.files[Position(r.files, p.fd) := p.link])
      && if result.At? then Resumed(prog, votes).outcome == Ok(result.addr) else Resumed(prog, votes).outcome.Err?
  {
    ghost var was := p.votes;
    result := p.Mmap(addr, len, prot, flags, p.fd, off);
    ghost var votes := p.votes[|was|..];
    env := Env(0, 0, true, 0, [], votes != [] && votes[0].mine, if result.At? then result.addr else 0, 0);
    assert r.files[Position(r.files, p.fd) := old(p.link)] == r.files;
  }

  // ---------- the requests of a load as rounds of the protocol ----------

  /** A request that the layer does not refuse by itself. */
  ghost predicate Passes(link: FileLink, request: Request) {
    request.len >= 0 && request.off >= 0
    && !BranchOf(link, request.len, request.prot, request.flags, request.off).Refuse?
  }

  /** The first requests of a load, put by all processes at once; the ballots say which of them found memory
      for which request. */
  ghost predicate IsLoad(rounds: seq<Round>, fds: seq<int>, requests: seq<Request>, ballots: seq<seq<Vote>>) {
    |rounds| <= |requests| && |ballots| == |fds| &&
    forall j | 0 <= j < |rounds| :: IsLoadRound(rounds[j], fds, requests[j], ballots, j)
  }

  ghost predicate IsLoadRound(round: Round, fds: seq<int>, request: Request, ballots: seq<seq<Vote>>, j: nat) {
    && |round.calls| == |round.envs| == |fds| == |ballots| && request.len >= 0
    && forall i | 0 <= i < |fds| ::
         round.calls[i] == LoadCall(fds[i], request) && j < |ballots[i]| && round.envs[i].memory == ballots[i][j].mine
  }

  lemma FewerRounds(rounds: seq<Round>, fds: seq<int>, requests: seq<Request>, ballots: seq<seq<Vote>>)
    requires rounds != [] && IsLoad(rounds, fds, requests, ballots)
    ensures IsLoad(rounds[..|rounds|-1], fds, requests, ballots)
  {
    hide IsLoadRound;
  }

  function LoadCall(fd: int, request: Request): Call
    requires request.len >= 0
  {
    Call.Mmap(fd, request.len, request.prot, request.flags, request.off)
  }

  /** Everybody brought true to the conjunction j. */
  ghost predicate AllMine(ballots: seq<seq<Vote>>, j: nat) {
    forall i | 0 <= i < |ballots| :: j < |ballots[i]| && ballots[i][j].mine
  }

  /** The descriptors stand at the place p of every list, for a file of this length. */
  ghost predicate AtPlace(ranks: seq<Rank>, fds: seq<int>, p: nat, link: FileLink) {
    |ranks| == |fds| && forall i | 0 <= i < |ranks| ::
      p < |ranks[i].files| && Position(ranks[i].files, fds[i]) == p && ranks[i].files[p].totallen == link.totallen
  }

  lemma {:induction false} CountedAtPlace(ranks: seq<Rank>, fds: seq<int>, p: nat, link: FileLink, d: int)
    requires AtPlace(ranks, fds, p, link)
    ensures AtPlace(Counted(ranks, p, d), fds, p, link)
  {
    forall i | 0 <= i < |ranks| ensures Position(Counted(ranks, p, d)[i].files, fds[i]) == p {
      var f, f' := ranks[i].files, Counted(ranks, p, d)[i].files;
      assert f'[p].fd == f[p].fd == fds[i];
      assert forall k | 0 <= k < p :: f'[k].fd == f[k].fd != fds[i];
    }
  }

  /** One request: one conjunction, and success everywhere exactly if everybody has found memory. */
  lemma {:induction false} LoadStep(ranks: seq<Rank>, fds: seq<int>, p: nat, link: FileLink, request: Request,
                                    round: Round, pf: Platform, log: seq<Collective>)
    requires InStep(ranks) && AtPlace(ranks, fds, p, link) && Passes(link, request)
    requires |round.calls| == |round.envs| == |ranks|
    requires forall i | 0 <= i < |ranks| :: round.calls[i] == LoadCall(fds[i], request)
    ensures Matching(ranks, round.calls) && KernelOk(ranks, round.calls, round.envs)
    ensures var e := Run(Programs(ranks, round.calls, round.envs, pf), log, 3);
      && e.Done? && |e.ranks| == |e.outcomes| == |ranks| && InStep(e.ranks) && AtPlace(e.ranks, fds, p, link)
      && e.log == log + [AllreduceAnd]
      && forall i | 0 <= i < |ranks| :: e.outcomes[i].Ok? <==> AllGranted(round.envs)
  {
    hide Run, InStep, AtPlace;
    AtPlaceFacts(ranks, fds, p, link);
    var ps := Programs(ranks, round.calls, round.envs, pf);
    CallInStep(ranks, round.calls, round.envs, pf, log);
    MmapInStep(ranks, round.calls, round.envs, ps, log);
    assert BranchOf(ranks[0].files[p], request.len, request.prot, request.flags, request.off)
        == BranchOf(link, request.len, request.prot, request.flags, request.off);
    CountedAtPlace(ranks, fds, p, link, 1);
  }

  lemma AtPlaceFacts(ranks: seq<Rank>, fds: seq<int>, p: nat, link: FileLink)
    requires InStep(ranks) && AtPlace(ranks, fds, p, link)
    ensures ranks != [] && |ranks| == |fds|
    ensures forall i | 0 <= i < |ranks| ::
              p < |ranks[i].files| && Position(ranks[i].files, fds[i]) == p && ranks[i].files[p].totallen == link.totallen
  {
  }

  lemma {:induction false} LegalLonger(ranks: seq<Rank>, rounds: seq<Round>, pf: Platform)
    requires rounds != [] && Legal(ranks, rounds[..|rounds|-1], pf)
    requires LegalNext(RunAll(ranks, rounds[..|rounds|-1], pf), rounds[|rounds|-1])
    ensures Legal(ranks, rounds, pf)
  {
    hide RunAll, LegalNext;
    var init := rounds[..|rounds|-1];
    forall k | 0 <= k < |rounds| ensures LegalNext(RunAll(ranks, rounds[..k], pf), rounds[k]) {
      if k < |init| {
        assert init[..k] == rounds[..k] && init[k] == rounds[k];
      }
    }
  }

  lemma GrantedIsMine(round: Round, fds: seq<int>, request: Request, ballots: seq<seq<Vote>>, j: nat)
    requires IsLoadRound(round, fds, request, ballots, j)
    ensures AllGranted(round.envs) <==> AllMine(ballots, j)
  {
  }

  /** However the kernels answer, the requests of a load are a legal run of the protocol: nobody waits in vain,
      there is one conjunction for each request, and the last one has succeeded everywhere exactly if
      everybody had found memory for it. */
  lemma {:induction false} LoadRuns(ranks: seq<Rank>, fds: seq<int>, p: nat, link: FileLink, requests: seq<Request>,
                                    ballots: seq<seq<Vote>>, rounds: seq<Round>, pf: Platform)
    requires InStep(ranks) && AtPlace(ranks, fds, p, link) && (forall r | r in requests :: Passes(link, r))
    requires IsLoad(rounds, fds, requests, ballots)
    ensures Legal(ranks, rounds, pf)
    ensures var e := RunAll(ranks, rounds, pf);
      && e.Done? && |e.ranks| == |ranks| && InStep(e.ranks) && AtPlace(e.ranks, fds, p, link)
      && e.log == seq(|rounds|, _ => AllreduceAnd)
      && (rounds != [] ==>
            && |e.outcomes| == |ranks|
            && forall i | 0 <= i < |ranks| :: e.outcomes[i].Ok? <==> AllMine(ballots, |rounds| - 1))
  {
    hide Run, InStep, AtPlace, Passes, Matching, KernelOk, AllGranted, AllMine;
    if rounds != [] {
      var init, n := rounds[..|rounds|-1], |rounds| - 1;
      FewerRounds(rounds, fds, requests, ballots);
      LoadRuns(ranks, fds, p, link, requests, ballots, init, pf);
      var before := RunAll(ranks, init, pf);
      AtPlaceFacts(before.ranks, fds, p, link);
      LoadStep(before.ranks, fds, p, link, requests[n], rounds[n], pf, before.log);
      LegalLonger(ranks, rounds, pf);
      GrantedIsMine(rounds[n], fds, requests[n], ballots, n);
    }
  }

  lemma {:induction false} RemapsMembers(cmds: seq<LoadCmd>, r: Request)
    requires r in Remaps(cmds)
    ensures exists c :: c in cmds && r in RemapOf(c)
  {
    var init, last := cmds[..|cmds|-1], cmds[|cmds|-1];
    assert cmds == init + [last];
    if r !in RemapOf(last) {
      RemapsMembers(init, r);
      var c :| c in init && r in RemapOf(c);
      assert c in cmds;
    }
  }

  /** No request of a load is refused by the layer itself, the check against the length of the file included. */
  lemma RequestsPass(loads: seq<Phdr>, dyn: bool, file: seq<Byte>, page: nat, link: FileLink)
    requires page > 0 && AllLoadable(loads, file, page) && InOrder(loads, page)
    requires link.totallen == RoundUp(|file|, page) && (dyn && loads != [] ==> !loads[0].prot.w)
    ensures forall r | r in RequestsOf(CmdsOf(loads, page), dyn) :: Passes(link, r)
  {
    var cmds := CmdsOf(loads, page);
    forall c | c in cmds ensures 0 <= c.mapoff && c.mapoff + (c.mapend - c.mapstart) <= link.totallen {
      var i :| 0 <= i < |cmds| && c == cmds[i];
      CmdFacts(loads[i], file, page);
    }
    hide RoundUp, RoundDown, Loadable;
    forall r | r in RequestsOf(cmds, dyn) ensures Passes(link, r) {
      if dyn && cmds != [] && r == RequestsOf(cmds, dyn)[0] {
        LengthIsNatural(loads, file, page);
      } else {
        var fixed := if dyn && cmds != [] then cmds[1..] else cmds;
        RemapsMembers(fixed, r);
      }
    }
  }

  /** From the collective open on: however the kernels answer, the requests of a load are a legal run of the
      protocol. */
  lemma {:induction false} LoadIsRun(o: Opening, loads: seq<Phdr>, dyn: bool, fds: seq<int>, ballots: seq<seq<Vote>>,
                                     rounds: seq<Round>)
    requires InStep(o.ranks) && forall k | 0 <= k < |o.ranks[0].files| :: o.ranks[0].files[k].fd != o.envs[0].fd
    requires AllLoadable(loads, o.envs[0].data, o.pf.page) && InOrder(loads, o.pf.page)
    requires dyn && loads != [] ==> !loads[0].prot.w
    requires var e := o.End();
      e.Done? && |e.ranks| == |e.outcomes| == |fds| == |o.ranks| && forall i | 0 <= i < |fds| :: e.outcomes[i] == Ok(fds[i])
    requires IsLoad(rounds, fds, RequestsOf(CmdsOf(loads, o.pf.page), dyn), ballots)
    ensures Legal(o.End().ranks, rounds, o.pf)
    ensures var e := RunAll(o.End().ranks, rounds, o.pf);
      && e.Done? && InStep(e.ranks) && e.log == seq(|rounds|, _ => AllreduceAnd)
      && (rounds != [] ==>
            && |e.outcomes| == |o.ranks|
            && forall i | 0 <= i < |o.ranks| :: e.outcomes[i].Ok? <==> AllMine(ballots, |rounds| - 1))
  {
    hide Run, RunAll, LengthOf, OpenProgram, IsLoad, AllLoadable, InOrder, RequestsOf, CmdsOf;
    var e := o.End();
    OpenInStep(o.ranks, o.path, o.envs, o.pf, o.Programs(), o.log);
    OpenSharesBytes(o.ranks, o.path, o.envs, o.pf, o.Programs(), o.log);
    OpenIsPushed(o);
    OpenedCorrespond(o.ranks, e, true);
    RequestsPass(loads, dyn, o.envs[0].data, o.pf.page, e.ranks[0].files[0]);
    assert AtPlace(e.ranks, fds, 0, e.ranks[0].files[0]);
    LoadRuns(e.ranks, fds, 0, e.ranks[0].files[0], RequestsOf(CmdsOf(loads, o.pf.page), dyn), ballots, rounds, o.pf);
  }

  lemma {:induction false} OpenIsPushed(o: Opening)
    ensures o.End().Done? && |o.End().ranks| == |o.ranks| && |o.End().ranks[0].files| > |o.ranks[0].files|
  {
    hide Run, LengthOf, OpenProgram;
    OpenSucceeds(o.ranks, o.path, o.envs, o.pf, o.Programs(), o.log);
  }

  /** The first n requests as rounds, the kernels answering as the ballots say. */
  function LoadRounds(fds: seq<int>, requests: seq<Request>, ballots: seq<seq<Vote>>, n: nat): (rounds: seq<Round>)
    requires n <= |requests| && |ballots| == |fds| && (forall i | 0 <= i < |ballots| :: n <= |ballots[i]|)
    requires forall r | r in requests :: r.len >= 0
    ensures |rounds| == n
  {
    seq(n, j requires 0 <= j < n =>
      Round(seq(|fds|, i requires 0 <= i < |fds| => LoadCall(fds[i], requests[j])),
            seq(|fds|, i requires 0 <= i < |fds| => Env(0, 0, true, 0, [], ballots[i][j].mine, 0, 0))))
  }

  lemma LoadRoundsAre(fds: seq<int>, requests: seq<Request>, ballots: seq<seq<Vote>>, n: nat)
    requires n <= |requests| && |ballots| == |fds| && (forall i | 0 <= i < |ballots| :: n <= |ballots[i]|)
    requires forall r | r in requests :: r.len >= 0
    ensures IsLoad(LoadRounds(fds, requests, ballots, n), fds, requests, ballots)
  {
    var rounds := LoadRounds(fds, requests, ballots, n);
    forall j | 0 <= j < n ensures IsLoadRound(rounds[j], fds, requests[j], ballots, j) {
    }
  }

  /** What processes that have loaded an object have asked of the layer, up to the n-th request of each, is a
      legal run of the protocol with the answers they got: nobody waits in vain, and if all of them loaded,
      every request succeeded everywhere. */
  lemma {:induction false} LoadedInStep(o: Opening, phdrs: seq<Phdr>, dyn: bool, k: nat, fds: seq<int>,
                                        ballots: seq<seq<Vote>>, errors: seq<LoadError>, n: nat)
    requires InStep(o.ranks) && forall j | 0 <= j < |o.ranks[0].files| :: o.ranks[0].files[j].fd != o.envs[0].fd
    requires Suitable(phdrs, dyn, o.envs[0].data, o.pf.page, k) && FirstError(phdrs, o.pf.page) == NoError
    requires var e := o.End();
      e.Done? && |e.ranks| == |e.outcomes| == |fds| == |o.ranks| && forall i | 0 <= i < |fds| :: e.outcomes[i] == Ok(fds[i])
    requires |ballots| == |errors| == |fds| && forall i | 0 <= i < |fds| ::
               n <= |ballots[i]| && Asked([], ballots[i], RequestsOf(CmdsOf(Loads(phdrs), o.pf.page), dyn), errors[i])
    ensures var requests := RequestsOf(CmdsOf(Loads(phdrs), o.pf.page), dyn);
      && n <= |requests| && (forall r | r in requests :: r.len >= 0)
      && var rounds := LoadRounds(fds, requests, ballots, n); var e := RunAll(o.End().ranks, rounds, o.pf);
         && Legal(o.End().ranks, rounds, o.pf) && e.Done? && InStep(e.ranks) && e.log == seq(n, _ => AllreduceAnd)
         && ((forall i | 0 <= i < |errors| :: errors[i] == NoError) ==>
               SameFate(e.outcomes) && forall c | c in e.outcomes :: c.Ok?)
  {
    hide Run, RunAll, LengthOf, OpenProgram, IsLoad, InOrder, RequestsOf, CmdsOf, Asked, OpeningData.End, Legal, InStep,
        Suitable, AllLoadable, Loads, FirstError;
    var loads := Loads(phdrs);
    var requests := RequestsOf(CmdsOf(loads, o.pf.page), dyn);
    SuitableLoads(o, phdrs, dyn, k);
    forall i | 0 <= i < |fds| ensures n <= |requests| && (errors[i] == NoError ==> forall j | 0 <= j < n :: ballots[i][j].mine) {
      AskedVotes(ballots[i], requests, errors[i]);
    }
    AskedVotes(ballots[0], requests, errors[0]);
    LoadRoundsAre(fds, requests, ballots, n);
    LoadIsRun(o, loads, dyn, fds, ballots, LoadRounds(fds, requests, ballots, n));
    NoRounds(o.End().ranks, o.pf);
  }

  lemma SuitableLoads(o: Opening, phdrs: seq<Phdr>, dyn: bool, k: nat)
    requires Suitable(phdrs, dyn, o.envs[0].data, o.pf.page, k) && FirstError(phdrs, o.pf.page) == NoError
    ensures var loads, page := Loads(phdrs), o.pf.page;
      && AllLoadable(loads, o.envs[0].data, page) && InOrder(loads, page) && (dyn && loads != [] ==> !loads[0].prot.w)
      && forall r | r in RequestsOf(CmdsOf(loads, page), dyn) :: r.len >= 0
  {
    hide Run, LengthOf, OpenProgram, OpeningData.End, RequestsOf, CmdsOf, FirstError, InOrder;
    ChecksPassed(phdrs, k);
    AllLoadableOf(Loads(phdrs), o.envs[0].data, o.pf.page);
    LinkLength(o);
    RequestsPass(Loads(phdrs), dyn, o.envs[0].data, o.pf.page, o.End().ranks[0].files[0]);
  }

  lemma AllLoadableOf(loads: seq<Phdr>, file: seq<Byte>, page: nat)
    requires page > 0 && InFile(loads, file) && forall ph | ph in loads :: Aligned(ph.vaddr - ph.offset, page)
    ensures AllLoadable(loads, file, page)
  {
  }

  lemma {:induction false} LinkLength(o: Opening)
    ensures var e := o.End(); e.Done? && |e.ranks| == |o.ranks| && e.ranks[0].files != []
    ensures o.End().ranks[0].files[0].totallen == RoundUp(|o.envs[0].data|, o.pf.page)
  {
    hide Run, LengthOf, OpenProgram;
    OpenSharesBytes(o.ranks, o.path, o.envs, o.pf, o.Programs(), o.log);
  }

  lemma NoRounds(ranks: seq<Rank>, pf: Platform)
    ensures RunAll(ranks, [], pf) == Done(ranks, [], [])
  {
  }

  // ---------- together or not at all ----------

  /** Every conjunction has told everybody the same, and has been served only because all had reached it. */
  ghost predicate Reduced(ballots: seq<seq<Vote>>) {
    forall i, j | 0 <= i < |ballots| && 0 <= j < |ballots[i]| :: ballots[i][j].all <==> AllMine(ballots, j)
  }

  /** If no process fails by itself, between two mappings, then all load or all fail, at the same request. */
  lemma TogetherOrNot(ballots: seq<seq<Vote>>, requests: seq<Request>, errors: seq<LoadError>)
    requires |errors| == |ballots| && Reduced(ballots)
    requires forall i | 0 <= i < |ballots| ::
               Asked([], ballots[i], requests, errors[i]) && (errors[i] == NoError || errors[i] == MapError)
    ensures forall i, j | 0 <= i < |ballots| && 0 <= j < |ballots| ::
              errors[i] == errors[j] && |ballots[i]| == |ballots[j]|
  {
    hide Asked;
    forall i, j | 0 <= i < |ballots| && 0 <= j < |ballots|
      ensures |ballots[i]| <= |ballots[j]| && (errors[j] == MapError ==> errors[i] == MapError)
    {
      var n := |ballots[j]|;
      AskedVotes(ballots[i], requests, errors[i]);
      AskedVotes(ballots[j], requests, errors[j]);
      if errors[j] == MapError && n <= |ballots[i]| {
        assert ballots[j][n-1].all <==> AllMine(ballots, n - 1);
        assert ballots[i][n-1].all <==> AllMine(ballots, n - 1);
      }
    }
    forall i, j | 0 <= i < |ballots| && 0 <= j < |ballots| ensures |ballots[i]| == |ballots[j]| && errors[i] == errors[j] {
      assert |ballots[i]| <= |ballots[j]| && |ballots[j]| <= |ballots[i]|;
      assert errors[j] == MapError ==> errors[i] == MapError;
      assert errors[i] == MapError ==> errors[j] == MapError;
    }
  }

  lemma AskedVotes(votes: seq<Vote>, requests: seq<Request>, error: LoadError)
    requires Asked([], votes, requests, error)
    ensures |votes| <= |requests| && (error == NoError ==> |votes| == |requests|) && (error == MapError ==> votes != [])
    ensures forall j | 0 <= j < |votes| :: votes[j].all <==> error != MapError || j < |votes| - 1
    ensures forall j | 0 <= j < |votes| :: votes[j].all ==> votes[j].mine
  {
    assert votes[0..] == votes;
  }

  /** A process that has failed by itself leaves the others waiting: the next mapping ends exactly when
      everybody has come to it or nobody. */
  lemma {:induction false} NextMappingEndsIff(ranks: seq<Rank>, here: seq<bool>, fds: seq<int>, p: nat, link: FileLink,
      request: Request, envs: seq<Env>, ps: seq<Program>, log: seq<Collective>)
    requires InStep(ranks) && AtPlace(ranks, fds, p, link) && Passes(link, request) && |here| == |envs| == |ps| == |ranks|
    requires forall i | 0 <= i < |ranks| :: ps[i] ==
               if here[i] then MmapProgram(ranks[i], fds[i], request.len, request.prot, request.flags, request.off, envs[i])
               else Return(ranks[i], Err(ECOLLFS))
    ensures Run(ps, log, 3).Done? <==> (forall i | 0 <= i < |here| :: here[i]) || (forall i | 0 <= i < |here| :: !here[i])
  {
    forall i | 0 <= i < |ranks|
      ensures here[i] ==> ps[i].Meet?
      ensures !here[i] ==> ps[i].Return?
    {
      assert BranchOf(ranks[i].files[p], request.len, request.prot, request.flags, request.off)
          == BranchOf(link, request.len, request.prot, request.flags, request.off);
    }
    if forall i | 0 <= i < |here| :: here[i] {
      var round := Round(seq(|ranks|, i requires 0 <= i < |ranks| => LoadCall(fds[i], request)), envs);
      LoadStep(ranks, fds, p, link, request, round, Platform(1, 0), log);
      assert Programs(ranks, round.calls, envs, Platform(1, 0)) == ps;
    }
  }

  /** The next request of a load, where only the processes that have more than j requests to put come to it;
      the others have failed by themselves and returned. */
  function Arrivals(ranks: seq<Rank>, fds: seq<int>, request: Request, stops: seq<nat>, j: nat,
      envs: seq<Env>): (ps: seq<Program>)
    requires |ranks| == |fds| == |stops| == |envs| && request.len >= 0
    ensures |ps| == |ranks|
  {
    seq(|ranks|, i requires 0 <= i < |ranks| =>
      if j < stops[i] then MmapProgram(ranks[i], fds[i], request.len, request.prot, request.flags, request.off, envs[i])
      else Return(ranks[i], Err(ECOLLFS)))
  }

  /** Everybody has found memory for the first n requests. */
  ghost predicate GrantedBefore(envs: seq<seq<Env>>, n: nat)
    requires n <= |envs|
  {
    forall j | 0 <= j < n :: AllGranted(envs[j])
  }

  ghost predicate LoadFits(ranks: seq<Rank>, fds: seq<int>, requests: seq<Request>, stops: seq<nat>, envs: seq<seq<Env>>) {
    && |ranks| == |fds| == |stops| && |envs| == |requests|
    && (forall r | r in requests :: r.len >= 0) && forall j | 0 <= j < |envs| :: |envs[j]| == |ranks|
  }

  /** The first n requests of a load in which the process i puts stops[i] requests, and nobody puts another one
      after one that has not been granted. */
  ghost function LoadRun(ranks: seq<Rank>, fds: seq<int>, requests: seq<Request>, stops: seq<nat>, envs: seq<seq<Env>>,
                         n: nat): Ending
    requires LoadFits(ranks, fds, requests, stops, envs) && n <= |requests|
  {
    if n == 0 then Done(ranks, [], [])
    else
      var before := LoadRun(ranks, fds, requests, stops, envs, n - 1);
      if before.Stuck? || |before.ranks| != |ranks| then Stuck
      else if !GrantedBefore(envs, n - 1) then before
      else Run(Arrivals(before.ranks, fds, requests[n-1], stops, n - 1, envs[n-1]), before.log, 3)
  }

  /** All come to the request j, or none. */
  ghost predicate SameArrival(stops: seq<nat>, j: nat) {
    (forall i | 0 <= i < |stops| :: j < stops[i]) || (forall i | 0 <= i < |stops| :: j >= stops[i])
  }

  /** A load ends on all processes, nobody waiting in vain, exactly when to each request before which all were
      granted either everybody comes or nobody. */
  lemma {:induction false} LoadEndsIff(ranks: seq<Rank>, fds: seq<int>, p: nat, link: FileLink, requests: seq<Request>,
      stops: seq<nat>, envs: seq<seq<Env>>, n: nat)
    requires LoadFits(ranks, fds, requests, stops, envs) && n <= |requests|
    requires InStep(ranks) && AtPlace(ranks, fds, p, link) && forall r | r in requests :: Passes(link, r)
    ensures var e := LoadRun(ranks, fds, requests, stops, envs, n);
      && (e.Done? <==> forall j | 0 <= j < n && GrantedBefore(envs, j) :: SameArrival(stops, j))
      && (e.Done? ==> |e.ranks| == |ranks| && InStep(e.ranks) && AtPlace(e.ranks, fds, p, link))
  {
    hide InStep, AtPlace, Passes, Run, SameArrival, GrantedBefore;
    if n > 0 {
      LoadEndsIff(ranks, fds, p, link, requests, stops, envs, n - 1);
      var before := LoadRun(ranks, fds, requests, stops, envs, n - 1);
      if before.Done? {
        if GrantedBefore(envs, n - 1) {
          ArrivalsEndIff(before.ranks, fds, p, link, requests[n-1], stops, n - 1, envs[n-1], before.log);
        }
      }
    }
  }

  lemma {:induction false} ArrivalsEndIff(ranks: seq<Rank>, fds: seq<int>, p: nat, link: FileLink, request: Request,
      stops: seq<nat>, j: nat, envs: seq<Env>, log: seq<Collective>)
    requires |ranks| == |fds| == |stops| == |envs| && request.len >= 0
    requires InStep(ranks) && AtPlace(ranks, fds, p, link) && Passes(link, request)
    ensures var e := Run(Arrivals(ranks, fds, request, stops, j, envs), log, 3);
      && (e.Done? <==> SameArrival(stops, j))
      && (e.Done? ==> |e.ranks| == |ranks| && InStep(e.ranks) && AtPlace(e.ranks, fds, p, link))
  {
    hide Run, InStep, AtPlace, Passes;
    var n, ps := |ranks|, Arrivals(ranks, fds, request, stops, j, envs);
    var here := seq(n, i requires 0 <= i < n => j < stops[i]);
    assert forall i | 0 <= i < n :: here[i] <==> j < stops[i];
    NextMappingEndsIff(ranks, here, fds, p, link, request, envs, ps, log);
    AtPlaceFacts(ranks, fds, p, link);
    if forall i | 0 <= i < n :: here[i] {
      var round := Round(seq(n, i requires 0 <= i < n => LoadCall(fds[i], request)), envs);
      LoadStep(ranks, fds, p, link, request, round, Platform(1, 0), log);
      assert Programs(ranks, round.calls, envs, Platform(1, 0)) == ps;
    } else if forall i | 0 <= i < n :: !here[i] {
      Finished(ps, ranks, seq(n, _ => Err(ECOLLFS)), log, 3);
    }
  }

  /** Rank 0 has failed by itself before it puts the request that rank 1 waits in. */
  lemma LeftWaiting()
    ensures var prot, env := Prot(true, false, false), Env(0, 0, true, 0, [], true, 0, 0);
      var ranks := [Rank([FileLink(3, 1, "l", [], 4, 4, 0)], 10001), Rank([FileLink(10002, 1, "l", [], 4, 4, 0)], 10003)];
      LoadRun(ranks, [3, 10002], [Request(4, prot, MapFlags(true, false, false), 0)], [0, 1], [[env, env]], 1) == Stuck
  {
    var prot, env := Prot(true, false, false), Env(0, 0, true, 0, [], true, 0, 0);
    var link := FileLink(3, 1, "l", [], 4, 4, 0);
    var ranks := [Rank([link], 10001), Rank([FileLink(10002, 1, "l", [], 4, 4, 0)], 10003)];
    var requests := [Request(4, prot, MapFlags(true, false, false), 0)];
    hide Run;
    LoadEndsIff(ranks, [3, 10002], 0, link, requests, [0, 1], [[env, env]], 1);
    var stops: seq<nat> := [0, 1];
    assert stops[0] == 0 && stops[1] == 1;
    assert !SameArrival(stops, 0) && GrantedBefore([[env, env]], 0);
  }
}
