/** The collective file layer as N processes on one pushed communicator.  Each process runs its own
    program; the communicator serves a collective operation only when all of them have reached it. */
module CollfsProtocol {
  import opened ByteSequences
  import opened CollfsFiles
  import opened Paging

  // ---------- processes and the communicator ----------

  /** What one process keeps between calls: DLOpenFiles, newest first, and NextFD. */
  datatype Rank = Rank(files: seq<FileLink>, nextFd: int)

  const BASE_FD := 10000

  datatype Outcome = Ok(value: int) | Err(errno: Errno)

  /** An operation on the communicator: a broadcast by rank 0 of so many ints or bytes, or the
      conjunction of everybody's flag. */
  datatype Collective = BcastInts(n: nat) | BcastBytes(n: nat) | AllreduceAnd

  datatype Value = Ints(ints: seq<int>) | Bytes(bytes: seq<Byte>) | Flag(flag: bool)

  /** What is left of a call: nothing but its result, or a collective operation, what the process brings
      to it, and how it goes on with what it gets. */
  datatype Program = Return(rank: Rank, outcome: Outcome) | Meet(op: Collective, mine: Value, next: Value -> Program)

  /** What everybody gets. */
  function Combined(ps: seq<Program>): Value
    requires ps != [] && forall i | 0 <= i < |ps| :: ps[i].Meet?
  {
    if ps[0].op.AllreduceAnd? then Flag(forall i | 0 <= i < |ps| :: ps[i].mine == Flag(true)) else ps[0].mine
  }

  datatype Ending = Done(ranks: seq<Rank>, outcomes: seq<Outcome>, log: seq<Collective>) | Stuck

  /** Runs all programs.  Stuck: some process waits in a collective operation that another one never
      enters, or they have entered different ones (or there was not enough fuel). */
  function Run(ps: seq<Program>, log: seq<Collective>, fuel: nat): Ending
    decreases fuel
  {
    if forall i | 0 <= i < |ps| :: ps[i].Return? then
      Done(seq(|ps|, i requires 0 <= i < |ps| && ps[i].Return? => ps[i].rank),
           seq(|ps|, i requires 0 <= i < |ps| && ps[i].Return? => ps[i].outcome), log)
    else if fuel == 0 || exists i :: 0 <= i < |ps| && !(ps[i].Meet? && ps[0].Meet? && ps[i].op == ps[0].op) then Stuck
    else
      var v := Combined(ps);
      Run(seq(|ps|, i requires 0 <= i < |ps| && ps[i].Meet? => ps[i].next(v)), log + [ps[0].op], fuel - 1)
  }

  // ---------- the calls of the layer ----------

  datatype Call =
    | Open(path: string, readOnly: bool)
    | Close(fd: int)
    | Fxstat(fd: int)
    | Xstat(path: string)
    | Mmap(fd: int, len: nat, prot: Prot, flags: MapFlags, off: int)

  datatype PlatformData = Platform(page: nat, statSize: nat)

  type Platform = pf: PlatformData | pf.page > 0 witness Platform(1, 0)

  /** What the process's own kernel answers during a call. */
  datatype Env = Env(fd: int, errno: int, statOk: bool, size: nat, data: seq<Byte>, memory: bool, addr: int, status: int)

  /** The index of the first file with this descriptor, or |files|. */
  function Position(files: seq<FileLink>, fd: int): (p: nat)
    ensures p <= |files|
    ensures p < |files| ==> files[p].fd == fd
    ensures forall i | 0 <= i < p :: files[i].fd != fd
  {
    if files == [] || files[0].fd == fd then 0 else 1 + Position(files[1..], fd)
  }

  /** The length that rank 0 announces; negative when the file cannot be opened. */
  function LengthOf(env: Env): int {
    if env.fd < 0 || !env.statOk then -1 else Int32(env.size)
  }

  function OpenProgram(r: Rank, root: bool, path: string, readOnly: bool, env: Env, pf: Platform): Program
  {
    if !readOnly then Return(r, if env.fd < 0 then Err(Saved(env.errno)) else Ok(env.fd))
    else Meet(BcastInts(2), Ints(if root then [LengthOf(env), env.errno] else [0, 0]),
              v => OpenWithLength(r, root, path, env, pf, v))
  }

  function OpenWithLength(r: Rank, root: bool, path: string, env: Env, pf: Platform, v: Value): Program
  {
    if !(v.Ints? && |v.ints| == 2) then Return(r, Err(ECOLLFS))
    else if v.ints[0] < 0 then Return(r, Err(Saved(v.ints[1])))
    else
      // every process but rank 0 takes a first synthetic descriptor here; whether memory was found is
      // tested against the null pointer, which a failed mmap does not return
      Meet(AllreduceAnd, Flag(true),
           g => OpenWithMemory(if root then r else r.(nextFd := r.nextFd + 1), root, path, env, pf, v.ints[0], g))
  }

  function OpenWithMemory(r: Rank, root: bool, path: string, env: Env, pf: Platform, len: nat, g: Value): Program
  {
    if g != Flag(true) then Return(r, Err(ECOLLFS))
    else Meet(BcastBytes(len), Bytes(env.data), b => OpenWithBytes(r, root, path, env, pf, len, b))
  }

  function OpenWithBytes(r: Rank, root: bool, path: string, env: Env, pf: Platform, len: nat, b: Value): Program
  {
    var fd := if root then env.fd else r.nextFd;
    var total := RoundUp(len, pf.page);
    var mem := if b.Bytes? && |b.bytes| <= total && env.memory then b.bytes + seq(total - |b.bytes|, _ => 0) else [];
    Return(Rank([FileLink(fd, 1, path, mem, len, total, 0)] + r.files, if root then r.nextFd else r.nextFd + 1), Ok(fd))
  }

  function CloseProgram(r: Rank, root: bool, fd: int, env: Env): Program {
    var p := Position(r.files, fd);
    if p == |r.files| then Return(r, Ok(env.status))
    else if r.files[p].refct - 1 > 0 then
      Return(r.(files := r.files[p := r.files[p].(refct := r.files[p].refct - 1)]), Ok(0))
    else
      Meet(BcastInts(1), Ints([if root then env.status else 0]),
           _ => Return(r.(files := r.files[..p] + r.files[p+1..]), Ok(0)))
  }

  /** The status of rank 0 is broadcast, and not looked at. */
  function StatProgram(r: Rank, env: Env, size: nat): Program {
    Meet(BcastInts(1), Ints([env.status]), _ => Meet(BcastBytes(size), Bytes(env.data), _ => Return(r, Ok(0))))
  }

  function MmapProgram(r: Rank, fd: int, len: nat, prot: Prot, flags: MapFlags, off: int, env: Env): Program {
    var p := Position(r.files, fd);
    if off < 0 then Return(r, Err(ENXIO))
    else if p == |r.files| then Return(r, Ok(env.addr))
    else MmapOf(r, p, len, prot, flags, off, env)
  }

  /** The same, for the file at place p of the list. */
  function MmapOf(r: Rank, p: nat, len: nat, prot: Prot, flags: MapFlags, off: int, env: Env): Program
    requires p < |r.files|
  {
    match BranchOf(r.files[p], len, prot, flags, off)
    case Refuse(errno) => Return(r, Err(errno))
    case Remap => Meet(AllreduceAnd, Flag(env.memory), g => Return(r, if g == Flag(true) then Ok(env.addr) else Err(ECOLLFS)))
    case Extend =>
      Meet(AllreduceAnd, Flag(env.memory),
           g => if g != Flag(true) then Return(r, Err(ECOLLFS))
                else Return(r.(files := r.files[p := r.files[p].(refct := r.files[p].refct + 1)]), Ok(env.addr)))
  }

  function ProgramOf(r: Rank, root: bool, call: Call, env: Env, pf: Platform): Program
  {
    match call
    case Open(path, readOnly) => OpenProgram(r, root, path, readOnly, env, pf)
    case Close(fd) => CloseProgram(r, root, fd, env)
    case Fxstat(fd) => if Position(r.files, fd) == |r.files| then Return(r, Ok(env.status)) else StatProgram(r, env, pf.statSize)
    case Xstat(_) => StatProgram(r, env, pf.statSize)
    case Mmap(fd, len, prot, flags, off) => MmapProgram(r, fd, len, prot, flags, off, env)
  }

  // ---------- processes in step ----------

  ghost predicate Alike(a: FileLink, b: FileLink) {
    a.fname == b.fname && a.len == b.len && a.totallen == b.totallen && a.refct == b.refct
  }

  ghost predicate AlikeLists(a: seq<FileLink>, b: seq<FileLink>) {
    |a| == |b| && forall i | 0 <= i < |a| :: Alike(a[i], b[i])
  }

  /** No descriptor names two files; on the other ranks all of them are synthetic and in the past. */
  ghost predicate RankOk(r: Rank, root: bool) {
    && (forall i, j | 0 <= i < j < |r.files| :: r.files[i].fd != r.files[j].fd)
    && (!root ==> r.nextFd > BASE_FD && forall i | 0 <= i < |r.files| :: BASE_FD < r.files[i].fd < r.nextFd)
  }

  ghost predicate InStep(ranks: seq<Rank>) {
    && ranks != []
    && forall i | 0 <= i < |ranks| :: AlikeLists(ranks[i].files, ranks[0].files) && RankOk(ranks[i], i == 0)
  }

  /** The same request; the descriptors may differ. */
  ghost predicate SameCall(a: Call, b: Call) {
    match a
    case Open(path, readOnly) => b == a
    case Close(_) => b.Close?
    case Fxstat(_) => b.Fxstat?
    case Xstat(_) => b == a
    case Mmap(_, len, prot, flags, off) => b.Mmap? && b == a.(fd := b.fd)
  }

  ghost predicate HasFd(call: Call) {
    call.Close? || call.Fxstat? || call.Mmap?
  }

  /** Every process makes the same call, on descriptors that stand at the same place of its list. */
  ghost predicate Matching(ranks: seq<Rank>, calls: seq<Call>)
    requires ranks != []
  {
    && |calls| == |ranks|
    && forall i | 0 <= i < |ranks| ::
         && SameCall(calls[0], calls[i])
         && (HasFd(calls[0]) ==> Position(ranks[i].files, calls[i].fd) == Position(ranks[0].files, calls[0].fd))
  }

  /** Rank 0's kernel does not hand out a descriptor that is still open. */
  ghost predicate KernelOk(ranks: seq<Rank>, calls: seq<Call>, envs: seq<Env>)
    requires ranks != [] && |calls| == |ranks|
  {
    && |envs| == |ranks|
    && (calls[0].Open? && calls[0].readOnly ==> forall k | 0 <= k < |ranks[0].files| :: ranks[0].files[k].fd != envs[0].fd)
  }

  function Programs(ranks: seq<Rank>, calls: seq<Call>, envs: seq<Env>, pf: Platform): (ps: seq<Program>)
    requires |calls| == |ranks| == |envs|
    ensures |ps| == |ranks| && forall i | 0 <= i < |ps| :: ps[i] == ProgramOf(ranks[i], i == 0, calls[i], envs[i], pf)
  {
    seq(|ranks|, i requires 0 <= i < |ranks| => ProgramOf(ranks[i], i == 0, calls[i], envs[i], pf))
  }

  /** A call that involves the communicator at all. */
  ghost predicate IsCollective(r: Rank, call: Call) {
    match call
    case Open(_, readOnly) => readOnly
    case Xstat(_) => true
    case Mmap(fd, _, _, _, off) => off < 0 || Position(r.files, fd) < |r.files|
    case _ => Position(r.files, call.fd) < |r.files|
  }

  /** All succeed, or all fail for the same reason. */
  ghost predicate SameFate(outcomes: seq<Outcome>) {
    forall i | 0 <= i < |outcomes| ::
      outcomes[i].Ok? == outcomes[0].Ok? && (outcomes[i].Err? ==> outcomes[i] == outcomes[0])
  }

  lemma {:induction false} Finished(ps: seq<Program>, ranks: seq<Rank>, outcomes: seq<Outcome>, log: seq<Collective>, fuel: nat)
    requires |ps| == |ranks| == |outcomes|
    requires forall i | 0 <= i < |ps| :: ps[i] == Return(ranks[i], outcomes[i])
    ensures Run(ps, log, fuel) == Done(ranks, outcomes, log)
  {
    assert seq(|ps|, i requires 0 <= i < |ps| && ps[i].Return? => ps[i].rank) == ranks;
    assert seq(|ps|, i requires 0 <= i < |ps| && ps[i].Return? => ps[i].outcome) == outcomes;
  }

  /** One collective operation that all processes have reached. */
  lemma {:induction false} Served(ps: seq<Program>, qs: seq<Program>, op: Collective, log: seq<Collective>, fuel: nat)
    requires ps != [] && fuel > 0 && |qs| == |ps| && forall i | 0 <= i < |ps| :: ps[i].Meet? && ps[i].op == op
    requires forall i | 0 <= i < |ps| :: qs[i] == ps[i].next(Combined(ps))
    ensures Run(ps, log, fuel) == Run(qs, log + [op], fuel - 1)
  {
    var v := Combined(ps);
    assert !ps[0].Return?;
    assert seq(|ps|, i requires 0 <= i < |ps| && ps[i].Meet? => ps[i].next(v)) == qs;
  }

  /** What a call does to a list: nothing but counts, a new head, or one entry less. */
  datatype Change = Same | Pushed | Dropped(at: nat)

  ghost predicate Changed(f: seq<FileLink>, f': seq<FileLink>, ch: Change) {
    match ch
    case Same => |f'| == |f| && forall k | 0 <= k < |f| :: f'[k].fd == f[k].fd
    case Pushed => |f'| == |f| + 1 && f'[1..] == f
    case Dropped(at) => at < |f| && f' == f[..at] + f[at+1..]
  }

  /** The place of a descriptor after the change, given its place before; n is the new length. */
  function PlaceAfter(p: nat, ch: Change, n: nat): nat {
    match ch
    case Same => p
    case Pushed => p + 1
    case Dropped(at) => if p < at then p else if p == at then n else p - 1
  }

  /** All lists have changed in the same way; a new head is what the call has returned. */
  ghost predicate AllChanged(ranks: seq<Rank>, ranks': seq<Rank>, outcomes: seq<Outcome>, ch: Change)
    requires |ranks| == |ranks'| == |outcomes|
  {
    forall i | 0 <= i < |ranks| ::
      && Changed(ranks[i].files, ranks'[i].files, ch)
      && (ch.Pushed? ==> outcomes[i] == Ok(ranks'[i].files[0].fd))
  }

  /** The processes end a call in step, with the same fate if the call is collective, and their lists
      have changed alike. */
  ghost predicate WellEnded(e: Ending, ranks: seq<Rank>, fate: bool) {
    && e.Done? && |e.ranks| == |e.outcomes| == |ranks| && InStep(e.ranks) && (fate ==> SameFate(e.outcomes))
    && exists ch :: AllChanged(ranks, e.ranks, e.outcomes, ch)
  }

  /** A call that returns at once. */
  lemma {:induction false} ReturnsAtOnce(ranks: seq<Rank>, ps: seq<Program>, ranks': seq<Rank>,
      outcomes: seq<Outcome>, log: seq<Collective>, fuel: nat, fate: bool, ch: Change)
    requires |ps| == |ranks| == |ranks'| == |outcomes| && InStep(ranks') && (fate ==> SameFate(outcomes))
    requires AllChanged(ranks, ranks', outcomes, ch)
    requires forall i | 0 <= i < |ps| :: ps[i] == Return(ranks'[i], outcomes[i])
    ensures Run(ps, log, fuel) == Done(ranks', outcomes, log) && WellEnded(Run(ps, log, fuel), ranks, fate)
  {
    Finished(ps, ranks', outcomes, log, fuel);
  }

  /** Both stat calls. */
  lemma {:induction false} StatEnds(ranks: seq<Rank>, ps: seq<Program>, envs: seq<Env>, size: nat, log: seq<Collective>)
    requires ranks != [] && |ps| == |ranks| == |envs| && forall i | 0 <= i < |ps| :: ps[i] == StatProgram(ranks[i], envs[i], size)
    ensures Run(ps, log, 3) == Done(ranks, seq(|ranks|, _ => Ok(0)), log + [BcastInts(1)] + [BcastBytes(size)])
  {
    hide Run;
    var n := |ps|;
    var qs := seq(n, i requires 0 <= i < n => Meet(BcastBytes(size), Bytes(envs[i].data), _ => Return(ranks[i], Ok(0))));
    var zs := seq(n, i requires 0 <= i < n => Return(ranks[i], Ok(0)));
    Served(ps, qs, BcastInts(1), log, 3);
    Served(qs, zs, BcastBytes(size), log + [BcastInts(1)], 2);
    Finished(zs, ranks, seq(n, _ => Ok(0)), log + [BcastInts(1)] + [BcastBytes(size)], 1);
  }

  lemma {:induction false} StatInStep(ranks: seq<Rank>, ps: seq<Program>, envs: seq<Env>, size: nat, log: seq<Collective>)
    requires InStep(ranks) && |ps| == |ranks| == |envs| &&
        forall i | 0 <= i < |ps| :: ps[i] == StatProgram(ranks[i], envs[i], size)
    ensures WellEnded(Run(ps, log, 3), ranks, true)
  {
    hide Run, RankOk, AlikeLists;
    StatEnds(ranks, ps, envs, size, log);
    assert AllChanged(ranks, ranks, seq(|ranks|, _ => Ok(0)), Same);
  }

  /** Everybody changes the count of the entry at the same place. */
  function Counted(ranks: seq<Rank>, p: nat, d: int): (rs: seq<Rank>)
    requires forall i | 0 <= i < |ranks| :: p < |ranks[i].files|
    ensures |rs| == |ranks|
  {
    seq(|ranks|, i requires 0 <= i < |ranks| =>
      ranks[i].(files := ranks[i].files[p := ranks[i].files[p].(refct := ranks[i].files[p].refct + d)]))
  }

  /** Everybody takes the entry at the same place out. */
  function Removed(ranks: seq<Rank>, p: nat): (rs: seq<Rank>)
    requires forall i | 0 <= i < |ranks| :: p < |ranks[i].files|
    ensures |rs| == |ranks|
  {
    seq(|ranks|, i requires 0 <= i < |ranks| => ranks[i].(files := ranks[i].files[..p] + ranks[i].files[p+1..]))
  }

  lemma {:induction false} CountChanged(ranks: seq<Rank>, p: nat, d: int)
    requires InStep(ranks) && forall i | 0 <= i < |ranks| :: p < |ranks[i].files|
    ensures InStep(Counted(ranks, p, d))
    ensures forall i | 0 <= i < |ranks| :: Changed(ranks[i].files, Counted(ranks, p, d)[i].files, Same)
  {
    var ranks' := Counted(ranks, p, d);
    forall i | 0 <= i < |ranks| ensures AlikeLists(ranks'[i].files, ranks'[0].files) && RankOk(ranks'[i], i == 0) {
      assert RankOk(ranks[i], i == 0) && AlikeLists(ranks[i].files, ranks[0].files);
      assert forall k | 0 <= k < |ranks[i].files| :: ranks'[i].files[k].fd == ranks[i].files[k].fd;
      assert Alike(ranks[i].files[p], ranks[0].files[p]);
    }
  }

  lemma {:induction false} EntryRemoved(ranks: seq<Rank>, p: nat)
    requires InStep(ranks) && forall i | 0 <= i < |ranks| :: p < |ranks[i].files|
    ensures InStep(Removed(ranks, p))
    ensures forall i | 0 <= i < |ranks| :: Changed(ranks[i].files, Removed(ranks, p)[i].files, Dropped(p))
  {
    var ranks' := Removed(ranks, p);
    forall i | 0 <= i < |ranks| ensures AlikeLists(ranks'[i].files, ranks'[0].files) && RankOk(ranks'[i], i == 0) {
      assert RankOk(ranks[i], i == 0) && AlikeLists(ranks[i].files, ranks[0].files);
    }
  }

  /** How a close of the file at place p ends: everybody counts down, or everybody takes the entry out and
      meets in one broadcast. */
  ghost predicate CloseEnds(e: Ending, ranks: seq<Rank>, p: nat, log: seq<Collective>)
    requires ranks != [] && forall i | 0 <= i < |ranks| :: p < |ranks[i].files|
  {
    e == if ranks[0].files[p].refct > 1 then Done(Counted(ranks, p, -1), seq(|ranks|, _ => Ok(0)), log)
         else Done(Removed(ranks, p), seq(|ranks|, _ => Ok(0)), log + [BcastInts(1)])
  }

  lemma {:induction false} CloseOnFile(ranks: seq<Rank>, fds: seq<int>, p: nat, envs: seq<Env>, ps: seq<Program>,
                                       log: seq<Collective>)
    requires InStep(ranks) && |ranks| == |ps| == |envs| == |fds|
    requires forall i | 0 <= i < |ps| :: p < |ranks[i].files| && Position(ranks[i].files, fds[i]) == p
    requires forall i | 0 <= i < |ps| :: Alike(ranks[i].files[p], ranks[0].files[p])
    requires forall i | 0 <= i < |ps| :: ps[i] == CloseProgram(ranks[i], i == 0, fds[i], envs[i])
    ensures CloseEnds(Run(ps, log, 3), ranks, p, log) && WellEnded(Run(ps, log, 3), ranks, true)
  {
    hide Run, RankOk, AlikeLists, Changed;
    var n := |ps|;
    if ranks[0].files[p].refct > 1 {
      CountChanged(ranks, p, -1);
      ReturnsAtOnce(ranks, ps, Counted(ranks, p, -1), seq(n, _ => Ok(0)), log, 3, true, Same);
    } else {
      var ranks' := Removed(ranks, p);
      var zs := seq(n, i requires 0 <= i < n => Return(ranks'[i], Ok(0)));
      EntryRemoved(ranks, p);
      Served(ps, zs, BcastInts(1), log, 3);
      ReturnsAtOnce(ranks, zs, ranks', seq(n, _ => Ok(0)), log + [BcastInts(1)], 2, true, Dropped(p));
    }
  }

  lemma {:induction false} CloseInStep(ranks: seq<Rank>, calls: seq<Call>, envs: seq<Env>, ps: seq<Program>, log: seq<Collective>)
    requires InStep(ranks) && Matching(ranks, calls) && calls[0].Close? && |envs| == |ranks| == |ps|
    requires forall i | 0 <= i < |ps| :: ps[i] == CloseProgram(ranks[i], i == 0, calls[i].fd, envs[i])
    ensures WellEnded(Run(ps, log, 3), ranks, IsCollective(ranks[0], calls[0]))
    ensures var p := Position(ranks[0].files, calls[0].fd);
      if p == |ranks[0].files| then
        Run(ps, log, 3) == Done(ranks, seq(|ranks|, i requires 0 <= i < |ranks| => Ok(envs[i].status)), log)
      else
        (forall i | 0 <= i < |ranks| :: p < |ranks[i].files|) && CloseEnds(Run(ps, log, 3), ranks, p, log)
  {
    hide Run, RankOk;
    var n, p := |ps|, Position(ranks[0].files, calls[0].fd);
    forall i | 0 <= i < n ensures |ranks[i].files| == |ranks[0].files| && Position(ranks[i].files, calls[i].fd) == p {
      LengthsAgree(ranks, i);
    }
    if p == |ranks[0].files| {
      ReturnsAtOnce(ranks, ps, ranks, seq(n, i requires 0 <= i < n => Ok(envs[i].status)), log, 3, false, Same);
    } else {
      assert forall i | 0 <= i < n :: Alike(ranks[i].files[p], ranks[0].files[p]);
      CloseOnFile(ranks, seq(n, i requires 0 <= i < n => calls[i].fd), p, envs, ps, log);
    }
  }

  /** Everybody has found memory. */
  ghost predicate AllGranted(envs: seq<Env>) {
    forall i | 0 <= i < |envs| :: envs[i].memory
  }

  /** How a mapping of the file at place p ends: a refusal comes everywhere and before any collective
      operation; otherwise there is one conjunction, all succeed if everybody has found memory, and a new
      mapping counts as one more use. */
  ghost predicate MmapEnds(e: Ending, ranks: seq<Rank>, p: nat, branch: MmapBranch, envs: seq<Env>, log: seq<Collective>)
    requires |envs| == |ranks| && forall i | 0 <= i < |ranks| :: p < |ranks[i].files|
  {
    e == if branch.Refuse? then Done(ranks, seq(|ranks|, _ => Err(branch.errno)), log)
         else Done(if branch.Extend? && AllGranted(envs) then Counted(ranks, p, 1) else ranks,
                   seq(|ranks|, i requires 0 <= i < |ranks| => if AllGranted(envs) then Ok(envs[i].addr) else Err(ECOLLFS)),
                   log + [AllreduceAnd])
  }

  lemma {:induction false} MmapInStep(ranks: seq<Rank>, calls: seq<Call>, envs: seq<Env>, ps: seq<Program>, log: seq<Collective>)
    requires InStep(ranks) && Matching(ranks, calls) && calls[0].Mmap? && |envs| == |ranks| == |ps|
    requires forall i | 0 <= i < |ps| ::
      var c := calls[i]; c.Mmap? && ps[i] == MmapProgram(ranks[i], c.fd, c.len, c.prot, c.flags, c.off, envs[i])
    ensures WellEnded(Run(ps, log, 3), ranks, IsCollective(ranks[0], calls[0]))
    ensures var c, p := calls[0], Position(ranks[0].files, calls[0].fd);
      if c.off < 0 then
        Run(ps, log, 3) == Done(ranks, seq(|ranks|, _ => Err(ENXIO)), log)
      else if p == |ranks[0].files| then
        Run(ps, log, 3) == Done(ranks, seq(|ranks|, i requires 0 <= i < |ranks| => Ok(envs[i].addr)), log)
      else
        && (forall i | 0 <= i < |ranks| :: p < |ranks[i].files|)
        && MmapEnds(Run(ps, log, 3), ranks, p, BranchOf(ranks[0].files[p], c.len, c.prot, c.flags, c.off), envs, log)
  {
    hide Run, RankOk, BranchOf;
    var n, c, p := |ps|, calls[0], Position(ranks[0].files, calls[0].fd);
    assert forall i | 0 <= i < n :: SameCall(c, calls[i]);
    forall i | 0 <= i < n ensures |ranks[i].files| == |ranks[0].files| && Position(ranks[i].files, calls[i].fd) == p {
      LengthsAgree(ranks, i);
    }
    if c.off < 0 {
      ReturnsAtOnce(ranks, ps, ranks, seq(n, _ => Err(ENXIO)), log, 3, true, Same);
    } else if p == |ranks[0].files| {
      ReturnsAtOnce(ranks, ps, ranks, seq(n, i requires 0 <= i < n => Ok(envs[i].addr)), log, 3, false, Same);
    } else {
      assert forall i | 0 <= i < n :: Alike(ranks[i].files[p], ranks[0].files[p]);
      MmapOnFile(ranks, c, p, envs, ps, log);
    }
  }

  lemma {:induction false} SameBranch(a: FileLink, b: FileLink, len: nat, prot: Prot, flags: MapFlags, off: int)
    requires Alike(a, b)
    ensures BranchOf(a, len, prot, flags, off) == BranchOf(b, len, prot, flags, off)
  {
  }

  lemma {:induction false} MmapOnFile(ranks: seq<Rank>, c: Call, p: nat, envs: seq<Env>, ps: seq<Program>, log: seq<Collective>)
    requires InStep(ranks) && c.Mmap? && c.off >= 0 && p < |ranks[0].files| && |envs| == |ranks| == |ps|
    requires forall i | 0 <= i < |ps| :: p < |ranks[i].files| && Alike(ranks[i].files[p], ranks[0].files[p])
    requires forall i | 0 <= i < |ps| :: ps[i] == MmapOf(ranks[i], p, c.len, c.prot, c.flags, c.off, envs[i])
    ensures WellEnded(Run(ps, log, 3), ranks, true)
    ensures MmapEnds(Run(ps, log, 3), ranks, p, BranchOf(ranks[0].files[p], c.len, c.prot, c.flags, c.off), envs, log)
  {
    hide Run, RankOk, AlikeLists, BranchOf, Changed;
    var n := |ps|;
    var branch := BranchOf(ranks[0].files[p], c.len, c.prot, c.flags, c.off);
    forall i | 0 <= i < n ensures BranchOf(ranks[i].files[p], c.len, c.prot, c.flags, c.off) == branch {
      SameBranch(ranks[i].files[p], ranks[0].files[p], c.len, c.prot, c.flags, c.off);
    }
    NothingChanges(ranks);
    if branch.Refuse? {
      ReturnsAtOnce(ranks, ps, ranks, seq(n, _ => Err(branch.errno)), log, 3, true, Same);
    } else {
      var all := AllGranted(envs);
      assert Combined(ps) == Flag(all);
      var ranks' := if branch.Extend? && all then Counted(ranks, p, 1) else ranks;
      var outcomes := seq(n, i requires 0 <= i < n => if all then Ok(envs[i].addr) else Err(ECOLLFS));
      var zs := seq(n, i requires 0 <= i < n => Return(ranks'[i], outcomes[i]));
      CountChanged(ranks, p, 1);
      Served(ps, zs, AllreduceAnd, log, 3);
      ReturnsAtOnce(ranks, zs, ranks', outcomes, log + [AllreduceAnd], 2, true, Same);
    }
  }

  lemma {:induction false} NothingChanges(ranks: seq<Rank>)
    ensures forall i | 0 <= i < |ranks| :: Changed(ranks[i].files, ranks[i].files, Same)
  {
  }

  /** What a process keeps after a successful collective open. */
  function Opened(r: Rank, root: bool, path: string, env: Env, pf: Platform, len: nat, data: seq<Byte>): (r': Rank)
    ensures r'.files != []
  {
    var b := OpenWithBytes(if root then r else r.(nextFd := r.nextFd + 1), root, path, env, pf, len, Bytes(data));
    b.rank
  }

  lemma {:induction false} OpenedInStep(ranks: seq<Rank>, ranks': seq<Rank>, path: string, envs: seq<Env>,
      pf: Platform, len: nat, data: seq<Byte>)
    requires InStep(ranks) && |ranks'| == |ranks| == |envs|
    requires forall k | 0 <= k < |ranks[0].files| :: ranks[0].files[k].fd != envs[0].fd
    requires forall i | 0 <= i < |ranks| :: ranks'[i] == Opened(ranks[i], i == 0, path, envs[i], pf, len, data)
    ensures InStep(ranks')
  {
    forall i | 0 <= i < |ranks| ensures AlikeLists(ranks'[i].files, ranks'[0].files) && RankOk(ranks'[i], i == 0) {
      var r, r' := ranks[i], ranks'[i];
      assert RankOk(r, i == 0) && AlikeLists(r.files, ranks[0].files);
      assert r'.files[1..] == r.files;
      forall k | 0 < k < |r'.files| ensures r'.files[k].fd != r'.files[0].fd && Alike(r'.files[k], ranks'[0].files[k]) {
        assert r'.files[k] == r.files[k-1] && ranks'[0].files[k] == ranks[0].files[k-1];
      }
    }
  }

  lemma {:induction false} PlainOpenInStep(ranks: seq<Rank>, path: string, envs: seq<Env>, pf: Platform,
      ps: seq<Program>, log: seq<Collective>)
    requires InStep(ranks) && |envs| == |ranks| == |ps|
    requires forall i | 0 <= i < |ps| :: ps[i] == OpenProgram(ranks[i], i == 0, path, false, envs[i], pf)
    ensures WellEnded(Run(ps, log, 3), ranks, false)
  {
    var outcomes := seq(|ps|, i requires 0 <= i < |ps| => if envs[i].fd < 0 then Err(Saved(envs[i].errno)) else Ok(envs[i].fd));
    ReturnsAtOnce(ranks, ps, ranks, outcomes, log, 3, false, Same);
  }

  /** A collective open that rank 0 cannot do: everybody reports its error. */
  lemma {:induction false} OpenFails(ranks: seq<Rank>, path: string, envs: seq<Env>, pf: Platform, ps: seq<Program>,
      log: seq<Collective>)
    requires ranks != [] && |envs| == |ranks| == |ps| && LengthOf(envs[0]) < 0
    requires forall i | 0 <= i < |ps| :: ps[i] == OpenProgram(ranks[i], i == 0, path, true, envs[i], pf)
    ensures Run(ps, log, 3) == Done(ranks, seq(|ranks|, _ => Err(Saved(envs[0].errno))), log + [BcastInts(2)])
  {
    hide Run, LengthOf;
    var n := |ps|;
    var v := Ints([LengthOf(envs[0]), envs[0].errno]);
    var qs := seq(n, i requires 0 <= i < n => OpenWithLength(ranks[i], i == 0, path, envs[i], pf, v));
    assert Combined(ps) == v;
    Served(ps, qs, BcastInts(2), log, 3);
    Finished(qs, ranks, seq(n, _ => Err(Saved(envs[0].errno))), log + [BcastInts(2)], 2);
  }

  function OpenedRanks(ranks: seq<Rank>, path: string, envs: seq<Env>, pf: Platform, len: nat): (r: seq<Rank>)
    requires ranks != [] && |ranks| == |envs|
    ensures |r| == |ranks|
  {
    seq(|ranks|, i requires 0 <= i < |ranks| => Opened(ranks[i], i == 0, path, envs[i], pf, len, envs[0].data))
  }

  /** The programs of a collective open once the length has been broadcast and everybody has brought true to the
      conjunction: nobody notices a failed mmap. */
  function WithMemory(ranks: seq<Rank>, path: string, envs: seq<Env>, pf: Platform, len: nat): (ps: seq<Program>)
    requires |ranks| == |envs|
    ensures |ps| == |ranks|
  {
    seq(|ranks|, i requires 0 <= i < |ranks| =>
      OpenWithMemory(if i == 0 then ranks[i] else ranks[i].(nextFd := ranks[i].nextFd + 1),
                     i == 0, path, envs[i], pf, len, Flag(true)))
  }

  lemma {:induction false} OpenAnnounced(ranks: seq<Rank>, path: string, envs: seq<Env>, pf: Platform,
      ps: seq<Program>, log: seq<Collective>)
    requires ranks != [] && |envs| == |ranks| == |ps| && LengthOf(envs[0]) >= 0
    requires forall i | 0 <= i < |ps| :: ps[i] == OpenProgram(ranks[i], i == 0, path, true, envs[i], pf)
    ensures Run(ps, log, 3)
         == Run(WithMemory(ranks, path, envs, pf, LengthOf(envs[0])), log + [BcastInts(2)] + [AllreduceAnd], 1)
  {
    hide Run, LengthOf, OpenWithMemory;
    var n, len := |ps|, LengthOf(envs[0]);
    var v := Ints([len, envs[0].errno]);
    var qs := seq(n, i requires 0 <= i < n => OpenWithLength(ranks[i], i == 0, path, envs[i], pf, v));
    assert Combined(ps) == v;
    Served(ps, qs, BcastInts(2), log, 3);
    assert Combined(qs) == Flag(true);
    Served(qs, WithMemory(ranks, path, envs, pf, len), AllreduceAnd, log + [BcastInts(2)], 2);
  }

  /** A collective open that rank 0 can do: whether or not every process found memory, everybody enters
      the file in its list. */
  lemma {:induction false} OpenSucceeds(ranks: seq<Rank>, path: string, envs: seq<Env>, pf: Platform,
      ps: seq<Program>, log: seq<Collective>)
    requires ranks != [] && |envs| == |ranks| == |ps| && LengthOf(envs[0]) >= 0
    requires forall i | 0 <= i < |ps| :: ps[i] == OpenProgram(ranks[i], i == 0, path, true, envs[i], pf)
    ensures var rs := OpenedRanks(ranks, path, envs, pf, LengthOf(envs[0]));
      Run(ps, log, 3) == Done(rs, seq(|rs|, i requires 0 <= i < |rs| => Ok(rs[i].files[0].fd)),
                              log + [BcastInts(2)] + [AllreduceAnd] + [BcastBytes(LengthOf(envs[0]))])
  {
    hide Run, LengthOf, OpenProgram;
    OpenAnnounced(ranks, path, envs, pf, ps, log);
    var n, len := |ps|, LengthOf(envs[0]);
    var ms, rs := WithMemory(ranks, path, envs, pf, len), OpenedRanks(ranks, path, envs, pf, len);
    var log' := log + [BcastInts(2)] + [AllreduceAnd];
    var outcomes := seq(n, i requires 0 <= i < n => Ok(rs[i].files[0].fd));
    var zs := seq(n, i requires 0 <= i < n => Return(rs[i], outcomes[i]));
    assert Combined(ms) == Bytes(envs[0].data);
    Served(ms, zs, BcastBytes(len), log', 1);
    Finished(zs, rs, outcomes, log' + [BcastBytes(len)], 0);
  }

  lemma {:induction false} OpenInStep(ranks: seq<Rank>, path: string, envs: seq<Env>, pf: Platform, ps: seq<Program>,
      log: seq<Collective>)
    requires InStep(ranks) && |envs| == |ranks| == |ps|
    requires forall k | 0 <= k < |ranks[0].files| :: ranks[0].files[k].fd != envs[0].fd
    requires forall i | 0 <= i < |ps| :: ps[i] == OpenProgram(ranks[i], i == 0, path, true, envs[i], pf)
    ensures WellEnded(Run(ps, log, 3), ranks, true)
  {
    hide Run, LengthOf, AlikeLists, RankOk, OpenProgram;
    var n := |ranks|;
    if LengthOf(envs[0]) < 0 {
      OpenFails(ranks, path, envs, pf, ps, log);
      assert AllChanged(ranks, ranks, seq(n, _ => Err(Saved(envs[0].errno))), Same);
    } else {
      OpenSucceeds(ranks, path, envs, pf, ps, log);
      var rs := OpenedRanks(ranks, path, envs, pf, LengthOf(envs[0]));
      OpenedInStep(ranks, rs, path, envs, pf, LengthOf(envs[0]), envs[0].data);
      assert AllChanged(ranks, rs, seq(n, i requires 0 <= i < n => Ok(rs[i].files[0].fd)), Pushed);
    }
  }

  /** One call: no process waits for another one in vain, all make the same collective operations, the
      lists stay in step, and a collective call succeeds or fails everywhere. */
  lemma {:induction false} CallInStep(ranks: seq<Rank>, calls: seq<Call>, envs: seq<Env>, pf: Platform, log: seq<Collective>)
    requires InStep(ranks) && Matching(ranks, calls) && KernelOk(ranks, calls, envs)
    ensures WellEnded(Run(Programs(ranks, calls, envs, pf), log, 3), ranks, IsCollective(ranks[0], calls[0]))
  {
    var ps := Programs(ranks, calls, envs, pf);
    assert forall i | 0 <= i < |ranks| :: SameCall(calls[0], calls[i]);
    match calls[0]
    case Open(path, readOnly) =>
      if readOnly {
        OpenInStep(ranks, path, envs, pf, ps, log);
      } else {
        PlainOpenInStep(ranks, path, envs, pf, ps, log);
      }
    case Close(_) =>
      CloseInStep(ranks, calls, envs, ps, log);
    case Fxstat(fd) =>
      assert forall i | 0 <= i < |ranks| :: |ranks[i].files| == |ranks[0].files|;
      if Position(ranks[0].files, fd) == |ranks[0].files| {
        var n := |ranks|;
        ReturnsAtOnce(ranks, ps, ranks, seq(n, i requires 0 <= i < n => Ok(envs[i].status)), log, 3, false, Same);
      } else {
        StatInStep(ranks, ps, envs, pf.statSize, log);
      }
    case Xstat(_) =>
      StatInStep(ranks, ps, envs, pf.statSize, log);
    case Mmap(_, _, _, _, _) =>
      MmapInStep(ranks, calls, envs, ps, log);
  }

  /** A descriptor keeps standing at the same place of every list, or is on none any more. */
  lemma {:induction false} PlacesFollow(f: seq<FileLink>, f': seq<FileLink>, ch: Change, fd: int)
    requires Changed(f, f', ch) && Position(f, fd) < |f|
    requires forall i, j | 0 <= i < j < |f| :: f[i].fd != f[j].fd
    requires forall i, j | 0 <= i < j < |f'| :: f'[i].fd != f'[j].fd
    ensures Position(f', fd) == PlaceAfter(Position(f, fd), ch, |f'|)
  {
    var p := Position(f, fd);
    var q := PlaceAfter(p, ch, |f'|);
    if ch.Pushed? {
      assert f'[1..][p] == f[p];
    }
    if q < |f'| {
      assert f'[q].fd == fd;
    } else {
      forall k | 0 <= k < |f'| ensures f'[k].fd != fd {
        assert f'[k] == if k < p then f[k] else f[k+1];
      }
    }
  }

  /** Descriptors that correspond before a call correspond after it. */
  lemma {:induction false} CorrespondenceStays(ranks: seq<Rank>, e: Ending, fate: bool, fds: seq<int>)
    requires InStep(ranks) && WellEnded(e, ranks, fate) && |fds| == |ranks|
    requires forall i | 0 <= i < |ranks| ::
        Position(ranks[i].files, fds[i]) == Position(ranks[0].files, fds[0]) < |ranks[0].files|
    ensures forall i | 0 <= i < |ranks| :: Position(e.ranks[i].files, fds[i]) == Position(e.ranks[0].files, fds[0])
  {
    hide Run, AlikeLists;
    var ch :| AllChanged(ranks, e.ranks, e.outcomes, ch);
    forall i | 0 <= i < |ranks|
      ensures Position(e.ranks[i].files, fds[i]) == PlaceAfter(Position(ranks[0].files, fds[0]), ch, |e.ranks[0].files|)
    {
      LengthsAgree(ranks, i);
      LengthsAgree(e.ranks, i);
      PlacesFollow(ranks[i].files, e.ranks[i].files, ch, fds[i]);
    }
  }

  lemma {:induction false} LengthsAgree(ranks: seq<Rank>, i: nat)
    requires InStep(ranks) && i < |ranks|
    ensures |ranks[i].files| == |ranks[0].files|
  {
    assert AlikeLists(ranks[i].files, ranks[0].files);
  }

  /** The descriptors that a collective open returns correspond: they stand at the head of every list. */
  lemma {:induction false} OpenedCorrespond(ranks: seq<Rank>, e: Ending, fate: bool)
    requires WellEnded(e, ranks, fate) && ranks != []
    requires |e.ranks[0].files| > |ranks[0].files|
    ensures forall i | 0 <= i < |ranks| :: e.outcomes[i].Ok? && Position(e.ranks[i].files, e.outcomes[i].value) == 0
  {
    hide Run, InStep;
    var ch :| AllChanged(ranks, e.ranks, e.outcomes, ch);
    assert Changed(ranks[0].files, e.ranks[0].files, ch);
    assert ch == Pushed;
  }

  // ---------- whole runs ----------

  datatype Round = Round(calls: seq<Call>, envs: seq<Env>)

  /** The processes after a sequence of calls, the outcomes of the last one, and all collective
      operations so far, which every process has made in this order. */
  function RunAll(ranks: seq<Rank>, rounds: seq<Round>, pf: Platform): Ending {
    if rounds == [] then Done(ranks, [], [])
    else
      var before, last := RunAll(ranks, rounds[..|rounds|-1], pf), rounds[|rounds|-1];
      if before.Stuck? || !(|last.calls| == |last.envs| == |before.ranks|) then Stuck
      else Run(Programs(before.ranks, last.calls, last.envs, pf), before.log, 3)
  }

  /** In every round the processes make matching calls, judged by their lists at that moment. */
  ghost predicate Legal(ranks: seq<Rank>, rounds: seq<Round>, pf: Platform) {
    forall n | 0 <= n < |rounds| :: LegalNext(RunAll(ranks, rounds[..n], pf), rounds[n])
  }

  ghost predicate LegalNext(e: Ending, r: Round) {
    e.Done? && e.ranks != [] ==> Matching(e.ranks, r.calls) && KernelOk(e.ranks, r.calls, r.envs)
  }

  /** Over any legal run no process ever waits in vain, the lists stay in step, and every collective call
      succeeds on all processes or fails on all of them. */
  lemma {:induction false} RunInStep(ranks: seq<Rank>, rounds: seq<Round>, pf: Platform)
    requires InStep(ranks) && Legal(ranks, rounds, pf)
    ensures var e := RunAll(ranks, rounds, pf);
      && e.Done? && InStep(e.ranks) && |e.ranks| == |ranks|
      && (rounds != [] ==>
            var before := RunAll(ranks, rounds[..|rounds|-1], pf);
            before.Done? && |before.ranks| == |ranks| &&
            WellEnded(e, before.ranks, IsCollective(before.ranks[0], rounds[|rounds|-1].calls[0])))
  {
    if rounds != [] {
      var init, last := rounds[..|rounds|-1], rounds[|rounds|-1];
      forall n | 0 <= n < |init| ensures LegalNext(RunAll(ranks, init[..n], pf), init[n]) {
        assert init[..n] == rounds[..n];
      }
      RunInStep(ranks, init, pf);
      var before := RunAll(ranks, init, pf);
      assert LegalNext(before, last);
      CallInStep(before.ranks, last.calls, last.envs, pf, before.log);
    }
  }

  // ---------- what is shared, and what is not noticed ----------

  /** After a collective open, every process that found memory holds the bytes of rank 0, zeros behind
      them; one that did not is not noticed by anybody. */
  lemma {:induction false} OpenSharesBytes(ranks: seq<Rank>, path: string, envs: seq<Env>, pf: Platform,
      ps: seq<Program>, log: seq<Collective>)
    requires ranks != [] && |envs| == |ranks| == |ps| && LengthOf(envs[0]) == |envs[0].data|
    requires forall i | 0 <= i < |ps| :: ps[i] == OpenProgram(ranks[i], i == 0, path, true, envs[i], pf)
    ensures var e := Run(ps, log, 3); var total := RoundUp(|envs[0].data|, pf.page);
      e.Done? && |e.ranks| == |ranks| &&
      forall i {:trigger e.ranks[i]} | 0 <= i < |ranks| ::
        && e.ranks[i].files != [] && e.outcomes[i].Ok?
        && e.ranks[i].files[0].len == |envs[0].data| && e.ranks[i].files[0].totallen == total
        && e.ranks[i].files[0].mem == if envs[i].memory then envs[0].data + seq(total - |envs[0].data|, _ => 0) else []
  {
    hide Run, RoundUp, LengthOf;
    OpenSucceeds(ranks, path, envs, pf, ps, log);
  }

  /** An fxstat through the layer ends exactly when the descriptor is on every process's list or on
      none; otherwise some process waits in a broadcast that another one never enters. */
  lemma {:induction false} FxstatEndsIff(ranks: seq<Rank>, calls: seq<Call>, envs: seq<Env>, pf: Platform, log: seq<Collective>)
    requires ranks != [] && |calls| == |envs| == |ranks| && forall i | 0 <= i < |calls| :: calls[i].Fxstat?
    ensures Run(Programs(ranks, calls, envs, pf), log, 3).Done? <==>
              || (forall i | 0 <= i < |ranks| :: Position(ranks[i].files, calls[i].fd) < |ranks[i].files|)
              || (forall i | 0 <= i < |ranks| :: Position(ranks[i].files, calls[i].fd) == |ranks[i].files|)
  {
    var ps := Programs(ranks, calls, envs, pf);
    var n := |ranks|;
    assert forall i | 0 <= i < n :: ps[i].Meet? <==> Position(ranks[i].files, calls[i].fd) < |ranks[i].files|;
    if forall i | 0 <= i < n :: ps[i].Meet? {
      StatEnds(ranks, ps, envs, pf.statSize, log);
    }
  }
}
