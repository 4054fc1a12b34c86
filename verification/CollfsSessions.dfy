/** What a process gets from a collective open, and how calls undo one another. */
module CollfsSessions {
  import opened ByteSequences
  import opened CollfsFiles
  import opened CollfsProtocol
  import opened Paging
  import CollfsReading

  // ---------- after a collective open ----------

  /** Rank 0 can open the file, and its length is one that it can announce. */
  ghost predicate Readable(env: Env) {
    env.fd >= 0 && env.statOk && env.size == |env.data| < 0x8000_0000
  }

  ghost predicate AreOpens(ps: seq<Program>, ranks: seq<Rank>, path: string, envs: seq<Env>, pf: Platform) {
    ranks != [] && |envs| == |ranks| == |ps|
    && forall i | 0 <= i < |ps| :: ps[i] == OpenProgram(ranks[i], i == 0, path, true, envs[i], pf)
  }

  /** The entry of a file that has just been opened: used once, at its beginning, with the bytes of rank 0
      and zeros up to the end of its last page, if the process has found memory for them. */
  ghost predicate IsFresh(head: FileLink, path: string, data: seq<Byte>, memory: bool, page: nat)
    requires page > 0
  {
    && head.fname == path && head.refct == 1 && head.offset == 0
    && head.len == |data| && head.totallen == RoundUp(|data|, page)
    && (memory ==> head.mem == data + seq(head.totallen - |data|, _ => 0))
  }

  /** Everybody gets a fresh entry at the head of its list; rank 0 keeps the descriptor of its kernel, and the
      others take the second of two synthetic ones. */
  lemma {:induction false} OpenGives(ranks: seq<Rank>, path: string, envs: seq<Env>, pf: Platform, ps: seq<Program>,
                                     log: seq<Collective>)
    requires AreOpens(ps, ranks, path, envs, pf) && Readable(envs[0])
    ensures var e, data := Run(ps, log, 3), envs[0].data;
      && e.Done? && |e.ranks| == |e.outcomes| == |ranks|
      && e.log == log + [BcastInts(2)] + [AllreduceAnd] + [BcastBytes(|data|)]
      && forall i | 0 <= i < |ranks| ::
           && e.ranks[i].files != [] && e.ranks[i].files[1..] == ranks[i].files
           && IsFresh(e.ranks[i].files[0], path, data, envs[i].memory, pf.page)
           && e.ranks[i].files[0].fd == (if i == 0 then envs[0].fd else ranks[i].nextFd + 1)
           && e.ranks[i].nextFd == (if i == 0 then ranks[i].nextFd else ranks[i].nextFd + 2)
           && e.outcomes[i] == Ok(e.ranks[i].files[0].fd)
  {
    hide Run, RoundUp, OpenProgram;
    OpenSucceeds(ranks, path, envs, pf, ps, log);
  }

  /** A collective open fails everywhere, with rank 0's error, exactly if rank 0's kernel refuses it or the length
      of the file, taken for a C int, is negative. */
  lemma {:induction false} OpenFailsIff(ranks: seq<Rank>, path: string, envs: seq<Env>, pf: Platform, ps: seq<Program>,
                                        log: seq<Collective>)
    requires AreOpens(ps, ranks, path, envs, pf)
    ensures var e := Run(ps, log, 3);
      && e.Done? && |e.outcomes| == |ranks|
      && if envs[0].fd < 0 || !envs[0].statOk || envs[0].size % 0x1_0000_0000 >= 0x8000_0000 then
           e.ranks == ranks && forall i | 0 <= i < |ranks| :: e.outcomes[i] == Err(Saved(envs[0].errno))
         else forall i | 0 <= i < |ranks| :: e.outcomes[i].Ok?
  {
    hide Run, OpenProgram, Opened;
    if LengthOf(envs[0]) < 0 {
      OpenFails(ranks, path, envs, pf, ps, log);
    } else {
      OpenSucceeds(ranks, path, envs, pf, ps, log);
    }
  }

  /** A fresh entry follows rank 0's open file, so that from the open on any run of reads and seeks agrees with
      rank 0's kernel exactly if every step is harmless. */
  lemma {:induction false} FreshAgreesIff(head: FileLink, path: string, data: seq<Byte>, page: nat, max: nat,
                                          ops: seq<CollfsReading.Op>)
    requires page > 0 && IsFresh(head, path, data, true, page) && |data| <= max < CollfsReading.SIGN
    requires forall op | op in ops :: CollfsReading.InRange(op)
    ensures var f := CollfsReading.OpenFile(data, 0, max);
      && CollfsReading.Tracks(head, f)
      && (CollfsReading.AgreeingRun(head, f, ops) <==> CollfsReading.HarmlessRun(f, ops))
  {
    hide RoundUp;
    assert head.mem[..|data|] == data;
    CollfsReading.RunAgreesIff(head, CollfsReading.OpenFile(data, 0, max), ops);
  }

  // ---------- calls that undo one another ----------

  /** What is left of two rounds, one after the other. */
  lemma {:induction false} TwoRounds(ranks: seq<Rank>, first: Round, second: Round, pf: Platform)
    requires |first.calls| == |first.envs| == |ranks|
    ensures RunAll(ranks, [], pf) == Done(ranks, [], [])
    ensures RunAll(ranks, [first], pf) == Run(Programs(ranks, first.calls, first.envs, pf), [], 3)
    ensures var e := RunAll(ranks, [first], pf);
      e.Done? && |second.calls| == |second.envs| == |e.ranks| ==>
        RunAll(ranks, [first, second], pf) == Run(Programs(e.ranks, second.calls, second.envs, pf), e.log, 3)
  {
    hide Run;
    assert [first, second][..1] == [first] && [first][..0] == [];
  }

  /** A collective open followed by one close gives every process its old list back, by the three operations of
      the open and one broadcast. */
  lemma {:induction false} OpenThenClose(ranks: seq<Rank>, path: string, opening: Round, closing: Round, pf: Platform)
    requires InStep(ranks) && |opening.calls| == |opening.envs| == |closing.calls| == |closing.envs| == |ranks|
    requires forall i | 0 <= i < |ranks| :: opening.calls[i] == Open(path, true)
    requires Readable(opening.envs[0])
    requires forall k | 0 <= k < |ranks[0].files| :: ranks[0].files[k].fd != opening.envs[0].fd
    requires forall i | 0 <= i < |ranks| ::
               closing.calls[i] == Close(if i == 0 then opening.envs[0].fd else ranks[i].nextFd + 1)
    ensures var e := RunAll(ranks, [opening, closing], pf);
      && e.Done? && |e.ranks| == |e.outcomes| == |ranks|
      && e.log == [BcastInts(2), AllreduceAnd, BcastBytes(|opening.envs[0].data|), BcastInts(1)]
      && forall i | 0 <= i < |ranks| :: e.ranks[i].files == ranks[i].files && e.outcomes[i] == Ok(0)
  {
    hide Run, RunAll, InStep, OpenProgram, CloseProgram, IsFresh;
    var ps := Programs(ranks, opening.calls, opening.envs, pf);
    TwoRounds(ranks, opening, closing, pf);
    InStepIsSome(ranks);
    OpenGives(ranks, path, opening.envs, pf, ps, []);
    OpenInStep(ranks, path, opening.envs, pf, ps, []);
    var e := Run(ps, [], 3);
    var n := |ranks|;
    forall i | 0 <= i < n ensures Position(e.ranks[i].files, closing.calls[i].fd) == 0 && closing.calls[i].Close? {
      assert e.ranks[i].files[0].fd == closing.calls[i].fd;
    }
    assert Matching(e.ranks, closing.calls);
    CloseInStep(e.ranks, closing.calls, closing.envs, Programs(e.ranks, closing.calls, closing.envs, pf), e.log);
    FreshCount(e.ranks[0].files[0], path, opening.envs[0].data, opening.envs[0].memory, pf.page);
    forall i | 0 <= i < n ensures e.ranks[i].files[..0] + e.ranks[i].files[1..] == ranks[i].files {
    }
  }

  lemma FreshCount(head: FileLink, path: string, data: seq<Byte>, memory: bool, page: nat)
    requires page > 0 && IsFresh(head, path, data, memory, page)
    ensures head.refct == 1
  {
  }

  lemma InStepIsSome(ranks: seq<Rank>)
    requires InStep(ranks)
    ensures ranks != []
    ensures forall i | 0 <= i < |ranks| :: |ranks[i].files| == |ranks[0].files|
  {
    forall i | 0 <= i < |ranks| ensures |ranks[i].files| == |ranks[0].files| {
      LengthsAgree(ranks, i);
    }
  }

  /** The descriptors that stand at the place p of all lists. */
  ghost predicate StandAt(ranks: seq<Rank>, fds: seq<int>, p: nat) {
    |fds| == |ranks| && forall i | 0 <= i < |ranks| :: p < |ranks[i].files| && Position(ranks[i].files, fds[i]) == p
  }

  lemma {:induction false} CountedAndBack(ranks: seq<Rank>, fds: seq<int>, p: nat)
    requires StandAt(ranks, fds, p)
    ensures var more := Counted(ranks, p, 1);
      StandAt(more, fds, p) && Counted(more, p, -1) == ranks
      && forall i | 0 <= i < |ranks| :: more[i].files[p].refct == ranks[i].files[p].refct + 1
  {
    var more := Counted(ranks, p, 1);
    forall i | 0 <= i < |ranks| ensures Position(more[i].files, fds[i]) == p && Counted(more, p, -1)[i] == ranks[i] {
      var f, f' := ranks[i].files, more[i].files;
      assert f'[p].fd == f[p].fd && forall k | 0 <= k < p :: f'[k].fd == f[k].fd != fds[i];
      assert f'[p := f'[p].(refct := f'[p].refct - 1)] == f;
    }
  }

  /** A new private mapping for which everybody finds memory. */
  lemma {:induction false} MapGives(ranks: seq<Rank>, fds: seq<int>, mapping: Round, pf: Platform, p: nat,
                                    len: nat, prot: Prot, off: nat)
    requires InStep(ranks) && StandAt(ranks, fds, p) && |mapping.calls| == |mapping.envs| == |ranks| && !prot.w
    requires forall i | 0 <= i < |ranks| ::
               mapping.calls[i] == Mmap(fds[i], len, prot, MapFlags(false, false, false), off) && mapping.envs[i].memory
    ensures var e := Run(Programs(ranks, mapping.calls, mapping.envs, pf), [], 3);
      e.Done? && e.ranks == Counted(ranks, p, 1) && e.log == [AllreduceAnd]
  {
    hide Run, InStep, Counted;
    InStepIsSome(ranks);
    MmapInStep(ranks, mapping.calls, mapping.envs, Programs(ranks, mapping.calls, mapping.envs, pf), []);
  }

  /** The close of a file that is used more than once. */
  lemma {:induction false} CloseGives(ranks: seq<Rank>, fds: seq<int>, closing: Round, pf: Platform, p: nat,
                                      log: seq<Collective>)
    requires InStep(ranks) && StandAt(ranks, fds, p) && |closing.calls| == |closing.envs| == |ranks|
    requires ranks[0].files[p].refct > 1 && forall i | 0 <= i < |ranks| :: closing.calls[i] == Close(fds[i])
    ensures var e := Run(Programs(ranks, closing.calls, closing.envs, pf), log, 3);
      && e.Done? && e.ranks == Counted(ranks, p, -1) && e.log == log
      && |e.outcomes| == |ranks| && forall i | 0 <= i < |ranks| :: e.outcomes[i] == Ok(0)
  {
    hide Run, InStep, Counted;
    InStepIsSome(ranks);
    CloseInStep(ranks, closing.calls, closing.envs, Programs(ranks, closing.calls, closing.envs, pf), log);
  }

  /** A new private mapping of a file in use, followed by one close, leaves every process as it was: the mapping
      counts as one more use. */
  lemma {:induction false} MapThenClose(ranks: seq<Rank>, fds: seq<int>, mapping: Round, closing: Round, pf: Platform,
                                        p: nat, len: nat, prot: Prot, off: nat)
    requires InStep(ranks) && StandAt(ranks, fds, p) && ranks[0].files[p].refct >= 1 && !prot.w
    requires |mapping.calls| == |mapping.envs| == |closing.calls| == |closing.envs| == |ranks|
    requires forall i | 0 <= i < |ranks| ::
               mapping.calls[i] == Mmap(fds[i], len, prot, MapFlags(false, false, false), off) && mapping.envs[i].memory
    requires forall i | 0 <= i < |ranks| :: closing.calls[i] == Close(fds[i])
    ensures var e := RunAll(ranks, [mapping, closing], pf);
      && e.Done? && e.ranks == ranks && e.log == [AllreduceAnd]
      && |e.outcomes| == |ranks| && forall i | 0 <= i < |ranks| :: e.outcomes[i] == Ok(0)
  {
    InStepIsSome(ranks);
    CountedAndBack(ranks, fds, p);
    CountChanged(ranks, p, 1);
    hide Run, RunAll, InStep, StandAt, Counted, Programs;
    TwoRounds(ranks, mapping, closing, pf);
    MapGives(ranks, fds, mapping, pf, p, len, prot, off);
    CloseGives(Counted(ranks, p, 1), fds, closing, pf, p, [AllreduceAnd]);
  }

  // ---------- mappings that the layer refuses by itself ----------

  /** A mapping of a file on all lists is refused everywhere, without a collective operation, exactly if it has a
      negative offset, is writable or shared without MAP_FIXED, or is fixed and reaches behind the last page. */
  lemma {:induction false} MmapRefusals(ranks: seq<Rank>, calls: seq<Call>, envs: seq<Env>, pf: Platform, p: nat)
    requires InStep(ranks) && |calls| == |envs| == |ranks| && calls[0].Mmap?
    requires forall i | 0 <= i < |ranks| ::
               && p < |ranks[i].files| && calls[i] == calls[0].(fd := ranks[i].files[p].fd)
               && Position(ranks[i].files, calls[i].fd) == p
    ensures var c, total, e := calls[0], ranks[0].files[p].totallen, Run(Programs(ranks, calls, envs, pf), [], 3);
      var refusal :=
        if c.off < 0 then [ENXIO]
        else if c.prot.w && !c.flags.fixed then [EACCES]
        else if c.flags.fixed && c.off + c.len > total then [EACCES]
        else if c.flags.shared && !c.flags.fixed then [ENOTSUP]
        else [];
      && e.Done? && |e.outcomes| == |ranks|
      && (refusal == [] ==> e.log == [AllreduceAnd])
      && (refusal != [] ==>
            e.log == [] && e.ranks == ranks && forall i | 0 <= i < |ranks| :: e.outcomes[i] == Err(refusal[0]))
  {
    hide Run, InStep;
    InStepIsSome(ranks);
    MmapInStep(ranks, calls, envs, Programs(ranks, calls, envs, pf), []);
  }
}
