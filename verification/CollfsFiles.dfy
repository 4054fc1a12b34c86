/** The per-process records of the collective file layer, and the decisions that depend on them alone. */
module CollfsFiles {
  import opened ByteSequences
  import opened Paging

  /** struct FileLink: one file open on a communicator.  mem holds the totallen bytes of the process's copy. */
  datatype FileLink = FileLink(
    fd: int, refct: int, fname: string, mem: seq<Byte>, len: nat, totallen: nat, offset: nat)

  datatype Errno = EACCES | ENXIO | ENOTSUP | ECOLLFS | Saved(code: int)

  datatype MapFlags = MapFlags(fixed: bool, anonymous: bool, shared: bool)

  datatype MmapBranch = Refuse(errno: Errno) | Remap | Extend

  /** How collfs_mmap treats a request on a file of the list, once the offset is known not to be negative. */
  function BranchOf(link: FileLink, len: nat, prot: Prot, flags: MapFlags, off: int): MmapBranch {
    if prot.w && !flags.fixed then Refuse(EACCES)
    else if flags.fixed then if off + len > link.totallen || off < 0 then Refuse(EACCES) else Remap
    else if flags.shared then Refuse(ENOTSUP)
    else Extend
  }

  /** How many bytes a process other than rank 0 copies into a new mapping of `total` bytes. */
  function CopyLength(link: FileLink, total: nat): nat {
    if link.totallen > total then total else link.totallen
  }

  /** The copy for an extended mapping reads inside the process's memory exactly when it starts at the
      beginning of the file or ends inside it. */
  lemma CopyStaysInsideIff(link: FileLink, total: nat, off: nat)
    requires |link.mem| == link.totallen
    ensures off + CopyLength(link, total) <= |link.mem| <==> off == 0 || off + total <= link.totallen
  {
  }

  /** The second of two pages of a file, mapped with two pages of room, would be copied past the end. */
  lemma CopyRunsPastTheEnd()
    ensures var link := FileLink(10001, 1, "lib.so", seq(8192, _ => 0), 8192, 8192, 0);
      |link.mem| == link.totallen && CopyLength(link, 8192) == 8192 && 4096 + CopyLength(link, 8192) > |link.mem|
  {
  }
}
