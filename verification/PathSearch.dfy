/** Searching a library in the directories of a search path, with a memory of those that are missing. */
module PathSearch {
  import opened SearchPath

  datatype SysError = ENOENT | EACCES | OtherError

  datatype OpenResult = Opened(fd: int) | OpenFailed(errno: SysError)

  datatype StatResult = Directory | NoDirectory | StatFailed(errno: SysError)

  /** What the kernel says about each path; it does not change between searches. */
  datatype FileSystem = FileSystem(open: string -> OpenResult, stat: string -> StatResult)

  /** Opening and testing fail only because something is missing or closed, and what is not a directory
      holds no files. */
  ghost predicate Consistent(fs: FileSystem) {
    && (forall p :: fs.open(p).OpenFailed? ==> Benign(fs.open(p).errno))
    && (forall p :: fs.stat(p).StatFailed? ==> Benign(fs.stat(p).errno))
    && forall d, f | d != "" && !fs.stat(d).Directory? :: fs.open(d + "/" + f).OpenFailed?
  }

  predicate Benign(e: SysError) {
    e == ENOENT || e == EACCES
  }

  /** The result of a search: the path that was opened. */
  datatype Found = Nowhere | At(path: string)

  /** One directory, one capability string after the other. */
  function FindIn(fs: FileSystem, dirname: string, caps: seq<string>, name: string): Found {
    if caps == [] then Nowhere
    else if fs.open(dirname + caps[0] + name).Opened? then At(dirname + caps[0] + name)
    else FindIn(fs, dirname, caps[1..], name)
  }

  /** The search without any memory: the first file that can be opened. */
  function Find(fs: FileSystem, dirnames: seq<string>, caps: seq<string>, name: string): Found {
    if dirnames == [] then Nowhere
    else
      var here := FindIn(fs, dirnames[0], caps, name);
      if here.At? then here else Find(fs, dirnames[1..], caps, name)
  }

  /** The pair of a directory and a capability string that a search must find, if any: the first one, the
      directories counting more, under which the file opens. */
  ghost predicate IsFirst(fs: FileSystem, dirnames: seq<string>, caps: seq<string>, name: string, found: Found) {
    match found
    case Nowhere =>
      forall i, j | 0 <= i < |dirnames| && 0 <= j < |caps| :: fs.open(dirnames[i] + caps[j] + name).OpenFailed?
    case At(path) =>
      exists i, j | 0 <= i < |dirnames| && 0 <= j < |caps| ::
        && path == dirnames[i] + caps[j] + name && fs.open(path).Opened?
        && forall i', j' | 0 <= i' <= i && 0 <= j' < |caps| && (i' < i || j' < j) ::
             fs.open(dirnames[i'] + caps[j'] + name).OpenFailed?
  }

  /** No search can find two. */
  lemma FirstIsUnique(fs: FileSystem, dirnames: seq<string>, caps: seq<string>, name: string, found: Found, other: Found)
    requires IsFirst(fs, dirnames, caps, name, found) && IsFirst(fs, dirnames, caps, name, other)
    ensures found == other
  {
  }

  lemma {:induction false} FindInIsFirst(fs: FileSystem, dirname: string, caps: seq<string>, name: string)
    ensures match FindIn(fs, dirname, caps, name)
      case Nowhere => forall j | 0 <= j < |caps| :: fs.open(dirname + caps[j] + name).OpenFailed?
      case At(path) => exists j | 0 <= j < |caps| ::
        && path == dirname + caps[j] + name && fs.open(path).Opened?
        && forall j' | 0 <= j' < j :: fs.open(dirname + caps[j'] + name).OpenFailed?
  {
    if caps != [] && fs.open(dirname + caps[0] + name).OpenFailed? {
      var rest := caps[1..];
      FindInIsFirst(fs, dirname, rest, name);
      if FindIn(fs, dirname, rest, name).At? {
        var path := FindIn(fs, dirname, rest, name).path;
        var j :| 0 <= j < |rest| && path == dirname + rest[j] + name && fs.open(path).Opened?
          && forall j' | 0 <= j' < j :: fs.open(dirname + rest[j'] + name).OpenFailed?;
        assert path == dirname + caps[j+1] + name;
        forall j' | 0 <= j' < j + 1 ensures fs.open(dirname + caps[j'] + name).OpenFailed? {
          assert j' > 0 ==> caps[j'] == rest[j'-1];
        }
      } else {
        forall j | 0 <= j < |caps| ensures fs.open(dirname + caps[j] + name).OpenFailed? {
          assert j > 0 ==> caps[j] == rest[j-1];
        }
      }
    }
  }

  lemma {:induction false} FindIsFirst(fs: FileSystem, dirnames: seq<string>, caps: seq<string>, name: string)
    ensures IsFirst(fs, dirnames, caps, name, Find(fs, dirnames, caps, name))
  {
    if dirnames != [] {
      FindInIsFirst(fs, dirnames[0], caps, name);
      if FindIn(fs, dirnames[0], caps, name).Nowhere? {
        FindIsFirst(fs, dirnames[1..], caps, name);
        FirstInRest(fs, dirnames, caps, name, Find(fs, dirnames[1..], caps, name));
      }
    }
  }

  lemma FirstInRest(fs: FileSystem, dirnames: seq<string>, caps: seq<string>, name: string, found: Found)
    requires dirnames != [] && IsFirst(fs, dirnames[1..], caps, name, found)
    requires forall j | 0 <= j < |caps| :: fs.open(dirnames[0] + caps[j] + name).OpenFailed?
    ensures IsFirst(fs, dirnames, caps, name, found)
  {
    var rest := dirnames[1..];
    assert forall i | 0 < i < |dirnames| :: dirnames[i] == rest[i-1];
    if found.At? {
      var path := found.path;
      var i, j :| 0 <= i < |rest| && 0 <= j < |caps| && path == rest[i] + caps[j] + name && fs.open(path).Opened?
        && forall i', j' | 0 <= i' <= i && 0 <= j' < |caps| && (i' < i || j' < j) ::
             fs.open(rest[i'] + caps[j'] + name).OpenFailed?;
      assert path == dirnames[i+1] + caps[j] + name;
      forall i', j' | 0 <= i' <= i + 1 && 0 <= j' < |caps| && (i' < i + 1 || j' < j)
        ensures fs.open(dirnames[i'] + caps[j'] + name).OpenFailed?
      {
        assert i' > 0 ==> dirnames[i'] == rest[i'-1];
      }
    }
  }

  /** Names of directories and capability strings end in a slash or are empty. */
  ghost predicate Slashed(s: string) {
    s == "" || s[|s|-1] == '/'
  }

  /** Testing a directory says whether files can be found under it: always, but for the root.  The slash
      that is cut off before the test is all there is of it, so that the empty path is tested instead. */
  ghost predicate Testable(fs: FileSystem, prefix: string) {
    prefix != "/" || fs.stat("").Directory? || Missing(fs, "/")
  }

  /** A status of NonExisting tells the truth: nothing can be opened there.  The current directory is never
      asked about. */
  ghost predicate Truthful(status: seq<DirStatus>, dirname: string, fs: FileSystem, caps: seq<string>) {
    |status| == |caps| && forall i | 0 <= i < |caps| ::
      && (status[i].NonExisting? ==> Missing(fs, dirname + caps[i]))
      && (status[i].Unknown? ==> dirname + caps[i] != "" && Testable(fs, dirname + caps[i]))
  }

  ghost predicate AllSlashed(dirname: string, caps: seq<string>) {
    Slashed(dirname) && forall i | 0 <= i < |caps| :: Slashed(caps[i])
  }

  ghost predicate Missing(fs: FileSystem, prefix: string) {
    forall name: string :: fs.open(prefix + name).OpenFailed?
  }

  /** What one attempt to open a file under a prefix makes of the prefix's status. */
  function StatusAfter(fs: FileSystem, prefix: string, was: DirStatus, name: string): DirStatus
    requires was.Unknown? ==> prefix != ""
  {
    if was != Unknown then was
    else if fs.open(prefix + name).Opened? || fs.stat(prefix[..|prefix|-1]).Directory? then Existing
    else NonExisting
  }

  /** What the test for a directory finds missing is missing. */
  lemma TestedIsMissing(fs: FileSystem, prefix: string)
    requires Consistent(fs) && Slashed(prefix) && prefix != "" && Testable(fs, prefix)
    requires !fs.stat(prefix[..|prefix|-1]).Directory?
    ensures Missing(fs, prefix)
  {
    var d := prefix[..|prefix|-1];
    assert prefix == d + "/";
    if prefix != "/" {
      forall name: string ensures fs.open(prefix + name).OpenFailed? {
        assert prefix + name == d + "/" + name;
      }
    }
  }

  /** After a name that is not found, the status of a directory tells the truth exactly when the directory
      can be tested. */
  lemma StatusIsTruthfulIff(fs: FileSystem, prefix: string, name: string)
    requires Consistent(fs) && Slashed(prefix) && prefix != "" && fs.open(prefix + name).OpenFailed?
    ensures (StatusAfter(fs, prefix, Unknown, name) == NonExisting ==> Missing(fs, prefix)) <==> Testable(fs, prefix)
  {
    if Testable(fs, prefix) && StatusAfter(fs, prefix, Unknown, name) == NonExisting {
      TestedIsMissing(fs, prefix);
    }
    assert prefix == "/" ==> prefix[..|prefix|-1] == "";
  }

  /** The status of a directory after attempts to open these names under it. */
  function StatusAfterAll(fs: FileSystem, prefix: string, names: seq<string>): DirStatus
    requires prefix != ""
  {
    if names == [] then Unknown
    else StatusAfter(fs, prefix, StatusAfterAll(fs, prefix, names[..|names|-1]), names[|names|-1])
  }

  /** With the status remembered, each name is found exactly when it can be opened. */
  ghost predicate AnswersAgree(fs: FileSystem, prefix: string, names: seq<string>)
    requires prefix != ""
  {
    forall n | 0 <= n < |names| ::
      StatusAfterAll(fs, prefix, names[..n]) != NonExisting && fs.open(prefix + names[n]).Opened?
      <==> fs.open(prefix + names[n]).Opened?
  }

  /** The first name decides the status for good. */
  lemma {:induction false} FirstDecides(fs: FileSystem, prefix: string, names: seq<string>)
    requires prefix != "" && names != []
    ensures StatusAfterAll(fs, prefix, names) == StatusAfter(fs, prefix, Unknown, names[0]) != Unknown
  {
    var init := names[..|names|-1];
    if init == [] {
      assert StatusAfterAll(fs, prefix, init) == Unknown;
    } else {
      FirstDecides(fs, prefix, init);
    }
  }

  /** A directory is remembered as missing exactly if the first name was not found in it and it could not be
      tested as a directory then. */
  lemma RememberedMissingIff(fs: FileSystem, prefix: string, names: seq<string>)
    requires prefix != ""
    ensures StatusAfterAll(fs, prefix, names) == NonExisting <==>
              names != [] && fs.open(prefix + names[0]).OpenFailed? && fs.stat(prefix[..|prefix|-1]) != Directory
  {
    if names != [] {
      FirstDecides(fs, prefix, names);
    }
  }

  /** Over any sequence of names, the remembered status of a directory changes no answer exactly when the
      directory can be tested, or its first name is found, or none of them is in it. */
  lemma AnswersAgreeIff(fs: FileSystem, prefix: string, names: seq<string>)
    requires Consistent(fs) && Slashed(prefix) && prefix != ""
    ensures AnswersAgree(fs, prefix, names) <==>
              || Testable(fs, prefix)
              || (names != [] && fs.open(prefix + names[0]).Opened?)
              || (forall n | 0 <= n < |names| :: fs.open(prefix + names[n]).OpenFailed?)
  {
    hide StatusAfter, Testable, Missing, Consistent;
    forall n | 0 < n < |names| ensures StatusAfterAll(fs, prefix, names[..n]) == StatusAfter(fs, prefix, Unknown, names[0]) {
      FirstDecides(fs, prefix, names[..n]);
    }
    assert names != [] ==> StatusAfterAll(fs, prefix, names[..0]) == Unknown;
    if names != [] && fs.open(prefix + names[0]).Opened? {
      FirstFound(fs, prefix, names[0]);
    } else if names != [] {
      StatusIsTruthfulIff(fs, prefix, names[0]);
      NothingIsMissing(fs, prefix, names);
    }
  }

  lemma FirstFound(fs: FileSystem, prefix: string, name: string)
    requires prefix != "" && fs.open(prefix + name).Opened?
    ensures StatusAfter(fs, prefix, Unknown, name) == Existing
  {
  }

  lemma NothingIsMissing(fs: FileSystem, prefix: string, names: seq<string>)
    ensures Missing(fs, prefix) ==> forall n | 0 <= n < |names| :: fs.open(prefix + names[n]).OpenFailed?
  {
  }

  /** A root directory that is forgotten after the first name that is not in it, though another one is. */
  lemma RootIsForgotten()
    ensures var fs := FileSystem(p => if p == "/b" then Opened(3) else OpenFailed(ENOENT), _ => StatFailed(ENOENT));
      && Consistent(fs) && !Testable(fs, "/")
      && StatusAfter(fs, "/", Unknown, "a") == NonExisting && FindIn(fs, "/", [""], "b") == At("/b")
  {
    var fs := FileSystem(p => if p == "/b" then Opened(3) else OpenFailed(ENOENT), _ => StatFailed(ENOENT));
    assert "/" + "a" == "/a" && "/" + "b" == "/b" && "/"[..0] == "";
    assert fs.open("/" + "b").Opened?;
    forall d, f | d != "" ensures fs.open(d + "/" + f).OpenFailed? {
      assert (d + "/" + f)[|d|] == '/';
    }
  }

  /** A new element of the table of directories can be searched, unless it is a root that cannot be tested. */
  lemma NewElementFits(entry: string, status: seq<DirStatus>, fs: FileSystem, caps: seq<string>)
    requires (Canon(entry) == "/" ==> Testable(fs, "/")) && |status| == |caps|
    requires forall i | 0 <= i < |caps| :: Slashed(caps[i])
    requires forall i | 0 <= i < |status| ::
               status[i] == if Canon(entry) != "" && Canon(entry)[0] == '/' then Unknown else Existing
    ensures AllSlashed(Canon(entry), caps) && Truthful(status, Canon(entry), fs, caps)
  {
    var d := Canon(entry);
    forall i | 0 <= i < |caps| && d != "" && d != "/" ensures d + caps[i] != "/" {
      assert (d + caps[i])[..|d|] == d && (d + caps[i])[|d|..] == caps[i];
    }
    if d == "/" {
      forall i | 0 <= i < |caps| && d + caps[i] != "/" ensures Testable(fs, d + caps[i]) {
      }
    }
  }

  lemma {:induction false} NothingFoundIn(fs: FileSystem, dirname: string, caps: seq<string>, name: string)
    requires forall i | 0 <= i < |caps| :: fs.open(dirname + caps[i] + name).OpenFailed?
    ensures FindIn(fs, dirname, caps, name) == Nowhere
  {
    if caps != [] {
      assert forall i | 0 <= i < |caps[1..]| :: caps[1..][i] == caps[i+1];
      NothingFoundIn(fs, dirname, caps[1..], name);
    }
  }

  lemma {:induction false} FoundInAt(fs: FileSystem, dirname: string, caps: seq<string>, name: string, n: nat)
    requires n < |caps| && forall i | 0 <= i < n :: fs.open(dirname + caps[i] + name).OpenFailed?
    requires fs.open(dirname + caps[n] + name).Opened?
    ensures FindIn(fs, dirname, caps, name) == At(dirname + caps[n] + name)
  {
    if n > 0 {
      assert forall i | 0 <= i < |caps[1..]| :: caps[1..][i] == caps[i+1];
      FoundInAt(fs, dirname, caps[1..], name, n - 1);
    }
  }

  /** One call of open_path: it reads and sets the statuses of the directories in its list. */
  class Searcher {
    const fs: FileSystem
    const caps: seq<string>

    constructor (fs: FileSystem, caps: seq<string>)
      ensures this.fs == fs && this.caps == caps
    {
      this.fs, this.caps := fs, caps;
    }

    ghost predicate Fits(e: PathElem)
      reads e
    {
      AllSlashed(e.dirname, caps) && Truthful(e.status, e.dirname, fs, caps)
    }

    /** A status that has seen one more name. */
    ghost predicate Stepped(prefix: string, was: DirStatus, now: DirStatus, name: string) {
      (was.Unknown? ==> prefix != "") && now == StatusAfter(fs, prefix, was, name)
    }

    ghost predicate AllMissing(e: PathElem)
      reads e
    {
      forall k | 0 <= k < |e.status| :: e.status[k].NonExisting?
    }

    ghost predicate SomeExists(e: PathElem)
      reads e
    {
      exists k | 0 <= k < |e.status| :: e.status[k].Existing?
    }

    lemma NotAllMissing(e: PathElem)
      requires SomeExists(e)
      ensures !AllMissing(e)
    {
    }

    lemma MissingParts(e: PathElem)
      requires Fits(e) && AllMissing(e)
      ensures forall k | 0 <= k < |caps| :: Missing(fs, e.dirname + caps[k])
    {
    }

    /** The file has been found under an earlier capability string. */
    ghost predicate FoundBefore(dirname: string, name: string, i: nat)
      requires i <= |caps|
    {
      exists j | 0 <= j < i :: fs.open(dirname + caps[j] + name).Opened?
    }

    /** One directory with one capability string; errno is the last error. */
    method TryPart(dir: PathElem, cnt: nat, name: string, last: SysError) returns (isOpen: bool, errno: SysError)
      requires Consistent(fs) && Fits(dir) && cnt < |caps|
      modifies dir
      ensures Fits(dir) && dir.status == old(dir.status)[cnt := dir.status[cnt]]
      ensures Stepped(dir.dirname + caps[cnt], old(dir.status)[cnt], dir.status[cnt], name)
      ensures isOpen <==> fs.open(dir.dirname + caps[cnt] + name).Opened?
      ensures isOpen ==> dir.status[cnt] != NonExisting
      ensures dir.status[cnt] != Unknown && old(dir.status)[cnt] in {Unknown, dir.status[cnt]}
      ensures !isOpen ==> Benign(errno) || (errno == last && dir.status[cnt] == NonExisting)
    {
      isOpen, errno := false, last;
      if dir.status[cnt] != NonExisting {
        var prefix := dir.dirname + caps[cnt];
        var result := fs.open(prefix + name);
        isOpen := result.Opened?;
        if result.OpenFailed? {
          errno := result.errno;
        }
        if dir.status[cnt] == Unknown {
          if isOpen {
            dir.status := dir.status[cnt := Existing];
          } else {
            var st := fs.stat(prefix[..|prefix|-1]);
            if st.StatFailed? {
              errno := st.errno;
            }
            if st != Directory {
              TestedIsMissing(fs, prefix);
            }
            dir.status := dir.status[cnt := if st != Directory then NonExisting else Existing];
          }
        }
      }
    }

    /** One directory of open_path.  errno is the last error; hereAny says whether the directory has a
        part that is not known to be missing. */
    method TryDirectory(dir: PathElem, name: string) returns (found: Found, hereAny: bool, errno: SysError)
      requires Consistent(fs) && Fits(dir)
      modifies dir
      ensures Fits(dir) && found == FindIn(fs, dir.dirname, caps, name)
      ensures forall i | 0 <= i < |caps| ::
                if FoundBefore(dir.dirname, name, i) then dir.status[i] == old(dir.status)[i]
                else Stepped(dir.dirname + caps[i], old(dir.status)[i], dir.status[i], name) && dir.status[i] != Unknown
      ensures hereAny ==> found.At? || Benign(errno)
      ensures hereAny <==> exists i | 0 <= i < |dir.status| ::
                             !FoundBefore(dir.dirname, name, i) && !dir.status[i].NonExisting?
      ensures found == Nowhere ==> if hereAny then SomeExists(dir) else AllMissing(dir)
      ensures old(AllMissing(dir)) ==> AllMissing(dir)
      ensures old(SomeExists(dir)) ==> SomeExists(dir)
    {
      hide Consistent, Missing, StatusAfter, Testable, AllSlashed;
      ghost var was := dir.status;
      found, hereAny, errno := Nowhere, false, ENOENT;
      for cnt := 0 to |caps|
        invariant Fits(dir) && found == Nowhere
        invariant forall i | 0 <= i < cnt :: fs.open(dir.dirname + caps[i] + name).OpenFailed?
        invariant forall i | 0 <= i < cnt :: Stepped(dir.dirname + caps[i], was[i], dir.status[i], name)
        invariant forall i | 0 <= i < cnt :: dir.status[i] != Unknown
        invariant forall i | 0 <= i < cnt :: was[i] in {Unknown, dir.status[i]}
        invariant forall i | cnt <= i < |caps| :: dir.status[i] == was[i]
        invariant hereAny ==> Benign(errno)
        invariant hereAny <==> exists i | 0 <= i < cnt :: !dir.status[i].NonExisting?
      {
        var isOpen;
        isOpen, errno := TryPart(dir, cnt, name, errno);
        hereAny := hereAny || dir.status[cnt] != NonExisting;
        if isOpen {
          FoundInAt(fs, dir.dirname, caps, name, cnt);
          return At(dir.dirname + caps[cnt] + name), hereAny, errno;
        }
      }
      NothingFoundIn(fs, dir.dirname, caps, name);
    }

    /** open_path.  `removed` says that the list will not be searched again. */
    method OpenPath(name: string, dirs: seq<PathElem>) returns (found: Found, removed: bool)
      requires Consistent(fs) && dirs != [] && forall d | d in dirs :: Fits(d)
      modifies dirs
      ensures forall d | d in dirs :: Fits(d)
      ensures found == Find(fs, Names(dirs), caps, name) && IsFirst(fs, Names(dirs), caps, name, found)
      ensures removed <==> found == Nowhere && forall d | d in dirs :: AllMissing(d)
      ensures removed ==> forall other :: Find(fs, Names(dirs), caps, other) == Nowhere
    {
      FindIsFirst(fs, Names(dirs), caps, name);
      hide Missing, AllSlashed, Testable, Consistent, IsFirst, Stepped, FoundBefore, AllMissing, SomeExists;
      var any := false;
      for i := 0 to |dirs|
        invariant forall d | d in dirs :: Fits(d)
        invariant Find(fs, Names(dirs), caps, name) == Find(fs, Names(dirs)[i..], caps, name)
        invariant !any ==> forall j | 0 <= j < i :: AllMissing(dirs[j])
        invariant any ==> exists j | 0 <= j < i :: SomeExists(dirs[j])
      {
        assert Names(dirs)[i..][0] == dirs[i].dirname && Names(dirs)[i..][1..] == Names(dirs)[i+1..];
        var here, hereAny, errno := TryDirectory(dirs[i], name);
        if here.At? {
          return here, false;
        }
        if hereAny && errno != ENOENT && errno != EACCES {
          return Nowhere, false;
        }
        any := any || hereAny;
      }
      if any {
        ghost var j :| 0 <= j < |dirs| && SomeExists(dirs[j]);
        NotAllMissing(dirs[j]);
      } else {
        forall d | d in dirs ensures forall k | 0 <= k < |caps| :: Missing(fs, d.dirname + caps[k]) {
          MissingParts(d);
        }
        forall other {
          NothingToFind(fs, Names(dirs), caps, other);
        }
      }
      return Nowhere, !any;
    }

    /** Any sequence of searches through lists that share their elements finds what searches without any
        memory find.  A list that has been given up is not searched again. */
    method SearchEach(requests: seq<(string, seq<PathElem>)>, ghost table: set<PathElem>) returns (found: seq<Found>)
      requires Consistent(fs) && forall d | d in table :: Fits(d)
      requires forall r | r in requests :: r.1 != [] && forall d | d in r.1 :: d in table
      modifies table
      ensures forall d | d in table :: Fits(d)
      ensures |found| == |requests|
      ensures forall i | 0 <= i < |requests| :: found[i] == Find(fs, Names(requests[i].1), caps, requests[i].0)
      ensures forall i | 0 <= i < |requests| :: IsFirst(fs, Names(requests[i].1), caps, requests[i].0, found[i])
    {
      hide Missing, AllSlashed, Testable, Consistent, Truthful, IsFirst;
      forall i | 0 <= i < |requests|
        ensures IsFirst(fs, Names(requests[i].1), caps, requests[i].0, Find(fs, Names(requests[i].1), caps, requests[i].0))
      {
        FindIsFirst(fs, Names(requests[i].1), caps, requests[i].0);
      }
      found := [];
      var gone: set<seq<PathElem>> := {};
      for i := 0 to |requests|
        invariant |found| == i && forall d | d in table :: Fits(d)
        invariant forall dirs, other | dirs in gone :: Find(fs, Names(dirs), caps, other) == Nowhere
        invariant forall j | 0 <= j < i :: found[j] == Find(fs, Names(requests[j].1), caps, requests[j].0)
      {
        var (name, dirs) := requests[i];
        assert requests[i] in requests;
        if dirs in gone {
          found := found + [Nowhere];
        } else {
          var here, removed := OpenPath(name, dirs);
          found := found + [here];
          if removed {
            gone := gone + {dirs};
          }
        }
      }
    }
  }

  lemma {:induction false} NothingToFind(fs: FileSystem, dirnames: seq<string>, caps: seq<string>, name: string)
    requires forall j, k | 0 <= j < |dirnames| && 0 <= k < |caps| :: Missing(fs, dirnames[j] + caps[k])
    ensures Find(fs, dirnames, caps, name) == Nowhere
  {
    if dirnames != [] {
      forall k | 0 <= k < |caps| ensures fs.open(dirnames[0] + caps[k] + name).OpenFailed? {
        assert Missing(fs, dirnames[0] + caps[k]);
      }
      NothingFoundIn(fs, dirnames[0], caps, name);
      NothingToFind(fs, dirnames[1..], caps, name);
    }
  }
}
