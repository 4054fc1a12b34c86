/** The finder that keeps a cache of all module locations up to date while sys.path is edited. */
module ModuleCache {
  import opened ModuleTree
  import opened Wrappers

  type Cache = map<string, Entry>

  /** The cache as a function of names. */
  ghost function At(cache: Cache, k: Name): Option<Entry> {
    if Join(k) in cache then Some(cache[Join(k)]) else None
  }

  /** k lies below the name p. */
  ghost predicate Below(p: Name, k: Name) {
    |p| < |k| && k[..|p|] == p
  }

  /** Only the name p has been bound anew. */
  ghost predicate IsPut(c: Cache, c': Cache, p: Name, e: Entry) {
    forall k | IsName(k) :: At(c', k) == if k == p then Some(e) else At(c, k)
  }

  lemma PutAt(cache: Cache, p: Name, e: Entry)
    requires IsName(p)
    ensures IsPut(cache, cache[Join(p) := e], p, e)
  {
    forall k | IsName(k) && Join(k) == Join(p) ensures k == p {
      JoinIsInjective(k, p);
    }
  }

  /** The name of a component below p; p is empty for a directory of the search path. */
  lemma QualifiedName(p: Name, n: string)
    requires DotFree(n) && (p == [] || IsName(p))
    ensures IsName(p + [n]) && Join(p + [n]) == if p == [] then n else Join(p) + "." + n
  {
    assert (p + [n])[..|p|] == p;
  }

  // ---------- trees as the finder expects them ----------

  predicate EndsWith(f: string, suffix: string) {
    |suffix| <= |f| && f[|f|-|suffix|..] == suffix
  }

  /** No dots in directory names and in the stems of module files. */
  ghost predicate Tidy(node: Node, suffixes: seq<string>) {
    node.Dir? ==> TidyEntries(node.entries, suffixes) && forall n | n in node.entries :: Tidy(node.entries[n], suffixes)
  }

  ghost predicate TidyListing(entries: map<string, Node>, suffixes: seq<string>) {
    Tidy(Dir(entries), suffixes)
  }

  lemma {:induction false} ListingIsTidy(root: map<string, Node>, p: Path, suffixes: seq<string>)
    requires TidyListing(root, suffixes)
    ensures TidyListing(Listing(root, p), suffixes)
    decreases |p|
  {
    if p != [] && p[0] in root && root[p[0]].Dir? {
      assert Tidy(root[p[0]], suffixes);
      ListingIsTidy(root[p[0]].entries, p[1..], suffixes);
    }
  }

  ghost predicate TidyEntries(entries: map<string, Node>, suffixes: seq<string>) {
    forall n | n in entries ::
      && (entries[n].Dir? ==> DotFree(n) && n != "")
      && (entries[n].File? ==> forall s | s in suffixes && EndsWith(n, s) :: DotFree(n[..|n|-|s|]))
  }

  // ---------- what the parts of _process_dir do to the cache ----------

  /** A module file of the suffix s binds its stem, unless that is bound and not to be overwritten. */
  ghost predicate BoundBySuffix(c: Cache, c': Cache, path: Path, entries: map<string, Node>, p: Name, s: string,
      prepend: bool, left: set<string>) {
    forall k | IsName(k) :: At(c', k) ==
      if Below(p, k) && |k| == |p| + 1 && IsModule(entries, k[|p|], s) && k[|p|] + s !in left && (prepend || At(c, k) == None)
      then Some(Module(path + [k[|p|] + s], s)) else At(c, k)
  }

  /** The suffixes from i on (when overwriting), or those before i (when not), have bound their files. */
  ghost predicate BoundByFiles(c: Cache, c': Cache, path: Path, entries: map<string, Node>, p: Name,
      suffixes: seq<string>, i: nat, prepend: bool)
    requires i <= |suffixes|
  {
    forall k | IsName(k) :: At(c', k) == AfterFiles(c, path, entries, p, suffixes, i, prepend, k)
  }

  ghost function AfterFiles(c: Cache, path: Path, entries: map<string, Node>, p: Name, suffixes: seq<string>,
      i: nat, prepend: bool, k: Name): Option<Entry>
    requires i <= |suffixes|
  {
    if Below(p, k) && |k| == |p| + 1 then
      var n := k[|p|];
      var j := FirstSuffix(entries, n, suffixes, if prepend then i else 0);
      if (if prepend then j < |suffixes| else j < i && At(c, k) == None) then Some(Module(path + [n + suffixes[j]], suffixes[j]))
      else At(c, k)
    else At(c, k)
  }

  /** The packages among the given names have bound what they hold, unless their own name was bound and
      not to be overwritten. */
  ghost predicate BoundBySubdirs(c: Cache, c': Cache, path: Path, entries: map<string, Node>, p: Name,
      suffixes: seq<string>, left: set<string>, prepend: bool) {
    forall k | IsName(k) :: At(c', k) ==
      if Below(p, k) && k[|p|] !in left && IsPackage(entries, k[|p|]) && (prepend || At(c, k[..|p|+1]) == None)
         && Resolve(path, entries, k[|p|..], suffixes).Some?
      then Resolve(path, entries, k[|p|..], suffixes) else At(c, k)
  }

  /** A possible package directory has been processed as p: it is bound with all it holds if it is a package,
      unless p was bound and not to be overwritten. */
  ghost predicate BoundByDir(c: Cache, c': Cache, path: Path, node: Node, p: Name, suffixes: seq<string>, prepend: bool) {
    forall k | IsName(k) :: At(c', k) ==
      if node.Dir? && INIT in node.entries && (prepend || At(c, p) == None) then
        if k == p then Some(Package(path))
        else if Below(p, k) && Resolve(path, node.entries, k[|p|..], suffixes).Some?
            then Resolve(path, node.entries, k[|p|..], suffixes)
        else At(c, k)
      else At(c, k)
  }

  /** The whole directory has: what it binds below p is bound, unless the first component was bound and
      is not to be overwritten. */
  ghost predicate BoundByContents(c: Cache, c': Cache, path: Path, entries: map<string, Node>, p: Name,
      suffixes: seq<string>, prepend: bool) {
    forall k | IsName(k) :: At(c', k) ==
      if Below(p, k) && (prepend || At(c, k[..|p|+1]) == None) && Resolve(path, entries, k[|p|..], suffixes).Some?
      then Resolve(path, entries, k[|p|..], suffixes) else At(c, k)
  }

  /** Nothing is bound below a component under p that is not bound itself. */
  ghost predicate Rooted(c: Cache, p: Name) {
    forall k | IsName(k) && Below(p, k) && At(c, k).Some? :: At(c, k[..|p|+1]).Some?
  }

  // ---------- what the cache as a whole must be ----------

  function Dirs(syspath: seq<string>, realpath: string -> Path): (r: seq<Path>)
    ensures |r| == |syspath| && forall i | 0 <= i < |r| :: r[i] == realpath(syspath[i])
  {
    seq(|syspath|, i requires 0 <= i < |syspath| => realpath(syspath[i]))
  }

  lemma DirsEnds(path: seq<string>, lo: nat, hi: nat, realpath: string -> Path)
    requires lo < hi <= |path|
    ensures Dirs(path[lo..hi], realpath) == [realpath(path[lo])] + Dirs(path[lo+1..hi], realpath)
    ensures Dirs(path[lo..hi], realpath) == Dirs(path[lo..hi-1], realpath) + [realpath(path[hi-1])]
  {
  }

  /** A cache that has just been built. */
  ghost predicate Exact(c: Cache, root: map<string, Node>, dirs: seq<Path>, suffixes: seq<string>) {
    forall k | IsName(k) :: At(c, k) == Rebuilt(root, dirs, k, suffixes)
  }

  /** A cache that has been kept up to date: it agrees with a built one on names of one component, holds
      every binding of it, and whatever else it holds lies below a bound name. */
  ghost predicate CacheFits(c: Cache, root: map<string, Node>, dirs: seq<Path>, suffixes: seq<string>) {
    forall k | IsName(k) ::
      && (|k| == 1 ==> At(c, k) == Rebuilt(root, dirs, k, suffixes))
      && (Rebuilt(root, dirs, k, suffixes).Some? ==> At(c, k) == Rebuilt(root, dirs, k, suffixes))
      && (At(c, k).Some? ==> At(c, k[..1]).Some?)
  }

  lemma NothingBuilt(root: map<string, Node>, suffixes: seq<string>)
    ensures Exact(map[], root, [], suffixes)
  {
  }

  lemma ExactFits(c: Cache, root: map<string, Node>, dirs: seq<Path>, suffixes: seq<string>)
    requires Exact(c, root, dirs, suffixes)
    ensures CacheFits(c, root, dirs, suffixes) && Rooted(c, [])
  {
    hide At;
    forall k | IsName(k) && At(c, k).Some? ensures At(c, k[..1]).Some? {
      RebuiltTop(root, dirs, k, suffixes);
      assert k[..1] == [k[0]];
    }
  }

  lemma FitsIsRooted(c: Cache, root: map<string, Node>, dirs: seq<Path>, suffixes: seq<string>)
    requires CacheFits(c, root, dirs, suffixes)
    ensures Rooted(c, [])
  {
    hide At;
  }

  /** The first component of a name. */
  lemma TopOf(k: Name)
    requires IsName(k)
    ensures IsName(k[..1]) && k[..1] == [k[0]] && k[..1][..1] == k[..1] && (|k| == 1 ==> k[..1] == k)
    ensures Below([], k) && k[0..] == k
  {
  }

  lemma AppendAt(c: Cache, c': Cache, root: map<string, Node>, dirs: seq<Path>, d: Path, suffixes: seq<string>, k: Name)
    requires CacheFits(c, root, dirs, suffixes) && IsName(k)
    requires BoundByContents(c, c', d, Listing(root, d), [], suffixes, false)
    ensures At(c', k) == if At(c, k[..1]).Some? then At(c, k) else Resolve(d, Listing(root, d), k, suffixes)
    ensures Rebuilt(root, dirs + [d], k, suffixes) ==
      if At(c, k[..1]).Some? then Rebuilt(root, dirs, k, suffixes) else Resolve(d, Listing(root, d), k, suffixes)
  {
    TopOf(k);
    RebuiltAppend(root, dirs, d, k, suffixes);
    assert At(c, k[..1]) == Rebuilt(root, dirs, k[..1], suffixes);
    assert At(c, k).Some? ==> At(c, k[..1]).Some?;
    hide At, Rebuilt, Resolve;
  }

  /** A directory put at the end of the search path: first bindings win. */
  lemma AppendFits(c: Cache, c': Cache, root: map<string, Node>, dirs: seq<Path>, d: Path, suffixes: seq<string>)
    requires CacheFits(c, root, dirs, suffixes)
    requires BoundByContents(c, c', d, Listing(root, d), [], suffixes, false)
    ensures CacheFits(c', root, dirs + [d], suffixes)
    ensures Exact(c, root, dirs, suffixes) ==> Exact(c', root, dirs + [d], suffixes)
  {
    hide At, Rebuilt, Resolve, Bind, BoundByContents;
    forall k | IsName(k)
      ensures At(c', k) == if At(c, k[..1]).Some? then At(c, k) else Resolve(d, Listing(root, d), k, suffixes)
      ensures Rebuilt(root, dirs + [d], k, suffixes) ==
        if At(c, k[..1]).Some? then Rebuilt(root, dirs, k, suffixes) else Resolve(d, Listing(root, d), k, suffixes)
    {
      AppendAt(c, c', root, dirs, d, suffixes, k);
    }
    forall k | IsName(k) ensures At(c', k).Some? ==> At(c', k[..1]).Some? {
      TopOf(k);
      ResolvedTop(d, Listing(root, d), k, suffixes);
    }
  }

  lemma ResolvedTop(path: Path, entries: map<string, Node>, k: Name, suffixes: seq<string>)
    requires k != []
    ensures Resolve(path, entries, k, suffixes).Some? ==> Resolve(path, entries, [k[0]], suffixes).Some?
  {
    if Resolve(path, entries, k, suffixes).Some? {
      ResolvedIsBound(path, entries, k, suffixes);
    }
  }

  lemma PrependAt(c: Cache, c': Cache, root: map<string, Node>, dirs: seq<Path>, d: Path, suffixes: seq<string>, k: Name)
    requires IsName(k) && BoundByContents(c, c', d, Listing(root, d), [], suffixes, true)
    ensures var l := Listing(root, d);
      && At(c', k) == (if Resolve(d, l, k, suffixes).Some? then Resolve(d, l, k, suffixes) else At(c, k))
      && Rebuilt(root, [d] + dirs, k, suffixes) ==
        (if Resolve(d, l, k[..1], suffixes).Some? then Resolve(d, l, k, suffixes) else Rebuilt(root, dirs, k, suffixes))
  {
    TopOf(k);
    assert ([d] + dirs)[1..] == dirs;
  }

  /** A directory put in front: its bindings overwrite, and what lay below an overwritten name stays. */
  lemma PrependFits(c: Cache, c': Cache, root: map<string, Node>, dirs: seq<Path>, d: Path, suffixes: seq<string>)
    requires CacheFits(c, root, dirs, suffixes)
    requires BoundByContents(c, c', d, Listing(root, d), [], suffixes, true)
    ensures CacheFits(c', root, [d] + dirs, suffixes)
  {
    hide At, Rebuilt, Resolve, Bind, BoundByContents;
    var l := Listing(root, d);
    forall k | IsName(k)
      ensures At(c', k) == if Resolve(d, l, k, suffixes).Some? then Resolve(d, l, k, suffixes) else At(c, k)
      ensures Rebuilt(root, [d] + dirs, k, suffixes) ==
        if Resolve(d, l, k[..1], suffixes).Some? then Resolve(d, l, k, suffixes) else Rebuilt(root, dirs, k, suffixes)
      ensures Resolve(d, l, k, suffixes).Some? ==> Resolve(d, l, k[..1], suffixes).Some?
      ensures IsName(k[..1]) && k[..1][..1] == k[..1] && (|k| == 1 ==> k[..1] == k)
    {
      TopOf(k);
      PrependAt(c, c', root, dirs, d, suffixes, k);
      ResolvedTop(d, l, k, suffixes);
    }
  }

  /** What directories put in front of the search path make of a name that was bound to `was`: the first of them
      that has the name itself counts. */
  ghost function Overlaid(root: map<string, Node>, dirs: seq<Path>, k: Name, suffixes: seq<string>, was: Option<Entry>)
      : Option<Entry> {
    if dirs == [] then was
    else
      var e := Resolve(dirs[0], Listing(root, dirs[0]), k, suffixes);
      if e.Some? then e else Overlaid(root, dirs[1..], k, suffixes, was)
  }

  ghost predicate IsOverlaid(c: Cache, c': Cache, root: map<string, Node>, dirs: seq<Path>, suffixes: seq<string>) {
    forall k | IsName(k) :: At(c', k) == Overlaid(root, dirs, k, suffixes, At(c, k))
  }

  /** Directories put at the end count for names whose first component was not bound. */
  ghost predicate IsExtended(c: Cache, c': Cache, root: map<string, Node>, dirs: seq<Path>, suffixes: seq<string>) {
    forall k | IsName(k) :: At(c', k) == if At(c, k[..1]).Some? then At(c, k) else Rebuilt(root, dirs, k, suffixes)
  }

  /** What find_module makes of the cache when sys.path has changed from s to path. */
  ghost predicate IsUpdated(s: seq<string>, path: seq<string>, c: Cache, c': Cache, root: map<string, Node>,
                            realpath: string -> Path, suffixes: seq<string>) {
    var more := |path| - |s|;
    if path == s then c' == c
    else if more > 0 && s != [] && path[more..] == s then IsOverlaid(c, c', root, Dirs(path[..more], realpath), suffixes)
    else if more > 0 && path[..|s|] == s then IsExtended(c, c', root, Dirs(path[|s|..], realpath), suffixes)
    else Exact(c', root, Dirs(path, realpath), suffixes)
  }

  lemma OverlaidMore(c: Cache, c': Cache, c'': Cache, root: map<string, Node>, dirs: seq<Path>, d: Path, suffixes: seq<string>)
    requires IsOverlaid(c, c', root, dirs, suffixes)
    requires BoundByContents(c', c'', d, Listing(root, d), [], suffixes, true)
    ensures IsOverlaid(c, c'', root, [d] + dirs, suffixes)
  {
    hide At, Resolve, BoundByContents, Rebuilt, Overlaid;
    forall k | IsName(k) ensures At(c'', k) == Overlaid(root, [d] + dirs, k, suffixes, At(c, k)) {
      PrependAt(c', c'', root, dirs, d, suffixes, k);
      OverlaidFirst(root, dirs, d, k, suffixes, At(c, k));
    }
  }

  lemma NothingOverlaid(c: Cache, root: map<string, Node>, suffixes: seq<string>)
    ensures IsOverlaid(c, c, root, [], suffixes)
  {
  }

  lemma NothingExtended(c: Cache, root: map<string, Node>, suffixes: seq<string>)
    requires Rooted(c, [])
    ensures IsExtended(c, c, root, [], suffixes)
  {
    hide At;
  }

  lemma OverlaidFirst(root: map<string, Node>, dirs: seq<Path>, d: Path, k: Name, suffixes: seq<string>, was: Option<Entry>)
    ensures var e := Resolve(d, Listing(root, d), k, suffixes);
      Overlaid(root, [d] + dirs, k, suffixes, was) == if e.Some? then e else Overlaid(root, dirs, k, suffixes, was)
  {
    assert ([d] + dirs)[1..] == dirs;
  }

  /** The first directory in front that has the name itself, or what was bound before. */
  lemma {:induction false} OverlaidIsFirst(root: map<string, Node>, dirs: seq<Path>, k: Name, suffixes: seq<string>,
                                           was: Option<Entry>, i: nat)
    requires i <= |dirs| && forall j | 0 <= j < i :: Resolve(dirs[j], Listing(root, dirs[j]), k, suffixes) == None
    requires i < |dirs| ==> Resolve(dirs[i], Listing(root, dirs[i]), k, suffixes).Some?
    ensures Overlaid(root, dirs, k, suffixes, was) ==
      if i < |dirs| then Resolve(dirs[i], Listing(root, dirs[i]), k, suffixes) else was
  {
    hide Resolve, Listing;
    if i > 0 {
      assert forall j | 0 <= j < i - 1 :: dirs[1..][j] == dirs[j+1];
      OverlaidIsFirst(root, dirs[1..], k, suffixes, was, i - 1);
    }
  }

  lemma ExtendedMore(c: Cache, c': Cache, c'': Cache, root: map<string, Node>, dirs: seq<Path>, d: Path, suffixes: seq<string>)
    requires IsExtended(c, c', root, dirs, suffixes) && Rooted(c, [])
    requires BoundByContents(c', c'', d, Listing(root, d), [], suffixes, false)
    ensures IsExtended(c, c'', root, dirs + [d], suffixes)
  {
    hide At, Resolve, Rebuilt;
    forall k | IsName(k)
      ensures At(c'', k) == if At(c, k[..1]).Some? then At(c, k) else Rebuilt(root, dirs + [d], k, suffixes)
    {
      TopOf(k);
      RebuiltAppend(root, dirs, d, k, suffixes);
      if Rebuilt(root, dirs, k, suffixes).Some? {
        RebuiltTop(root, dirs, k, suffixes);
      }
      assert At(c', k[..1]) == if At(c, k[..1]).Some? then At(c, k[..1]) else Rebuilt(root, dirs, [k[0]], suffixes);
    }
  }

  /** Something bound before lies below a component that the new directory binds, and is not in the new
      directory itself. */
  ghost predicate LeavesStale(root: map<string, Node>, dirs: seq<Path>, d: Path, suffixes: seq<string>) {
    exists k :: IsName(k) && IsStale(root, dirs, d, suffixes, k)
  }

  ghost predicate IsStale(root: map<string, Node>, dirs: seq<Path>, d: Path, suffixes: seq<string>, k: Name)
    requires IsName(k)
  {
    var l := Listing(root, d);
    Resolve(d, l, k[..1], suffixes).Some? && Resolve(d, l, k, suffixes) == None && Rebuilt(root, dirs, k, suffixes).Some?
  }

  /** Putting a directory in front of a built cache gives what building it anew gives, exactly when that
      leaves nothing stale. */
  lemma PrependIsExactIff(c: Cache, c': Cache, root: map<string, Node>, dirs: seq<Path>, d: Path, suffixes: seq<string>)
    requires Exact(c, root, dirs, suffixes)
    requires BoundByContents(c, c', d, Listing(root, d), [], suffixes, true)
    ensures Exact(c', root, [d] + dirs, suffixes) <==> !LeavesStale(root, dirs, d, suffixes)
  {
    hide At, Rebuilt, Resolve, Bind, BoundByContents;
    var l := Listing(root, d);
    forall k | IsName(k)
      ensures At(c', k) == if Resolve(d, l, k, suffixes).Some? then Resolve(d, l, k, suffixes) else At(c, k)
      ensures Rebuilt(root, [d] + dirs, k, suffixes) ==
        if Resolve(d, l, k[..1], suffixes).Some? then Resolve(d, l, k, suffixes) else Rebuilt(root, dirs, k, suffixes)
      ensures Resolve(d, l, k, suffixes).Some? ==> Resolve(d, l, k[..1], suffixes).Some?
    {
      TopOf(k);
      PrependAt(c, c', root, dirs, d, suffixes, k);
      ResolvedTop(d, l, k, suffixes);
    }
  }

  /** The directory b holds a package pkg with a module old in it; a, put in front, has a module pkg.  The
      cache keeps pkg.old. */
  lemma StaleExample()
    ensures var b := Dir(map["pkg" := Dir(map[INIT := File, "old.py" := File])]);
      var root := map["a" := Dir(map["pkg.py" := File]), "b" := b];
      LeavesStale(root, [["b"]], ["a"], [".py"])
  {
    var pkg := map[INIT := File, "old.py" := File];
    var a, b := map["pkg.py" := File], map["pkg" := Dir(pkg)];
    var root, k := map["a" := Dir(a), "b" := Dir(b)], ["pkg", "old"];
    assert ["a"][1..] == [] && ["b"][1..] == [] && Listing(root, ["a"]) == a && Listing(root, ["b"]) == b;
    assert k[..1] == ["pkg"] && k[1..] == ["old"];
    assert "pkg" + ".py" == "pkg.py" && "old" + ".py" == "old.py" && "pkg" !in a;
    assert !IsPackage(a, "pkg") && IsModule(a, "pkg", ".py") && IsPackage(b, "pkg") && IsModule(pkg, "old", ".py");
    assert Bind(["b"] + ["pkg"], pkg, "old", [".py"]).Some?;
    assert IsName(k) && IsStale(root, [["b"]], ["a"], [".py"], k);
  }

  /** What the cache binds an undotted string to is what probing finds. */
  lemma UndottedIsProbed(c: Cache, root: map<string, Node>, dirs: seq<Path>, s: string, suffixes: seq<string>)
    requires CacheFits(c, root, dirs, suffixes) && DotFree(s)
    ensures (if s in c then Some(c[s]) else None) == Probe(root, dirs, s, suffixes)
  {
    RebuiltIsProbe(root, dirs, s, suffixes);
    assert IsName([s]) && Join([s]) == s;
    assert At(c, [s]) == Rebuilt(root, dirs, [s], suffixes);
  }

  /** A dotted string that a rebuilt cache binds is bound; one that is bound has a first component that
      probing finds. */
  lemma DottedIsBetween(c: Cache, root: map<string, Node>, dirs: seq<Path>, s: string, suffixes: seq<string>)
    requires CacheFits(c, root, dirs, suffixes)
    ensures Rebuilt(root, dirs, Split(s), suffixes).Some? ==> s in c
    ensures s in c ==> Probe(root, dirs, Split(s)[0], suffixes).Some?
  {
    var k := Split(s);
    SplitIsName(s);
    TopOf(k);
    RebuiltIsProbe(root, dirs, k[0], suffixes);
  }

  // ---------- the finder ----------

  class Finder {
    /** The file system, which does not change, and imp.get_suffixes(). */
    const root: map<string, Node>
    const suffixes: seq<string>
    /** os.path.realpath, and the names of built-in and frozen modules. */
    const realpath: string -> Path
    const builtins: set<string>
    var syspath: seq<string>
    var cache: Cache

    ghost predicate Valid()
      reads this
    {
      TidyListing(root, suffixes) && CacheFits(cache, root, Dirs(syspath, realpath), suffixes)
    }

    constructor (root: map<string, Node>, suffixes: seq<string>, realpath: string -> Path, builtins: set<string>)
      requires TidyListing(root, suffixes)
      ensures Valid() && syspath == [] && cache == map[]
      ensures this.root == root && this.suffixes == suffixes && this.realpath == realpath && this.builtins == builtins
    {
      this.root, this.suffixes, this.realpath, this.builtins := root, suffixes, realpath, builtins;
      syspath, cache := [], map[];
    }

    /** Binds the name p. */
    method Put(key: string, e: Entry, ghost p: Name)
      requires IsName(p) && key == Join(p)
      modifies `cache
      ensures IsPut(old(cache), cache, p, e)
    {
      PutAt(cache, p, e);
      cache := cache[key := e];
    }

    /** The inner loop of process_files. */
    method ProcessSuffix(path: Path, entries: map<string, Node>, parent: string, s: string, prepend: bool, ghost p: Name)
      requires s in suffixes && TidyEntries(entries, suffixes)
      requires if parent == "" then p == [] else IsName(p) && Join(p) == parent
      modifies `cache
      ensures BoundBySuffix(old(cache), cache, path, entries, p, s, prepend, {})
    {
      hide BoundBySuffix, IsPut, At, IsName;
      var files := set f | f in entries && entries[f].File?;
      SuffixStart(cache, path, entries, p, s, prepend, files);
      while files != {}
        invariant (forall f | f in files :: f in entries && entries[f].File?)
        invariant BoundBySuffix(old(cache), cache, path, entries, p, s, prepend, files)
        decreases |files|
      {
        var f :| f in files;
        ghost var before := cache;
        if EndsWith(f, s) {
          var stem := f[..|f|-|s|];
          assert f == stem + s;
          QualifiedName(p, stem);
          var fqname := if parent != "" then parent + "." + stem else stem;
          KeyIsBound(cache, p + [stem]);
          if fqname !in cache || prepend {
            Put(fqname, Module(path + [f], s), p + [stem]);
            SuffixBound(old(cache), before, cache, path, entries, p, s, prepend, files, stem);
          } else {
            SuffixKept(old(cache), cache, path, entries, p, s, files, stem);
          }
        } else {
          SuffixSkip(old(cache), cache, path, entries, p, s, prepend, files, f);
        }
        files := files - {f};
      }
    }

    /** process_files: the suffixes in order of precedence, or in reverse order when overwriting. */
    method ProcessFiles(path: Path, entries: map<string, Node>, parent: string, prepend: bool, ghost p: Name)
      requires TidyEntries(entries, suffixes)
      requires if parent == "" then p == [] else IsName(p) && Join(p) == parent
      modifies `cache
      ensures BoundByFiles(old(cache), cache, path, entries, p, suffixes, if prepend then 0 else |suffixes|, prepend)
    {
      hide BoundByFiles, BoundBySuffix;
      ghost var c := cache;
      NoFilesYet(c, path, entries, p, suffixes, prepend);
      if prepend {
        var i: nat := |suffixes|;
        while i > 0
          invariant i <= |suffixes| && BoundByFiles(c, cache, path, entries, p, suffixes, i, true)
        {
          i := i - 1;
          ghost var before := cache;
          ProcessSuffix(path, entries, parent, suffixes[i], true, p);
          FilesBackward(c, before, cache, path, entries, p, suffixes, i);
        }
      } else {
        for i := 0 to |suffixes|
          invariant BoundByFiles(c, cache, path, entries, p, suffixes, i, false)
        {
          ghost var before := cache;
          ProcessSuffix(path, entries, parent, suffixes[i], false, p);
          FilesForward(c, before, cache, path, entries, p, suffixes, i);
        }
      }
    }

    /** process_subdirs: each subdirectory, in any order. */
    method ProcessSubdirs(path: Path, node: Node, parent: string, prepend: bool, ghost p: Name)
      requires node.Dir? && Tidy(node, suffixes) && (!prepend ==> Rooted(cache, p))
      requires if parent == "" then p == [] else IsName(p) && Join(p) == parent
      modifies `cache
      ensures BoundBySubdirs(old(cache), cache, path, node.entries, p, suffixes, {}, prepend)
      decreases node, 0
    {
      hide BoundBySubdirs, BoundByDir, Rooted;
      var entries := node.entries;
      var subdirs := set d | d in entries && entries[d].Dir?;
      ghost var c := cache;
      NoSubdirsYet(c, path, entries, p, suffixes, subdirs, prepend);
      while subdirs != {}
        invariant forall d | d in subdirs :: d in entries && entries[d].Dir?
        invariant BoundBySubdirs(c, cache, path, entries, p, suffixes, subdirs, prepend)
        decreases |subdirs|
      {
        var d :| d in subdirs;
        QualifiedName(p, d);
        var fqname := if parent != "" then parent + "." + d else d;
        ghost var before := cache;
        if !prepend {
          SubdirsRooted(c, before, path, entries, p, suffixes, subdirs, prepend);
          RootedBelow(before, p, d);
        }
        ProcessDir(path + [d], entries[d], fqname, prepend, p + [d]);
        SubdirStep(c, before, cache, path, entries, p, suffixes, subdirs, d, prepend);
        subdirs := subdirs - {d};
      }
    }

    /** Both kinds of contents, the ones of higher precedence last when overwriting and first when not. */
    method ProcessContents(path: Path, node: Node, parent: string, prepend: bool, ghost p: Name)
      requires node.Dir? && Tidy(node, suffixes) && (!prepend ==> Rooted(cache, p))
      requires if parent == "" then p == [] else IsName(p) && Join(p) == parent
      modifies `cache
      ensures BoundByContents(old(cache), cache, path, node.entries, p, suffixes, prepend)
      decreases node, 1
    {
      hide BoundBySubdirs, BoundByFiles, BoundByContents, Rooted;
      ghost var c := cache;
      if prepend {
        ProcessFiles(path, node.entries, parent, true, p);
        ghost var c1 := cache;
        ProcessSubdirs(path, node, parent, true, p);
        FilesThenSubdirs(c, c1, cache, path, node.entries, p, suffixes);
      } else {
        ProcessSubdirs(path, node, parent, false, p);
        ghost var c1 := cache;
        ProcessFiles(path, node.entries, parent, false, p);
        SubdirsThenFiles(c, c1, cache, path, node.entries, p, suffixes);
      }
    }

    /** _process_dir for a subdirectory that may be the package `parent`. */
    method ProcessDir(path: Path, node: Node, parent: string, prepend: bool, ghost p: Name)
      requires Tidy(node, suffixes) && IsName(p) && Join(p) == parent && parent != ""
      requires !prepend ==> forall k | IsName(k) && Below(p, k) && At(cache, k).Some? :: At(cache, p).Some?
      modifies `cache
      ensures BoundByDir(old(cache), cache, path, node, p, suffixes, prepend)
      decreases node, 2
    {
      ghost var c := cache;
      KeyIsBound(c, p);
      if !node.Dir? || INIT !in node.entries || (parent in cache && !prepend) {
        return;
      }
      Put(parent, Package(path), p);
      ghost var c1 := cache;
      PackageIsRooted(c, c1, p, Package(path), prepend);
      ProcessContents(path, node, parent, prepend, p);
      PackageBound(c, c1, cache, path, node, p, suffixes, prepend);
    }

    /** _process_dir for a directory of the search path. */
    method ProcessTop(path: Path, prepend: bool)
      requires TidyListing(root, suffixes)
      requires !prepend ==> Rooted(cache, [])
      modifies `cache
      ensures BoundByContents(old(cache), cache, path, Listing(root, path), [], suffixes, prepend)
    {
      ListingIsTidy(root, path, suffixes);
      ProcessContents(path, Dir(Listing(root, path)), "", prepend, []);
    }

    /** _build_cache. */
    method BuildCache()
      requires TidyListing(root, suffixes)
      modifies `cache
      ensures Valid() && Exact(cache, root, Dirs(syspath, realpath), suffixes)
    {
      hide Exact, Rooted, CacheFits, BoundByContents;
      cache := map[];
      NothingBuilt(root, suffixes);
      for i := 0 to |syspath|
        invariant Exact(cache, root, Dirs(syspath[..i], realpath), suffixes)
      {
        ghost var before := cache;
        ExactFits(before, root, Dirs(syspath[..i], realpath), suffixes);
        ProcessTop(realpath(syspath[i]), false);
        AppendFits(before, cache, root, Dirs(syspath[..i], realpath), realpath(syspath[i]), suffixes);
        assert Dirs(syspath[..i+1], realpath) == Dirs(syspath[..i], realpath) + [realpath(syspath[i])];
      }
      assert syspath[..|syspath|] == syspath;
      ExactFits(cache, root, Dirs(syspath, realpath), suffixes);
    }

    /** The directories that have been put in front, the last of them first. */
    method Prepend(path: seq<string>, n: nat)
      requires Valid() && n <= |path| && path[n..] == syspath
      modifies `cache
      ensures CacheFits(cache, root, Dirs(path, realpath), suffixes)
      ensures IsOverlaid(old(cache), cache, root, Dirs(path[..n], realpath), suffixes)
    {
      NothingOverlaid(cache, root, suffixes);
      hide Exact, Rooted, CacheFits, BoundByContents, IsOverlaid, Dirs;
      ghost var was := cache;
      var i: nat := n;
      assert Dirs(path[n..n], realpath) == [] && path[n..|path|] == path[n..];
      while i > 0
        invariant i <= n && CacheFits(cache, root, Dirs(path[i..|path|], realpath), suffixes)
        invariant IsOverlaid(was, cache, root, Dirs(path[i..n], realpath), suffixes)
      {
        i := i - 1;
        ghost var before := cache;
        ProcessTop(realpath(path[i]), true);
        PrependFits(before, cache, root, Dirs(path[i+1..|path|], realpath), realpath(path[i]), suffixes);
        OverlaidMore(was, before, cache, root, Dirs(path[i+1..n], realpath), realpath(path[i]), suffixes);
        DirsEnds(path, i, |path|, realpath);
        DirsEnds(path, i, n, realpath);
      }
      assert path[0..|path|] == path;
    }

    lemma OneAppended(was: Cache, before: Cache, now: Cache, path: seq<string>, n: nat, i: nat)
      requires n <= i < |path| && Rooted(was, []) && CacheFits(before, root, Dirs(path[0..i], realpath), suffixes)
      requires IsExtended(was, before, root, Dirs(path[n..i], realpath), suffixes)
      requires BoundByContents(before, now, realpath(path[i]), Listing(root, realpath(path[i])), [], suffixes, false)
      ensures CacheFits(now, root, Dirs(path[0..i+1], realpath), suffixes)
      ensures IsExtended(was, now, root, Dirs(path[n..i+1], realpath), suffixes)
    {
      hide *;
      AppendFits(before, now, root, Dirs(path[0..i], realpath), realpath(path[i]), suffixes);
      ExtendedMore(was, before, now, root, Dirs(path[n..i], realpath), realpath(path[i]), suffixes);
      DirsEnds(path, 0, i + 1, realpath);
      DirsEnds(path, n, i + 1, realpath);
    }

    /** The directories that have been put at the end. */
    method Append(path: seq<string>, n: nat)
      requires Valid() && n <= |path| && path[..n] == syspath
      modifies `cache
      ensures CacheFits(cache, root, Dirs(path, realpath), suffixes)
      ensures IsExtended(old(cache), cache, root, Dirs(path[n..], realpath), suffixes)
    {
      hide Exact, Rooted, CacheFits, BoundByContents, IsExtended, TidyListing, Dirs;
      FitsIsRooted(cache, root, Dirs(syspath, realpath), suffixes);
      NothingExtended(cache, root, suffixes);
      ghost var was := cache;
      assert Dirs(path[n..n], realpath) == [] && path[0..n] == path[..n];
      for i := n to |path|
        invariant CacheFits(cache, root, Dirs(path[0..i], realpath), suffixes)
        invariant IsExtended(was, cache, root, Dirs(path[n..i], realpath), suffixes)
      {
        ghost var before := cache;
        FitsIsRooted(before, root, Dirs(path[0..i], realpath), suffixes);
        ProcessTop(realpath(path[i]), false);
        OneAppended(was, before, cache, path, n, i);
      }
      assert path[0..|path|] == path && path[n..|path|] == path[n..];
    }

    /** The first part of find_module, when sys.path has become `path`. */
    method Update(path: seq<string>)
      requires Valid()
      modifies `cache, `syspath
      ensures Valid() && syspath == path
      ensures IsUpdated(old(syspath), path, old(cache), cache, root, realpath, suffixes)
    {
      hide CacheFits, Exact, IsOverlaid, IsExtended, TidyListing, Dirs;
      if path == syspath {
        return;
      }
      var stored, length := |syspath|, |path|;
      var rebuild := false;
      if length <= stored {
        rebuild := true;
      } else if syspath == (if stored == 0 then path else path[length-stored..]) {
        Prepend(path, length - stored);
      } else if syspath == path[..stored] {
        Append(path, stored);
      } else {
        rebuild := true;
      }
      syspath := path;
      if rebuild {
        BuildCache();
      }
    }

    /** find_module. */
    method FindModule(path: seq<string>, fullname: string) returns (found: bool)
      requires Valid()
      modifies `cache, `syspath
      ensures Valid() && syspath == path
      ensures IsUpdated(old(syspath), path, old(cache), cache, root, realpath, suffixes)
      ensures found <==> fullname !in builtins && fullname in cache
    {
      Update(path);
      return fullname !in builtins && fullname in cache;
    }

    /** Any sequence of edits of sys.path, each followed by find_module: for a name without a dot the answer
        is always that of probing the directories of the search path in order.  A dotted name that a rebuilt
        cache has is found, and one that is found lies below a component that probing finds. */
    method FindEach(requests: seq<(seq<string>, string)>) returns (found: seq<bool>)
      requires Valid()
      modifies `cache, `syspath
      ensures Valid() && |found| == |requests|
      ensures forall i | 0 <= i < |requests| && DotFree(requests[i].1) ::
                found[i] <==> requests[i].1 !in builtins &&
                              Probe(root, Dirs(requests[i].0, realpath), requests[i].1, suffixes).Some?
      ensures forall i | 0 <= i < |requests| && DotFree(requests[i].1) ::
                found[i] <==> requests[i].1 !in builtins &&
                              exists k :: 0 <= k < |requests[i].0| &&
                                !Lacks(Listing(root, realpath(requests[i].0[k])), requests[i].1, suffixes)
      ensures forall i | 0 <= i < |requests| :: Between(requests[i].0, requests[i].1, found[i])
    {
      hide *;
      found := [];
      for i := 0 to |requests|
        invariant Valid() && |found| == i
        invariant forall j | 0 <= j < i && DotFree(requests[j].1) ::
                    found[j] <==> requests[j].1 !in builtins &&
                                  Probe(root, Dirs(requests[j].0, realpath), requests[j].1, suffixes).Some?
        invariant forall j | 0 <= j < i :: Between(requests[j].0, requests[j].1, found[j])
      {
        var here := FindModule(requests[i].0, requests[i].1);
        AnswerFits(requests[i].0, requests[i].1, here);
        found := found + [here];
      }
      EachFound(requests);
    }

    lemma EachFound(requests: seq<(seq<string>, string)>)
      ensures forall i | 0 <= i < |requests| ::
                var (path, name) := requests[i];
                Probe(root, Dirs(path, realpath), name, suffixes).Some? <==>
                  exists k :: 0 <= k < |path| && !Lacks(Listing(root, realpath(path[k])), name, suffixes)
    {
      hide Lacks, Listing, Probe;
      forall i | 0 <= i < |requests|
        ensures var (path, name) := requests[i];
          Probe(root, Dirs(path, realpath), name, suffixes).Some? <==>
            exists k :: 0 <= k < |path| && !Lacks(Listing(root, realpath(path[k])), name, suffixes)
      {
        var (path, name) := requests[i];
        var dirs := Dirs(path, realpath);
        ProbeFindsIff(root, dirs, name, suffixes);
        assert forall k | 0 <= k < |path| :: dirs[k] == realpath(path[k]);
      }
    }

    lemma AnswerFits(path: seq<string>, fullname: string, found: bool)
      requires Valid() && syspath == path && (found <==> fullname !in builtins && fullname in cache)
      ensures DotFree(fullname) ==>
                (found <==> fullname !in builtins && Probe(root, Dirs(path, realpath), fullname, suffixes).Some?)
      ensures Between(path, fullname, found)
    {
      hide CacheFits, Probe, Rebuilt, DotFree;
      if DotFree(fullname) {
        UndottedIsProbed(cache, root, Dirs(path, realpath), fullname, suffixes);
      }
      DottedIsBetween(cache, root, Dirs(path, realpath), fullname, suffixes);
    }

    /** The answer lies between what a rebuilt cache has and what has a first component at all. */
    ghost predicate Between(path: seq<string>, fullname: string, found: bool) {
      var dirs := Dirs(path, realpath);
      && (found ==> fullname !in builtins && Probe(root, dirs, Split(fullname)[0], suffixes).Some?)
      && (fullname !in builtins && Rebuilt(root, dirs, Split(fullname), suffixes).Some? ==> found)
    }
  }

  lemma PackageIsRooted(c: Cache, c1: Cache, p: Name, e: Entry, prepend: bool)
    requires IsName(p) && IsPut(c, c1, p, e) && (prepend || At(c, p) == None)
    requires !prepend ==> forall k | IsName(k) && Below(p, k) && At(c, k).Some? :: At(c, p).Some?
    ensures !prepend ==> Rooted(c1, p)
  {
    hide At;
  }

  lemma PackageBound(c: Cache, c1: Cache, c2: Cache, path: Path, node: Node, p: Name, suffixes: seq<string>, prepend: bool)
    requires node.Dir? && INIT in node.entries && IsName(p) && (prepend || At(c, p) == None)
    requires IsPut(c, c1, p, Package(path)) && BoundByContents(c1, c2, path, node.entries, p, suffixes, prepend)
    requires !prepend ==> forall k | IsName(k) && Below(p, k) && At(c, k).Some? :: At(c, p).Some?
    ensures BoundByDir(c, c2, path, node, p, suffixes, prepend)
  {
    hide At, Resolve;
    forall k | IsName(k) && Below(p, k) && !prepend ensures At(c, k[..|p|+1]) == None {
      assert IsName(k[..|p|+1]) && Below(p, k[..|p|+1]);
    }
  }

  lemma NoSubdirsYet(c: Cache, path: Path, entries: map<string, Node>, p: Name, suffixes: seq<string>,
      left: set<string>, prepend: bool)
    requires forall n | n in entries && entries[n].Dir? :: n in left
    ensures BoundBySubdirs(c, c, path, entries, p, suffixes, left, prepend)
  {
    hide At, IsName, Resolve;
  }

  /** One more subdirectory. */
  lemma SubdirStep(c: Cache, c1: Cache, c2: Cache, path: Path, entries: map<string, Node>, p: Name, suffixes: seq<string>,
                   left: set<string>, d: string, prepend: bool)
    requires BoundBySubdirs(c, c1, path, entries, p, suffixes, left, prepend) && d in left && d in entries && entries[d].Dir?
    requires IsName(p + [d]) && BoundByDir(c1, c2, path + [d], entries[d], p + [d], suffixes, prepend)
    ensures BoundBySubdirs(c, c2, path, entries, p, suffixes, left - {d}, prepend)
  {
    hide At;
    assert (p + [d])[..|p|] == p;
    forall k | IsName(k) ensures At(c2, k) ==
      if Below(p, k) && k[|p|] !in left - {d} && IsPackage(entries, k[|p|]) && (prepend || At(c, k[..|p|+1]) == None)
         && Resolve(path, entries, k[|p|..], suffixes).Some?
      then Resolve(path, entries, k[|p|..], suffixes) else At(c, k)
    {
      if Below(p, k) && k[|p|] == d {
        assert k[..|p|+1] == p + [d];
        assert k[|p|..][1..] == k[|p|+1..];
        assert k == p + [d] || Below(p + [d], k);
      } else {
        assert !Below(p + [d], k) && k != p + [d];
      }
    }
  }

  lemma SubdirsRooted(c: Cache, c': Cache, path: Path, entries: map<string, Node>, p: Name, suffixes: seq<string>,
      left: set<string>, prepend: bool)
    requires Rooted(c, p) && BoundBySubdirs(c, c', path, entries, p, suffixes, left, prepend)
    ensures Rooted(c', p)
  {
    hide At;
    forall k | IsName(k) && Below(p, k) && At(c', k).Some? ensures At(c', k[..|p|+1]).Some? {
      var top := k[..|p|+1];
      assert IsName(top) && Below(p, top) && top[..|p|+1] == top && top[|p|..] == [k[|p|]];
    }
  }

  /** Below a component that is not bound there is nothing. */
  lemma RootedBelow(c: Cache, p: Name, d: string)
    requires Rooted(c, p)
    ensures forall k | IsName(k) && Below(p + [d], k) && At(c, k).Some? :: At(c, p + [d]).Some?
  {
    hide At;
    forall k | IsName(k) && Below(p + [d], k) && At(c, k).Some? ensures At(c, p + [d]).Some? {
      assert k[..|p|] == (p + [d])[..|p|] == p;
      assert k[..|p|+1] == p + [d];
    }
  }

  /** Packages first, then files that find their name unbound. */
  lemma SubdirsThenFiles(c: Cache, c1: Cache, c2: Cache, path: Path, entries: map<string, Node>, p: Name, suffixes: seq<string>)
    requires Rooted(c, p) && BoundBySubdirs(c, c1, path, entries, p, suffixes, {}, false)
    requires BoundByFiles(c1, c2, path, entries, p, suffixes, |suffixes|, false)
    ensures BoundByContents(c, c2, path, entries, p, suffixes, false)
  {
    hide At;
    forall k | IsName(k) ensures At(c2, k) ==
      if Below(p, k) && (false || At(c, k[..|p|+1]) == None) && Resolve(path, entries, k[|p|..], suffixes).Some?
      then Resolve(path, entries, k[|p|..], suffixes) else At(c, k)
    {
      if Below(p, k) && |k| == |p| + 1 {
        assert k[..|p|+1] == k;
      }
    }
  }

  /** Files in reverse order, then packages, each overwriting. */
  lemma FilesThenSubdirs(c: Cache, c1: Cache, c2: Cache, path: Path, entries: map<string, Node>, p: Name, suffixes: seq<string>)
    requires BoundByFiles(c, c1, path, entries, p, suffixes, 0, true)
    requires BoundBySubdirs(c1, c2, path, entries, p, suffixes, {}, true)
    ensures BoundByContents(c, c2, path, entries, p, suffixes, true)
  {
    hide At;
  }

  /** Modules with the next suffix, when nothing is overwritten. */
  lemma FilesForward(c: Cache, c1: Cache, c2: Cache, path: Path, entries: map<string, Node>, p: Name,
      suffixes: seq<string>, i: nat)
    requires i < |suffixes| && BoundByFiles(c, c1, path, entries, p, suffixes, i, false)
    requires BoundBySuffix(c1, c2, path, entries, p, suffixes[i], false, {})
    ensures BoundByFiles(c, c2, path, entries, p, suffixes, i + 1, false)
  {
    hide At, IsName;
  }

  /** Modules with the suffix before, when everything is overwritten. */
  lemma FilesBackward(c: Cache, c1: Cache, c2: Cache, path: Path, entries: map<string, Node>, p: Name,
      suffixes: seq<string>, i: nat)
    requires i < |suffixes| && BoundByFiles(c, c1, path, entries, p, suffixes, i + 1, true)
    requires BoundBySuffix(c1, c2, path, entries, p, suffixes[i], true, {})
    ensures BoundByFiles(c, c2, path, entries, p, suffixes, i, true)
  {
    hide At, IsName;
  }

  lemma NoFilesYet(c: Cache, path: Path, entries: map<string, Node>, p: Name, suffixes: seq<string>, prepend: bool)
    ensures BoundByFiles(c, c, path, entries, p, suffixes, if prepend then |suffixes| else 0, prepend)
  {
  }

  lemma KeyIsBound(c: Cache, k: Name)
    ensures Join(k) in c <==> At(c, k).Some?
  {
  }

  lemma SuffixStart(c: Cache, path: Path, entries: map<string, Node>, p: Name, s: string, prepend: bool, files: set<string>)
    requires forall f | f in entries && entries[f].File? :: f in files
    ensures BoundBySuffix(c, c, path, entries, p, s, prepend, files)
  {
  }

  lemma SuffixSkip(c: Cache, c': Cache, path: Path, entries: map<string, Node>, p: Name, s: string, prepend: bool,
      left: set<string>, f: string)
    requires BoundBySuffix(c, c', path, entries, p, s, prepend, left) && !EndsWith(f, s)
    ensures BoundBySuffix(c, c', path, entries, p, s, prepend, left - {f})
  {
    forall n: string ensures n + s != f {
      assert EndsWith(n + s, s);
    }
  }

  lemma StemIsUnique(n: string, stem: string, s: string)
    ensures n + s == stem + s <==> n == stem
  {
    if n + s == stem + s {
      assert n == (n + s)[..|n + s|-|s|];
    }
  }

  /** One more file has bound its stem. */
  lemma SuffixBound(c: Cache, c': Cache, c'': Cache, path: Path, entries: map<string, Node>, p: Name, s: string, prepend: bool,
                    left: set<string>, stem: string)
    requires BoundBySuffix(c, c', path, entries, p, s, prepend, left) && IsModule(entries, stem, s) && stem + s in left
    requires IsName(p + [stem]) && (prepend || At(c', p + [stem]) == None)
    requires IsPut(c', c'', p + [stem], Module(path + [stem + s], s))
    ensures BoundBySuffix(c, c'', path, entries, p, s, prepend, left - {stem + s})
  {
    hide At;
    var key := p + [stem];
    assert key[..|p|] == p;
    forall k | IsName(k) ensures At(c'', k) ==
      if Below(p, k) && |k| == |p| + 1 && IsModule(entries, k[|p|], s) && k[|p|] + s !in left - {stem + s}
          && (prepend || At(c, k) == None)
      then Some(Module(path + [k[|p|] + s], s)) else At(c, k)
    {
      if Below(p, k) && |k| == |p| + 1 {
        StemIsUnique(k[|p|], stem, s);
        assert k == p + [k[|p|]];
      }
    }
  }

  /** One more file has found its stem bound. */
  lemma SuffixKept(c: Cache, c': Cache, path: Path, entries: map<string, Node>, p: Name, s: string,
      left: set<string>, stem: string)
    requires BoundBySuffix(c, c', path, entries, p, s, false, left) && stem + s in left
    requires IsName(p + [stem]) && At(c', p + [stem]).Some?
    ensures BoundBySuffix(c, c', path, entries, p, s, false, left - {stem + s})
  {
    hide At;
    var key := p + [stem];
    assert key[..|p|] == p;
    forall k | IsName(k) ensures At(c', k) ==
      if Below(p, k) && |k| == |p| + 1 && IsModule(entries, k[|p|], s) && k[|p|] + s !in left - {stem + s} && At(c, k) == None
      then Some(Module(path + [k[|p|] + s], s)) else At(c, k)
    {
      if Below(p, k) && |k| == |p| + 1 {
        StemIsUnique(k[|p|], stem, s);
        assert k == p + [k[|p|]];
      }
    }
  }
}
