/** Python modules on a fixed directory tree: dotted names, and what a directory binds. */
module ModuleTree {
  import opened Wrappers

  // ---------- dotted names ----------

  ghost predicate DotFree(s: string) {
    '.' !in s
  }

  /** The components of a dotted name. */
  type Name = seq<string>

  ghost predicate IsName(k: Name) {
    k != [] && forall i | 0 <= i < |k| :: DotFree(k[i])
  }

  function Join(k: Name): string {
    if k == [] then "" else if |k| == 1 then k[0] else Join(k[..|k|-1]) + "." + k[|k|-1]
  }

  /** Where the last dot of s is, or -1. */
  function LastDot(s: string): (d: int)
    ensures -1 <= d < |s|
    ensures d >= 0 ==> s[d] == '.'
    ensures forall i | d < i < |s| :: s[i] != '.'
  {
    if s == "" then -1 else if s[|s|-1] == '.' then |s| - 1 else LastDot(s[..|s|-1])
  }

  function Split(s: string): (k: Name)
    ensures k != []
    decreases |s|
  {
    var d := LastDot(s);
    if d < 0 then [s] else Split(s[..d]) + [s[d+1..]]
  }

  lemma {:induction false} SplitIsName(s: string)
    ensures IsName(Split(s)) && Join(Split(s)) == s
    decreases |s|
  {
    var d := LastDot(s);
    if d >= 0 {
      SplitIsName(s[..d]);
      var front, last := Split(s[..d]), s[d+1..];
      assert (front + [last])[..|front|] == front;
      assert Split(s) == front + [last];
      assert Join(front + [last]) == Join(front) + "." + last;
      hide Split, Join, LastDot;
      assert s == s[..d] + "." + s[d+1..];
    }
  }

  lemma LastDotOf(a: string, b: string)
    requires DotFree(b)
    ensures LastDot(a + "." + b) == |a|
  {
    var s := a + "." + b;
    assert s[|a|] == '.';
    assert forall i | |a| < i < |s| :: s[i] == b[i-|a|-1];
  }

  lemma {:induction false} SplitJoin(k: Name)
    requires IsName(k)
    ensures Split(Join(k)) == k
    decreases |k|
  {
    if |k| > 1 {
      var init, last := k[..|k|-1], k[|k|-1];
      SplitJoin(init);
      var front, s := Join(init), Join(k);
      LastDotOf(front, last);
      assert s == front + "." + last;
      hide Join, LastDot;
      assert s[..|front|] == front && s[|front|+1..] == last;
      assert k == init + [last];
    }
  }

  /** Different names are different strings. */
  lemma JoinIsInjective(a: Name, b: Name)
    requires IsName(a) && IsName(b) && Join(a) == Join(b)
    ensures a == b
  {
    SplitJoin(a);
    SplitJoin(b);
  }

  /** A string without a dot is a name of one component, and the other way round. */
  lemma UndottedIff(s: string)
    ensures DotFree(s) <==> Split(s) == [s]
    ensures DotFree(s) <==> |Split(s)| == 1
  {
    SplitIsName(s);
    if LastDot(s) >= 0 {
      assert s[LastDot(s)] == '.';
    }
  }

  // ---------- the directory tree ----------

  type Path = seq<string>

  datatype Node = File | Other | Dir(entries: map<string, Node>)

  const INIT := "__init__.py"

  /** What an import of a name would load: the path, and the suffix that makes it a module; a package
      directory has none. */
  datatype Entry = Package(path: Path) | Module(path: Path, suffix: string)

  predicate IsPackage(entries: map<string, Node>, n: string) {
    n in entries && entries[n].Dir? && INIT in entries[n].entries
  }

  predicate IsModule(entries: map<string, Node>, n: string, suffix: string) {
    n + suffix in entries && entries[n + suffix].File?
  }

  /** The first of the suffixes from i on with which n is a module file, or |suffixes|. */
  function FirstSuffix(entries: map<string, Node>, n: string, suffixes: seq<string>, i: nat): (j: nat)
    requires i <= |suffixes|
    ensures i <= j <= |suffixes|
    ensures j < |suffixes| ==> IsModule(entries, n, suffixes[j])
    ensures forall k | i <= k < j :: !IsModule(entries, n, suffixes[k])
    decreases |suffixes| - i
  {
    if i == |suffixes| || IsModule(entries, n, suffixes[i]) then i else FirstSuffix(entries, n, suffixes, i + 1)
  }

  /** What a directory binds the single component n to: a package before a module file, the suffixes in
      their order. */
  function Bind(path: Path, entries: map<string, Node>, n: string, suffixes: seq<string>): Option<Entry> {
    if IsPackage(entries, n) then Some(Package(path + [n]))
    else
      var j := FirstSuffix(entries, n, suffixes, 0);
      if j < |suffixes| then Some(Module(path + [n + suffixes[j]], suffixes[j])) else None
  }

  /** What a directory binds a name to: all components but the last are packages in one another. */
  function Resolve(path: Path, entries: map<string, Node>, k: Name, suffixes: seq<string>): Option<Entry>
    decreases |k|
  {
    if k == [] then None
    else if |k| == 1 then Bind(path, entries, k[0], suffixes)
    else if IsPackage(entries, k[0]) then Resolve(path + [k[0]], entries[k[0]].entries, k[1..], suffixes)
    else None
  }

  /** Nothing is bound below a component that is not bound. */
  lemma ResolvedIsBound(path: Path, entries: map<string, Node>, k: Name, suffixes: seq<string>)
    requires k != [] && Resolve(path, entries, k, suffixes).Some?
    ensures Bind(path, entries, k[0], suffixes).Some?
  {
  }

  /** The listing of the directory at a path, empty if there is none. */
  function Listing(root: map<string, Node>, p: Path): map<string, Node>
    decreases |p|
  {
    if p == [] then root
    else if p[0] in root && root[p[0]].Dir? then Listing(root[p[0]].entries, p[1..])
    else map[]
  }

  lemma {:induction false} ListingBelow(root: map<string, Node>, p: Path, n: string)
    ensures Listing(root, []) == root
    ensures var l := Listing(root, p);
      Listing(root, p + [n]) == if n in l && l[n].Dir? then l[n].entries else map[]
    decreases |p|
  {
    if p == [] {
      assert ([n])[1..] == [];
    } else {
      assert (p + [n])[1..] == p[1..] + [n];
      if p[0] in root && root[p[0]].Dir? {
        ListingBelow(root[p[0]].entries, p[1..], n);
      }
    }
  }

  /** Read from the other end: what pkg.sub is bound to is what the directory bound to pkg binds sub to. */
  lemma {:induction false} ResolveLast(root: map<string, Node>, path: Path, k: Name, n: string, suffixes: seq<string>)
    requires k != []
    ensures Resolve(path, Listing(root, path), k + [n], suffixes) ==
      match Resolve(path, Listing(root, path), k, suffixes)
      case Some(Package(p)) => Bind(p, Listing(root, p), n, suffixes)
      case _ => None
    decreases |k|
  {
    var l := Listing(root, path);
    ListingBelow(root, path, k[0]);
    if |k| == 1 {
      assert (k + [n])[1..] == [n];
    } else {
      assert (k + [n])[1..] == k[1..] + [n];
      if IsPackage(l, k[0]) {
        ResolveLast(root, path + [k[0]], k[1..], n, suffixes);
      }
    }
  }

  // ---------- a search path ----------

  /** What a cache that has just been built binds a name to: what the first directory does that binds its
      first component. */
  function Rebuilt(root: map<string, Node>, dirs: seq<Path>, k: Name, suffixes: seq<string>): Option<Entry> {
    if dirs == [] || k == [] then None
    else if Bind(dirs[0], Listing(root, dirs[0]), k[0], suffixes).Some? then Resolve(dirs[0], Listing(root, dirs[0]), k, suffixes)
    else Rebuilt(root, dirs[1..], k, suffixes)
  }

  /** The first directory that binds n at all: the standard probing order. */
  function Probe(root: map<string, Node>, dirs: seq<Path>, n: string, suffixes: seq<string>): Option<Entry> {
    if dirs == [] then None
    else
      var b := Bind(dirs[0], Listing(root, dirs[0]), n, suffixes);
      if b.Some? then b else Probe(root, dirs[1..], n, suffixes)
  }

  /** A directory has neither a subdirectory of this name with an __init__.py in it nor a regular file of this name
      with one of the suffixes. */
  ghost predicate Lacks(entries: map<string, Node>, n: string, suffixes: seq<string>) {
    && !(n in entries && entries[n].Dir? && "__init__.py" in entries[n].entries)
    && forall j | 0 <= j < |suffixes| :: !(n + suffixes[j] in entries && entries[n + suffixes[j]] == File)
  }

  /** What an import of n must find: in the first directory that does not lack it the package, or else the module
      with the first suffix. */
  ghost predicate IsChosen(root: map<string, Node>, dirs: seq<Path>, n: string, suffixes: seq<string>, found: Option<Entry>) {
    match found
    case None => forall i | 0 <= i < |dirs| :: Lacks(Listing(root, dirs[i]), n, suffixes)
    case Some(e) => exists i | 0 <= i < |dirs| ::
      && (forall k | 0 <= k < i :: Lacks(Listing(root, dirs[k]), n, suffixes))
      && IsChosenIn(dirs[i], Listing(root, dirs[i]), n, suffixes, e)
  }

  ghost predicate IsChosenIn(path: Path, l: map<string, Node>, n: string, suffixes: seq<string>, e: Entry) {
    if n in l && l[n].Dir? && "__init__.py" in l[n].entries then e == Package(path + [n])
    else exists j | 0 <= j < |suffixes| ::
      && n + suffixes[j] in l && l[n + suffixes[j]] == File
      && (forall k | 0 <= k < j :: !(n + suffixes[k] in l && l[n + suffixes[k]] == File))
      && e == Module(path + [n + suffixes[j]], suffixes[j])
  }

  lemma BindIsChosen(path: Path, l: map<string, Node>, n: string, suffixes: seq<string>)
    ensures match Bind(path, l, n, suffixes)
      case None => Lacks(l, n, suffixes)
      case Some(e) => IsChosenIn(path, l, n, suffixes, e)
  {
  }

  /** Probing finds what it must. */
  lemma {:induction false} ProbeIsChosen(root: map<string, Node>, dirs: seq<Path>, n: string, suffixes: seq<string>)
    ensures IsChosen(root, dirs, n, suffixes, Probe(root, dirs, n, suffixes))
  {
    hide Lacks, IsChosenIn, Bind, Listing;
    if dirs != [] {
      BindIsChosen(dirs[0], Listing(root, dirs[0]), n, suffixes);
      if Bind(dirs[0], Listing(root, dirs[0]), n, suffixes) == None {
        var rest := dirs[1..];
        ProbeIsChosen(root, rest, n, suffixes);
        assert forall i | 0 < i < |dirs| :: dirs[i] == rest[i-1];
        if Probe(root, rest, n, suffixes).Some? {
          var e := Probe(root, rest, n, suffixes).value;
          var i :| 0 <= i < |rest| && (forall k | 0 <= k < i :: Lacks(Listing(root, rest[k]), n, suffixes))
            && IsChosenIn(rest[i], Listing(root, rest[i]), n, suffixes, e);
          assert dirs[i+1] == rest[i];
          forall k | 0 <= k < i + 1 ensures Lacks(Listing(root, dirs[k]), n, suffixes) {
            assert k > 0 ==> dirs[k] == rest[k-1];
          }
        }
      }
    }
  }

  lemma ProbeFindsIff(root: map<string, Node>, dirs: seq<Path>, n: string, suffixes: seq<string>)
    ensures Probe(root, dirs, n, suffixes).Some? <==>
              exists i :: 0 <= i < |dirs| && !Lacks(Listing(root, dirs[i]), n, suffixes)
  {
    ProbeIsChosen(root, dirs, n, suffixes);
  }

  /** For a top-level name, building the cache and probing come to the same. */
  lemma {:induction false} RebuiltIsProbe(root: map<string, Node>, dirs: seq<Path>, n: string, suffixes: seq<string>)
    ensures Rebuilt(root, dirs, [n], suffixes) == Probe(root, dirs, n, suffixes)
  {
    if dirs != [] {
      RebuiltIsProbe(root, dirs[1..], n, suffixes);
    }
  }

  /** For a name below a package, building the cache and probing the package's directory come to the same. */
  lemma {:induction false} RebuiltLast(root: map<string, Node>, dirs: seq<Path>, k: Name, n: string, suffixes: seq<string>)
    requires k != []
    ensures Rebuilt(root, dirs, k + [n], suffixes) ==
      match Rebuilt(root, dirs, k, suffixes)
      case Some(Package(p)) => Bind(p, Listing(root, p), n, suffixes)
      case _ => None
  {
    if dirs != [] {
      ResolveLast(root, dirs[0], k, n, suffixes);
      RebuiltLast(root, dirs[1..], k, n, suffixes);
    }
  }

  lemma {:induction false} RebuiltTop(root: map<string, Node>, dirs: seq<Path>, k: Name, suffixes: seq<string>)
    requires k != [] && Rebuilt(root, dirs, k, suffixes).Some?
    ensures Rebuilt(root, dirs, [k[0]], suffixes).Some?
  {
    if dirs != [] && !Bind(dirs[0], Listing(root, dirs[0]), k[0], suffixes).Some? {
      RebuiltTop(root, dirs[1..], k, suffixes);
    }
  }

  /** One more directory at the end is asked last. */
  lemma {:induction false} RebuiltAppend(root: map<string, Node>, dirs: seq<Path>, d: Path, k: Name, suffixes: seq<string>)
    requires k != []
    ensures Rebuilt(root, dirs + [d], k, suffixes) ==
      if Rebuilt(root, dirs, [k[0]], suffixes).Some? then Rebuilt(root, dirs, k, suffixes)
      else Resolve(d, Listing(root, d), k, suffixes)
  {
    if dirs == [] {
      assert (dirs + [d])[1..] == [];
    } else {
      assert (dirs + [d])[1..] == dirs[1..] + [d];
      RebuiltAppend(root, dirs[1..], d, k, suffixes);
    }
  }
}
