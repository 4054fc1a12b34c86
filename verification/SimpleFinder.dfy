/** The finder that only caches directory listings and probes them. */
module SimpleFinder {
  import opened ModuleCache
  import opened ModuleTree
  import opened Wrappers

  /** Everything named __init__.py is a regular file. */
  ghost predicate InitsAreFiles(root: map<string, Node>) {
    NodeOk(Dir(root))
  }

  ghost predicate NodeOk(node: Node) {
    node.Dir? ==>
      && (INIT in node.entries ==> node.entries[INIT].File?)
      && forall n | n in node.entries :: NodeOk(node.entries[n])
  }

  lemma {:induction false} InitsBelow(root: map<string, Node>, p: Path)
    requires InitsAreFiles(root)
    ensures InitsAreFiles(Listing(root, p))
    decreases |p|
  {
    if p != [] && p[0] in root && root[p[0]].Dir? {
      assert NodeOk(root[p[0]]);
      InitsBelow(root[p[0]].entries, p[1..]);
    }
  }

  /** What find_module hands out: nothing, a loader for a module already imported, one for a location;
      an empty list of directories leaves the location undefined. */
  datatype Answer = Nothing | AlreadyImported | Loader(entry: Entry) | Undefined

  class Prober {
    const root: map<string, Node>
    const suffixes: seq<string>
    const realpath: string -> Path
    const builtins: set<string>
    /** The names in each directory listed so far. */
    var contents: map<string, set<string>>

    ghost predicate Valid()
      reads this
    {
      InitsAreFiles(root) && forall d | d in contents :: contents[d] == Listing(root, realpath(d)).Keys
    }

    constructor (root: map<string, Node>, suffixes: seq<string>, realpath: string -> Path, builtins: set<string>)
      requires InitsAreFiles(root)
      ensures Valid() && contents == map[]
      ensures this.root == root && this.suffixes == suffixes && this.realpath == realpath && this.builtins == builtins
    {
      this.root, this.suffixes, this.realpath, this.builtins := root, suffixes, realpath, builtins;
      contents := map[];
    }

    method ProcessDir(dir: string)
      requires Valid()
      modifies this
      ensures Valid() && contents.Keys == old(contents.Keys) + {dir}
    {
      contents := contents[dir := Listing(root, realpath(dir)).Keys];
    }

    /** _search: a package directory first, then the suffixes in their order. */
    method Search(name: string, dir: string) returns (r: Option<Entry>)
      requires Valid()
      modifies this
      ensures Valid() && r == Bind(realpath(dir), Listing(root, realpath(dir)), name, suffixes)
    {
      if dir !in contents {
        ProcessDir(dir);
      }
      var listing, path := contents[dir], realpath(dir);
      var there := Listing(root, path);
      InitsBelow(root, path);
      assert name in there ==> NodeOk(there[name]);
      if name in listing && there[name].Dir? && INIT in there[name].entries && there[name].entries[INIT].File? {
        return Some(Package(path + [name]));
      }
      for i := 0 to |suffixes|
        invariant !IsPackage(there, name)
        invariant FirstSuffix(there, name, suffixes, 0) == FirstSuffix(there, name, suffixes, i)
      {
        var s := name + suffixes[i];
        if s in listing && there[s].File? {
          return Some(Module(path + [s], suffixes[i]));
        }
      }
      return None;
    }

    /** The loop of find_module: the first directory that has the name. */
    method SearchAll(name: string, dirs: seq<string>) returns (r: Option<Entry>)
      requires Valid()
      modifies this
      ensures Valid() && r == Probe(root, Dirs(dirs, realpath), name, suffixes)
      ensures IsChosen(root, Dirs(dirs, realpath), name, suffixes, r)
    {
      ProbeIsChosen(root, Dirs(dirs, realpath), name, suffixes);
      hide Bind, IsChosen;
      r := None;
      ghost var all := Dirs(dirs, realpath);
      for i := 0 to |dirs|
        invariant Valid() && r == None && Probe(root, all, name, suffixes) == Probe(root, all[i..], name, suffixes)
      {
        r := Search(name, dirs[i]);
        assert all[i..][0] == realpath(dirs[i]) && all[i..][1..] == all[i+1..];
        if r.Some? {
          return;
        }
      }
    }

    /** find_module.  path is what the import machinery passes: empty for a top-level name. */
    method FindModule(fullname: string, path: seq<string>, syspath: seq<string>, imported: set<string>) returns (a: Answer)
      requires Valid()
      modifies this
      ensures Valid()
      ensures fullname in imported ==> a == AlreadyImported
      ensures fullname !in imported && fullname in builtins ==> a == Nothing
      ensures fullname !in imported && fullname !in builtins ==>
                var dirs := if path != [] then path else syspath;
                var name := if path != [] then Split(fullname)[|Split(fullname)|-1] else fullname;
                a == if dirs == [] then Undefined
                     else match Probe(root, Dirs(dirs, realpath), name, suffixes)
                       case Some(e) => Loader(e)
                       case None => Nothing
      ensures fullname !in imported && fullname !in builtins ==>
                var dirs := if path != [] then path else syspath;
                var name := if path != [] then Split(fullname)[|Split(fullname)|-1] else fullname;
                if dirs == [] then a == Undefined
                else (a == Nothing || a.Loader?) &&
                     IsChosen(root, Dirs(dirs, realpath), name, suffixes, if a.Loader? then Some(a.entry) else None)
    {
      if fullname in imported {
        return AlreadyImported;
      }
      if fullname in builtins {
        return Nothing;
      }
      var parts := Split(fullname);
      var dirs := if path != [] then path else syspath;
      var name := if path != [] then parts[|parts|-1] else fullname;
      if dirs == [] {
        return Undefined;
      }
      var r := SearchAll(name, dirs);
      return match r case Some(e) => Loader(e) case None => Nothing;
    }
  }

  /** A built cache binds pkg.sub, at any depth, to what probing the directory bound to pkg finds. */
  lemma CacheRefinesProbing(c: Cache, root: map<string, Node>, dirs: seq<Path>, k: Name, n: string, suffixes: seq<string>)
    requires Exact(c, root, dirs, suffixes) && IsName(k) && DotFree(n)
    ensures At(c, [k[0]]) == Probe(root, dirs, k[0], suffixes)
    ensures At(c, k + [n]) ==
      match At(c, k)
      case Some(Package(p)) => Probe(root, [p], n, suffixes)
      case _ => None
  {
    RebuiltIsProbe(root, dirs, k[0], suffixes);
    RebuiltLast(root, dirs, k, n, suffixes);
    assert IsName([k[0]]) && IsName(k + [n]);
    assert forall p: Path :: Probe(root, [p], n, suffixes) == Bind(p, Listing(root, p), n, suffixes);
  }
}
