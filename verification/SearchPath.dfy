/** Library search paths: the table of directories that search paths share. */
module SearchPath {
  import opened Wrappers

  datatype DirStatus = Unknown | NonExisting | Existing

  // ---------- the entries of a path string ----------

  /** The pieces of a string between separators: one more than there are separators. */
  function Pieces(s: string, sep: set<char>): (r: seq<string>)
    ensures r != []
  {
    if s == "" then [""]
    else
      var rest := Pieces(s[1..], sep);
      if s[0] in sep then [""] + rest else [[s[0]] + rest[0]] + rest[1..]
  }

  function Separators(s: string, sep: set<char>): nat {
    if s == "" then 0 else (if s[0] in sep then 1 else 0) + Separators(s[1..], sep)
  }

  lemma {:induction false} PiecesCount(s: string, sep: set<char>)
    ensures |Pieces(s, sep)| == Separators(s, sep) + 1
  {
    if s != "" {
      PiecesCount(s[1..], sep);
    }
  }

  /** Where the first separator is, or |s|. */
  function FirstSeparator(s: string, sep: set<char>): (i: nat)
    ensures i <= |s| && (i < |s| ==> s[i] in sep)
    ensures forall k | 0 <= k < i :: s[k] !in sep
  {
    if s == "" || s[0] in sep then 0 else 1 + FirstSeparator(s[1..], sep)
  }

  /** One step of strsep. */
  lemma {:induction false} PiecesStep(s: string, sep: set<char>)
    ensures var i := FirstSeparator(s, sep);
      Pieces(s, sep) == [s[..i]] + if i < |s| then Pieces(s[i+1..], sep) else []
  {
    if s != "" && s[0] !in sep {
      PiecesStep(s[1..], sep);
      var i := FirstSeparator(s, sep);
      assert s[..i] == [s[0]] + s[1..][..i-1];
      if i < |s| {
        assert s[i+1..] == s[1..][i..];
      }
    }
  }

  /** The string without its trailing slashes. */
  function Stem(s: string): (r: string)
    ensures |r| <= |s| && r == s[..|r|] && (r != "" ==> r[|r|-1] != '/')
    ensures forall i | |r| <= i < |s| :: s[i] == '/'
  {
    if s == "" || s[|s|-1] != '/' then s else Stem(s[..|s|-1])
  }

  /** The name under which an entry is stored: nothing for an empty entry, else exactly one slash in
      place of any trailing run. */
  function Canon(entry: string): (r: string)
    ensures r == "" <==> entry == ""
    ensures r != "" ==> r[|r|-1] == '/' && (|r| > 1 ==> r[|r|-2] != '/')
    ensures r != "" ==> |r| - 1 <= |entry| && r[..|r|-1] == entry[..|r|-1] && forall i | |r| - 1 <= i < |entry| :: entry[i] == '/'
  {
    if entry == "" then "" else Stem(entry) + "/"
  }

  lemma StemOfSlash(a: string)
    ensures Stem(a + "/") == Stem(a)
  {
    assert (a + "/")[..|a|] == a;
  }

  /** Entries share a directory exactly when they differ in trailing slashes only. */
  lemma CanonIff(a: string, b: string)
    requires a != "" && b != ""
    ensures Canon(a) == Canon(b) <==> Stem(a) == Stem(b)
    ensures Canon(Canon(a)) == Canon(a) == Canon(a + "/")
  {
    if Canon(a) == Canon(b) {
      assert Stem(a) == Canon(a)[..|Canon(a)|-1] == Canon(b)[..|Canon(b)|-1] == Stem(b);
    }
    StemOfSlash(a);
    StemOfSlash(Stem(a));
    StemOfStem(a);
    hide Stem;
  }

  lemma StemOfStem(a: string)
    ensures Stem(Stem(a)) == Stem(a)
  {
  }

  /** In a program that must not trust its environment only the listed directories count, and they must be
      named from the root. */
  predicate Trusted(entry: string, trusted: Option<seq<string>>) {
    trusted.Some? ==> entry != "" && entry[0] == '/' && Canon(entry) in trusted.value
  }

  function Wanted(pieces: seq<string>, trusted: Option<seq<string>>): seq<string> {
    if pieces == [] then []
    else
      var init, last := pieces[..|pieces|-1], pieces[|pieces|-1];
      Wanted(init, trusted) + if Trusted(last, trusted) then [Canon(last)] else []
  }

  lemma WantedStep(pieces: seq<string>, piece: string, trusted: Option<seq<string>>)
    ensures Wanted(pieces + [piece], trusted) ==
      if Trusted(piece, trusted) then Wanted(pieces, trusted) + [Canon(piece)] else Wanted(pieces, trusted)
  {
    assert (pieces + [piece])[..|pieces|] == pieces;
  }

  /** Which names are wanted: that of every piece, or, of the pieces that are named from the root, those on the
      list that is given. */
  ghost predicate IsWanted(n: string, pieces: seq<string>, trusted: Option<seq<string>>) {
    exists p | p in pieces ::
      Canon(p) == n && (trusted == None || (p != "" && p[0] == '/' && n in trusted.value))
  }

  lemma {:induction false} WantedAre(pieces: seq<string>, trusted: Option<seq<string>>)
    ensures forall n :: n in Wanted(pieces, trusted) <==> IsWanted(n, pieces, trusted)
  {
    if pieces != [] {
      var init, last := pieces[..|pieces|-1], pieces[|pieces|-1];
      assert pieces == init + [last];
      WantedAre(init, trusted);
      forall n ensures n in Wanted(pieces, trusted) <==> IsWanted(n, pieces, trusted) {
        if IsWanted(n, init, trusted) {
          var p :| p in init && Canon(p) == n && (trusted == None || (p != "" && p[0] == '/' && n in trusted.value));
          assert p in pieces;
        }
        if Trusted(last, trusted) && n == Canon(last) {
          assert last in pieces;
        }
      }
    }
  }

  /** With a list, only names on it that begin at the root are wanted. */
  lemma OnlyListedAreWanted(pieces: seq<string>, list: seq<string>)
    ensures forall n | n in Wanted(pieces, Some(list)) :: n in list && n != "" && n[0] == '/'
  {
    WantedAre(pieces, Some(list));
    forall n | n in Wanted(pieces, Some(list)) ensures n in list && n != "" && n[0] == '/' {
      var p :| p in pieces && Canon(p) == n && p != "" && p[0] == '/' && n in list;
      assert |n| > 1 ==> n[..|n|-1][0] == p[..|n|-1][0];
    }
  }

  /** Each name once, where it first occurs. */
  function Once(names: seq<string>): (r: seq<string>)
    ensures |r| <= |names| && forall n :: n in r <==> n in names
  {
    if names == [] then []
    else
      var init, last := names[..|names|-1], names[|names|-1];
      assert names == init + [last];
      if last in Once(init) then Once(init) else Once(init) + [last]
  }

  lemma NothingWanted(trusted: Option<seq<string>>)
    ensures Once(Wanted([], trusted)) == []
  {
  }

  lemma {:induction false} OnceHasNoDup(names: seq<string>)
    ensures forall i, j | 0 <= i < j < |Once(names)| :: Once(names)[i] != Once(names)[j]
  {
    if names != [] {
      OnceHasNoDup(names[..|names|-1]);
    }
  }

  /** The names come in the order of their first occurrences. */
  lemma {:induction false} OnceInOrder(names: seq<string>)
    ensures forall i, j | 0 <= i < j < |Once(names)| :: FirstOf(names, Once(names)[i]) < FirstOf(names, Once(names)[j])
  {
    if names != [] {
      var init, last := names[..|names|-1], names[|names|-1];
      assert names == init + [last];
      OnceInOrder(init);
      forall n | n in init ensures FirstOf(names, n) == FirstOf(init, n) < |init| {
        FirstStays(init, last, n);
      }
      if last !in Once(init) {
        FirstStays(init, last, last);
      }
    }
  }

  /** The index of the first occurrence, or |names|. */
  function FirstOf(names: seq<string>, n: string): (i: nat)
    ensures i <= |names| && (i < |names| <==> n in names)
  {
    if names == [] || names[0] == n then 0 else 1 + FirstOf(names[1..], n)
  }

  lemma {:induction false} FirstStays(names: seq<string>, last: string, n: string)
    ensures n in names ==> FirstOf(names + [last], n) == FirstOf(names, n)
    ensures n !in names ==> FirstOf(names + [last], n) == if n == last then |names| else |names| + 1
  {
    if names != [] {
      assert (names + [last])[1..] == names[1..] + [last];
      FirstStays(names[1..], last, n);
    } else {
      assert names + [last] == [last];
    }
  }

  lemma {:induction false} WantedCount(pieces: seq<string>, trusted: Option<seq<string>>)
    ensures |Wanted(pieces, trusted)| <= |pieces|
  {
    if pieces != [] {
      WantedCount(pieces[..|pieces|-1], trusted);
    }
  }

  /** A path has at most one directory more than the string has separators. */
  lemma AtMostSeparatorsPlusOne(rpath: string, sep: set<char>, trusted: Option<seq<string>>)
    ensures |Once(Wanted(Pieces(rpath, sep), trusted))| <= Separators(rpath, sep) + 1
  {
    PiecesCount(rpath, sep);
    WantedCount(Pieces(rpath, sep), trusted);
  }

  // ---------- the table of directories ----------

  /** struct r_search_path_elem: one status per capability string. */
  class PathElem {
    const dirname: string
    var status: seq<DirStatus>

    constructor (dirname: string, n: nat, init: DirStatus)
      ensures this.dirname == dirname && |status| == n && forall i | 0 <= i < n :: status[i] == init
    {
      this.dirname, status := dirname, seq(n, _ => init);
    }
  }

  function Names(s: seq<PathElem>): (r: seq<string>)
    ensures |r| == |s| && forall i | 0 <= i < |r| :: r[i] == s[i].dirname
  {
    seq(|s|, i requires 0 <= i < |s| => s[i].dirname)
  }

  /** No two elements have the same name. */
  ghost predicate Interned(s: seq<PathElem>) {
    forall i, j | 0 <= i < j < |s| :: s[i].dirname != s[j].dirname
  }

  lemma OneOfEachName(s: seq<PathElem>, d: PathElem, e: PathElem)
    requires Interned(s) && d in s && e in s && d.dirname == e.dirname
    ensures d == e
  {
  }

  /** `more` is `s` with further elements in front of it. */
  ghost predicate Extends(more: seq<PathElem>, s: seq<PathElem>) {
    |more| >= |s| && more[|more|-|s|..] == s
  }

  class PathTable {
    const capabilities: nat
    /** dl_all_dirs, newest first. */
    var allDirs: seq<PathElem>

    constructor (capabilities: nat)
      ensures this.capabilities == capabilities && allDirs == []
    {
      this.capabilities, allDirs := capabilities, [];
    }

    /** The element with this name, which is entered if there is none; a relative name is never held to be missing. */
    method Intern(name: string) returns (e: PathElem)
      requires Interned(allDirs)
      modifies this
      ensures Interned(allDirs) && e in allDirs && e.dirname == name
      ensures if exists d :: d in old(allDirs) && d.dirname == name then allDirs == old(allDirs)
              else fresh(e) && allDirs == [e] + old(allDirs) && |e.status| == capabilities
                   && forall i | 0 <= i < |e.status| :: e.status[i] == if name != "" && name[0] == '/' then Unknown else Existing
    {
      var i := 0;
      while i < |allDirs| && allDirs[i].dirname != name
        invariant 0 <= i <= |allDirs| && forall k | 0 <= k < i :: allDirs[k].dirname != name
      {
        i := i + 1;
      }
      if i < |allDirs| {
        return allDirs[i];
      }
      e := new PathElem(name, capabilities, if name != "" && name[0] == '/' then Unknown else Existing);
      allDirs := [e] + allDirs;
    }

    /** fillin_rpath. */
    method FillinRpath(rpath: string, sep: set<char>, trusted: Option<seq<string>>) returns (result: seq<PathElem>)
      requires Interned(allDirs)
      modifies this
      ensures Interned(allDirs) && Extends(allDirs, old(allDirs))
      ensures (forall e | e in result :: e in allDirs)
      ensures Names(result) == Once(Wanted(Pieces(rpath, sep), trusted))
      ensures forall n :: n in Names(result) <==> IsWanted(n, Pieces(rpath, sep), trusted)
      ensures trusted.Some? ==> forall n | n in Names(result) :: n in trusted.value && n != "" && n[0] == '/'
      ensures forall e | e in allDirs && e !in old(allDirs) :: fresh(e) && e in result
    {
      hide Pieces, Wanted, Once, Canon, Trusted, Interned, FirstSeparator, IsWanted;
      WantedAre(Pieces(rpath, sep), trusted);
      if trusted.Some? {
        OnlyListedAreWanted(Pieces(rpath, sep), trusted.value);
      }
      result := [];
      ghost var pieces, done := Pieces(rpath, sep), [];
      NothingWanted(trusted);
      var rest := Some(rpath);
      while rest.Some?
        invariant Interned(allDirs) && Extends(allDirs, old(allDirs)) && forall e | e in result :: e in allDirs
        invariant forall e | e in allDirs && e !in old(allDirs) :: fresh(e) && e in result
        invariant pieces == done + if rest.Some? then Pieces(rest.value, sep) else []
        invariant Names(result) == Once(Wanted(done, trusted))
        decreases if rest.Some? then |rest.value| + 1 else 0
      {
        var i := FirstSeparator(rest.value, sep);
        PiecesStep(rest.value, sep);
        var cp := rest.value[..i];
        rest := if i < |rest.value| then Some(rest.value[i+1..]) else None;
        ghost var before := done;
        done := done + [cp];
        WantedStep(before, cp, trusted);
        if Trusted(cp, trusted) {
          result := AddOnce(Canon(cp), result, Wanted(before, trusted));
        }
      }
      assert done + [] == done;
    }

    /** Puts the directory in the result unless it is there. */
    method AddOnce(name: string, list: seq<PathElem>, ghost names: seq<string>) returns (result: seq<PathElem>)
      requires Interned(allDirs) && (forall e | e in list :: e in allDirs) && Names(list) == Once(names)
      modifies this
      ensures Interned(allDirs) && Extends(allDirs, old(allDirs)) && forall e | e in result :: e in allDirs
      ensures Names(result) == Once(names + [name])
      ensures list <= result
      ensures forall e | e in allDirs && e !in old(allDirs) :: fresh(e) && e in result
    {
      var dirp := Intern(name);
      assert (names + [name])[..|names|] == names;
      var cnt := 0;
      while cnt < |list| && list[cnt] != dirp
        invariant 0 <= cnt <= |list| && forall k | 0 <= k < cnt :: list[k] != dirp
      {
        cnt := cnt + 1;
      }
      if cnt == |list| {
        forall k | 0 <= k < |list| && list[k].dirname == name ensures false {
          OneOfEachName(allDirs, list[k], dirp);
        }
        result := list + [dirp];
        assert Names(result) == Names(list) + [name];
      } else {
        assert Names(list)[cnt] == name;
        result := list;
      }
    }
  }
}
