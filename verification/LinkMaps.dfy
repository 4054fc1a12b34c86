/** The link map of one loaded object, and the rebuilding of its scope array after an unload. */
module LinkMaps {

  /** The l_idx value that says an object stays loaded. */
  const IDX_STILL_USED := -1

  /** An entry of l_scope: the map's own l_symbolic_searchlist, the l_searchlist of some map, or the
      terminating null pointer. */
  datatype ScopeElem = Null | Symbolic | SearchList(of: LinkMap)

  /** The entries before the terminator. */
  ghost function UpToNull(s: seq<ScopeElem>): (r: seq<ScopeElem>)
    ensures |r| <= |s| && r == s[..|r|]
    ensures |r| < |s| ==> s[|r|].Null?
    ensures forall e | e in r :: !e.Null?
  {
    if s == [] || s[0].Null? then [] else [s[0]] + UpToNull(s[1..])
  }

  lemma {:induction false} UpToNullIs(s: seq<ScopeElem>, n: nat)
    requires n < |s| && s[n].Null? && forall k | 0 <= k < n :: !s[k].Null?
    ensures UpToNull(s) == s[..n]
  {
    if n > 0 {
      UpToNullIs(s[1..], n - 1);
      assert s[..n] == [s[0]] + s[1..][..n-1];
    }
  }

  ghost predicate Gone(e: ScopeElem, dead: set<LinkMap>) {
    e.SearchList? && e.of in dead
  }

  /** The entries of s that survive, in order. */
  ghost function Kept(s: seq<ScopeElem>, dead: set<LinkMap>): (r: seq<ScopeElem>)
    ensures |r| <= |s|
  {
    if s == [] then []
    else
      var init, last := s[..|s|-1], s[|s|-1];
      Kept(init, dead) + if Gone(last, dead) then [] else [last]
  }

  ghost predicate AnyGone(s: seq<ScopeElem>, dead: set<LinkMap>) {
    exists k :: 0 <= k < |s| && Gone(s[k], dead)
  }

  lemma {:induction false} KeptMembers(s: seq<ScopeElem>, dead: set<LinkMap>)
    ensures forall e :: e in Kept(s, dead) <==> e in s && !Gone(e, dead)
    ensures |Kept(s, dead)| < |s| <==> AnyGone(s, dead)
    ensures !AnyGone(s, dead) ==> Kept(s, dead) == s
  {
    if s != [] {
      var init, last := s[..|s|-1], s[|s|-1];
      assert s == init + [last];
      KeptMembers(init, dead);
      if Gone(last, dead) {
        assert Gone(s[|s|-1], dead);
      } else if AnyGone(init, dead) {
        var k :| 0 <= k < |init| && Gone(init[k], dead);
        assert Gone(s[k], dead);
      }
    }
  }

  lemma {:induction false} RebuiltMembers(s: seq<ScopeElem>, dead: set<LinkMap>, own: seq<ScopeElem>)
    ensures |RebuiltScope(s, dead, own)| == |Kept(s, dead)| + if AnyGone(s, dead) then |own| else 0
    ensures forall e | e in RebuiltScope(s, dead, own) :: (e in s && !Gone(e, dead)) || e in own
  {
    if s != [] {
      var init, last := s[..|s|-1], s[|s|-1];
      assert s == init + [last];
      RebuiltMembers(init, dead, own);
      if Gone(last, dead) {
        assert Gone(s[|s|-1], dead);
      } else if AnyGone(init, dead) {
        var k :| 0 <= k < |init| && Gone(init[k], dead);
        assert Gone(s[k], dead);
      }
    }
  }

  /** The scope that has to result from the copying pass: the kept entries, with the object's own list
      (`own`, at most one entry) put where the first dead entry stood. */
  ghost function RebuiltScope(s: seq<ScopeElem>, dead: set<LinkMap>, own: seq<ScopeElem>): (r: seq<ScopeElem>)
  {
    if s == [] then []
    else
      var init, last := s[..|s|-1], s[|s|-1];
      RebuiltScope(init, dead, own)
      + if !Gone(last, dead) then [last] else if AnyGone(init, dead) then [] else own
  }

  lemma {:induction false} KeptConcat(a: seq<ScopeElem>, b: seq<ScopeElem>, dead: set<LinkMap>)
    ensures Kept(a + b, dead) == Kept(a, dead) + Kept(b, dead)
  {
    if b == [] {
      assert a + b == a;
    } else {
      KeptConcat(a, b[..|b|-1], dead);
      assert (a + b)[..|a+b|-1] == a + b[..|b|-1];
    }
  }

  /** The same, read forwards: the entries before the first dead one, then the own list, then what
      is kept of the rest. */
  lemma {:induction false} RebuiltAt(s: seq<ScopeElem>, dead: set<LinkMap>, own: seq<ScopeElem>, p: nat)
    requires p < |s| && Gone(s[p], dead) && forall k | 0 <= k < p :: !Gone(s[k], dead)
    ensures RebuiltScope(s, dead, own) == s[..p] + own + Kept(s[p+1..], dead)
  {
    var init := s[..|s|-1];
    if p == |s| - 1 {
      RebuiltUnchanged(init, dead, own);
    } else {
      RebuiltAt(init, dead, own, p);
      assert init[..p] == s[..p];
      assert Gone(init[p], dead);
      assert s[p+1..][..|s|-p-2] == init[p+1..];
    }
  }

  lemma {:induction false} RebuiltUnchanged(s: seq<ScopeElem>, dead: set<LinkMap>, own: seq<ScopeElem>)
    requires !AnyGone(s, dead)
    ensures RebuiltScope(s, dead, own) == s
  {
    if s != [] {
      var init := s[..|s|-1];
      assert s == init + [s[|s|-1]] && !Gone(s[|s|-1], dead);
      hide Gone;
      RebuiltUnchanged(init, dead, own);
    }
  }

  lemma {:induction false} RebuiltWithoutOwn(s: seq<ScopeElem>, dead: set<LinkMap>)
    ensures RebuiltScope(s, dead, []) == Kept(s, dead)
  {
    if s != [] {
      RebuiltWithoutOwn(s[..|s|-1], dead);
    }
  }

  /** One more entry, as the two passes over l_scope see it. */
  lemma ScopeStep(s: seq<ScopeElem>, dead: set<LinkMap>, own: seq<ScopeElem>, cnt: nat)
    requires cnt < |s|
    ensures Kept(s[..cnt+1], dead) == Kept(s[..cnt], dead) + if Gone(s[cnt], dead) then [] else [s[cnt]]
    ensures AnyGone(s[..cnt+1], dead) <==> AnyGone(s[..cnt], dead) || Gone(s[cnt], dead)
    ensures RebuiltScope(s[..cnt+1], dead, own) == RebuiltScope(s[..cnt], dead, own)
      + if !Gone(s[cnt], dead) then [s[cnt]] else if AnyGone(s[..cnt], dead) then [] else own
    ensures |Kept(s[..cnt+1], dead)| <= |Kept(s, dead)|
  {
    var part := s[..cnt+1];
    assert part[..cnt] == s[..cnt];
    assert Gone(s[cnt], dead) ==> Gone(part[cnt], dead);
    if AnyGone(s[..cnt], dead) {
      var k :| 0 <= k < cnt && Gone(s[..cnt][k], dead);
      assert Gone(part[k], dead);
    }
    if AnyGone(part, dead) {
      var k :| 0 <= k <= cnt && Gone(part[k], dead);
      assert k < cnt ==> Gone(s[..cnt][k], dead);
    }
    assert s == s[..cnt+1] + s[cnt+1..];
    KeptConcat(s[..cnt+1], s[cnt+1..], dead);
  }

  class LinkMap {
    // position in the namespace's list
    var next: LinkMap?
    var prev: LinkMap?
    var idx: int

    // what keeps it loaded
    var directOpencount: nat
    var dlopened: bool            // l_type is lt_loaded
    var nodelete: bool            // DF_1_NODELETE
    var initCalled: bool
    var removed: bool
    var global: bool              // entered in the main search list
    var loader: LinkMap?

    // l_initfini up to its null pointer ([] for a null l_initfini), and the second half of that array
    var initfini: seq<LinkMap>
    var depOrder: seq<LinkMap>
    var reldeps: seq<LinkMap>
    var searchlist: seq<LinkMap>  // [] for a null r_list

    var scope: array<ScopeElem>
    var scopeMax: nat
    const scopeMem: array<ScopeElem>

    /** The handles its termination functions pass to dlclose, in order. */
    const closes: seq<LinkMap>

    constructor (scopeElems: nat, closes: seq<LinkMap>)
      requires scopeElems > 0
      ensures fresh(scopeMem) && scope == scopeMem && scopeMem.Length == scopeElems
      ensures ValidScope() && Scope() == []
      ensures this.closes == closes && initfini == reldeps == depOrder == searchlist == []
      ensures next == prev == loader == null && idx == directOpencount == 0
      ensures dlopened && !nodelete && !initCalled && !removed && !global
    {
      var mem := new ScopeElem[scopeElems](_ => Null);
      this.closes := closes;
      scope, scopeMem, scopeMax := mem, mem, scopeElems;
      initfini, depOrder, reldeps, searchlist := [], [], [], [];
      next, prev, loader := null, null, null;
      idx, directOpencount := 0, 0;
      dlopened, nodelete, initCalled, removed, global := true, false, false, false, false;
    }

    ghost function Scope(): seq<ScopeElem>
      reads `scope, scope
    {
      UpToNull(scope[..])
    }

    ghost predicate ValidScope()
      reads `scope, `scopeMax, scope
    {
      scopeMax == scope.Length && |Scope()| < scope.Length
    }

    /** An object without a search list of its own gets one when it has dependencies. */
    ghost predicate NeedsOwnList()
      reads `searchlist, `initfini
    {
      searchlist == [] && initfini != []
    }

    ghost function OwnList(): seq<ScopeElem>
      reads `searchlist, `initfini
    {
      if NeedsOwnList() then [SearchList(this)] else []
    }

    method RebuildScope(ghost dead: set<LinkMap>)
      requires ValidScope() && |depOrder| == |initfini|
      requires forall e | e in Scope() && e.SearchList? :: e.of.idx == IDX_STILL_USED <==> e.of !in dead
      modifies `scope, `scopeMax, `searchlist, scopeMem
      ensures ValidScope()
      ensures Scope() == RebuiltScope(old(Scope()), dead, old(OwnList()))
      ensures searchlist == if old(NeedsOwnList()) then depOrder else old(searchlist)
      ensures !AnyGone(old(Scope()), dead) ==> scope == old(scope) && scopeMem[..] == old(scopeMem[..])
      ensures AnyGone(old(Scope()), dead) ==>
                (if old(scope) != scopeMem && |Scope()| + 1 < scopeMem.Length then scope == scopeMem
                 else fresh(scope) && scope.Length == old(scopeMax))
    {
      ghost var before := Scope();
      var ownList := false;
      if searchlist == [] && initfini != [] {
        var cnt := 1;
        while cnt < |initfini|
          invariant 1 <= cnt <= |initfini|
        {
          cnt := cnt + 1;
        }
        searchlist := depOrder[..cnt];
        assert searchlist == depOrder;
        ownList := true;
      }
      var remain, removedAny := CountScope(ownList, dead);
      if removedAny {
        CopyScope(remain, ownList, dead);
      } else {
        RebuiltUnchanged(before, dead, if ownList then [SearchList(this)] else []);
      }
    }

    /** The counting pass: how many entries will remain, the terminator included. */
    method CountScope(ownList: bool, ghost dead: set<LinkMap>) returns (remain: nat, removedAny: bool)
      requires ValidScope()
      requires forall e | e in Scope() && e.SearchList? :: e.of.idx == IDX_STILL_USED <==> e.of !in dead
      ensures remain == (if ownList then 2 else 1) + |Kept(Scope(), dead)|
      ensures removedAny <==> AnyGone(Scope(), dead)
    {
      ghost var before := Scope();
      remain := if ownList then 2 else 1;
      removedAny := false;
      var cnt := 0;
      while !scope[cnt].Null?
        invariant 0 <= cnt <= |before|
        invariant removedAny <==> AnyGone(before[..cnt], dead)
        invariant remain == (if ownList then 2 else 1) + |Kept(before[..cnt], dead)|
        decreases scope.Length - cnt
      {
        ScopeStep(before, dead, [], cnt);
        assert scope[cnt] == before[cnt] && before[cnt] in before;
        if Dropped(scope[cnt]) {
          removedAny := true;
        } else {
          remain := remain + 1;
        }
        cnt := cnt + 1;
      }
      assert before[..cnt] == before;
    }

    /** The copying pass.  `predicted` is what the counting pass found, its terminator included. */
    method CopyScope(predicted: nat, ownList: bool, ghost dead: set<LinkMap>)
      requires ValidScope() && AnyGone(Scope(), dead)
      requires forall e | e in Scope() && e.SearchList? :: e.of.idx == IDX_STILL_USED <==> e.of !in dead
      requires predicted == (if ownList then 2 else 1) + |Kept(Scope(), dead)|
      modifies `scope, `scopeMax, scopeMem
      ensures ValidScope()
      ensures Scope() == RebuiltScope(old(Scope()), dead, if ownList then [SearchList(this)] else [])
      ensures predicted == |Scope()| + 1
      ensures if old(scope) != scopeMem && predicted < scopeMem.Length then scope == scopeMem
              else fresh(scope) && scope.Length == old(scopeMax)
    {
      ghost var before := Scope();
      ghost var own := if ownList then [SearchList(this)] else [];
      KeptMembers(before, dead);
      RebuiltMembers(before, dead, own);
      var newp: array<ScopeElem>;
      if scope != scopeMem && predicted < scopeMem.Length {
        newp := scopeMem;
      } else {
        newp := new ScopeElem[scopeMax];
      }
      var remain := CopyKept(newp, ownList, before, dead);
      forall k | 0 <= k < remain ensures !newp[..][k].Null? {
        assert newp[..][k] == newp[..remain][k] && newp[..remain][k] in newp[..remain];
      }
      UpToNullIs(newp[..], remain);
      scope := newp;
      scopeMax := newp.Length;
    }

    /** What has been copied when cnt entries have been looked at. */
    ghost predicate CopiedTo(newp: array<ScopeElem>, remain: nat, pending: bool, before: seq<ScopeElem>, cnt: nat,
                             dead: set<LinkMap>, ownList: bool)
      reads newp
    {
      && cnt <= |before| && remain <= newp.Length
      && pending == (ownList && !AnyGone(before[..cnt], dead))
      && |Kept(before[..cnt], dead)| <= |Kept(before, dead)|
      && remain == |Kept(before[..cnt], dead)| + (if ownList && !pending then 1 else 0)
      && newp[..remain] == RebuiltScope(before[..cnt], dead, if ownList then [SearchList(this)] else [])
    }

    method CopyNext(newp: array<ScopeElem>, remain: nat, elem: ScopeElem, pending: bool,
                    ghost before: seq<ScopeElem>, ghost cnt: nat, ghost dead: set<LinkMap>, ghost ownList: bool)
      returns (remain': nat, pending': bool)
      requires CopiedTo(newp, remain, pending, before, cnt, dead, ownList)
      requires cnt < |before| && elem == before[cnt] && !elem.Null?
      requires elem.SearchList? ==> (elem.of.idx == IDX_STILL_USED <==> elem.of !in dead)
      requires (if ownList then 1 else 0) + |Kept(before, dead)| < newp.Length
      modifies newp
      ensures CopiedTo(newp, remain', pending', before, cnt + 1, dead, ownList)
    {
      ScopeStep(before, dead, if ownList then [SearchList(this)] else [], cnt);
      remain', pending' := CopyElem(newp, remain, elem, pending);
    }

    method CopyKept(newp: array<ScopeElem>, ownList: bool, ghost before: seq<ScopeElem>, ghost dead: set<LinkMap>)
      returns (remain: nat)
      requires before == Scope() && |before| < scope.Length && newp != scope
      requires forall e | e in before && e.SearchList? :: e.of.idx == IDX_STILL_USED <==> e.of !in dead
      requires (if ownList then 1 else 0) + |Kept(before, dead)| < newp.Length
      modifies newp
      ensures remain < newp.Length && newp[remain].Null?
      ensures newp[..remain] == RebuiltScope(before, dead, if ownList then [SearchList(this)] else [])
    {
      var pending := ownList;
      remain := 0;
      var cnt := 0;
      assert CopiedTo(newp, remain, pending, before, cnt, dead, ownList);
      while !scope[cnt].Null?
        invariant cnt <= |before| && scope[..|before|] == before && scope[|before|].Null?
        invariant CopiedTo(newp, remain, pending, before, cnt, dead, ownList)
        decreases |before| - cnt
      {
        assert scope[cnt] == before[cnt] && before[cnt] in before;
        hide CopiedTo;
        remain, pending := CopyNext(newp, remain, scope[cnt], pending, before, cnt, dead, ownList);
        cnt := cnt + 1;
      }
      assert before[..cnt] == before;
      newp[remain] := Null;
    }

    /** One entry: kept, or dropped, or replaced by the object's own list if that is still pending. */
    method CopyElem(newp: array<ScopeElem>, n: nat, elem: ScopeElem, ownPending: bool)
      returns (remain: nat, pending: bool)
      requires !elem.Null?
      requires n + (if ownPending || !Dropped(elem) then 1 else 0) <= newp.Length
      modifies newp
      ensures pending == (ownPending && !Dropped(elem)) && remain <= newp.Length
      ensures newp[..remain] == old(newp[..n]) +
                if !Dropped(elem) then [elem] else if ownPending then [SearchList(this)] else []
    {
      remain, pending := n, ownPending;
      if Dropped(elem) {
        if pending {
          newp[remain] := SearchList(this);
          remain := remain + 1;
          pending := false;
        }
      } else {
        newp[remain] := elem;
        remain := remain + 1;
      }
    }
  }

  /** An entry for the list of a map that is not marked as still used. */
  predicate Dropped(e: ScopeElem)
    requires !e.Null?
    reads if e.SearchList? then {e.of} else {}
  {
    e.SearchList? && e.of.idx != IDX_STILL_USED
  }

  /** l_removed is set exactly on the dead ones. */
  ghost predicate RemovedAre(s: set<LinkMap>, dead: set<LinkMap>)
    reads s`removed
  {
    forall m | m in s :: m.removed <==> m in dead
  }
}
