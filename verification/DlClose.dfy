/** Closing a shared object: collection of the objects of one namespace that nothing uses any more. */
module DlClose {
  import opened CloseTheory
  import opened DlCloseMark
  import opened DlCloseState
  import opened DlCloseSteps
  import opened Filtering
  import opened LinkMaps
  import opened Reachability
  import opened SearchLists

  datatype CloseResult = Done | NotOpen

  class Namespace {
    var loaded: LinkMap?
    var nloaded: nat
    var searchList: SearchListStruct
    var closeState: CloseState

    /** The objects of the list that starts at `loaded`, in order. */
    ghost var Maps: seq<LinkMap>
    /** Every object ever loaded; those no longer in Maps have been unloaded. */
    ghost var Ever: set<LinkMap>
    /** Whose scope arrays are which. */
    ghost var Owner: Owners

    /** Takes over what start-up and dlopen have built: the list that starts at head, the main search
        list, and every object there is. */
    constructor (head: LinkMap?, list: SearchListStruct,
                 ghost maps: seq<LinkMap>, n: nat, ghost ever: set<LinkMap>, ghost owner: Owners)
      requires n == |maps| && LinkedAs(maps) && head == (if maps == [] then null else maps[0])
      requires list.Valid() && Elems(maps) <= ever && ValidState(StateOf(ever), maps, list.Entries(), owner)
      ensures Valid() && closeState == NotPending && Maps == maps && searchList == list && Ever == ever
    {
      hide ValidState, NoDup;
      loaded, nloaded, searchList, closeState := head, n, list, NotPending;
      Maps, Ever, Owner := maps, ever, owner;
      new;
      assert LinkedAs(maps);
      assert Linked();
      assert list.Valid() && list.Entries() == old(list.Entries());
      assert StateOf(ever) == old(StateOf(ever));
    }

    /** dlclose called by a termination function, while a collection is in progress. */
    method CloseFromDestructor(m: LinkMap) returns (r: CloseResult)
      requires closeState != NotPending
      modifies `closeState, (if m.directOpencount > 0 then {m} else {})`directOpencount
      ensures m.directOpencount == CountLeft(m.nodelete, old(m.directOpencount), 1)
      ensures closeState == if old(IsRoot(m)) && !IsRoot(m) then Rerun else old(closeState)
      ensures r.NotOpen? <==> !m.nodelete && old(m.directOpencount) == 0
    {
      if m.nodelete {
        return Done;
      }
      if m.directOpencount == 0 {
        return NotOpen;
      }
      var collect := DropReference(m);
      assert !collect;
      return Done;
    }

    /** The head of _dl_close_worker: one less direct use.  Says whether the caller has to collect. */
    method DropReference(m: LinkMap) returns (collect: bool)
      requires m.directOpencount > 0 && !m.nodelete
      modifies `closeState, m`directOpencount
      ensures m.directOpencount == old(m.directOpencount) - 1
      ensures collect <==> old(closeState) == NotPending && !IsRoot(m)
      ensures closeState == if old(closeState) != NotPending && !IsRoot(m) then Rerun else old(closeState)
    {
      m.directOpencount := m.directOpencount - 1;
      if m.directOpencount > 0 || !m.dlopened || closeState != NotPending {
        if m.directOpencount == 0 && m.dlopened && closeState != NotPending {
          closeState := Rerun;
        }
        return false;
      }
      return true;
    }

    /** The same close, seen over a set that holds every object it can count down. */
    method CloseWithin(c: LinkMap, ghost s: set<LinkMap>)
      requires closeState != NotPending
      requires c in s || c.directOpencount == 0
      modifies `closeState, s`directOpencount
      ensures forall x | x in s :: x.directOpencount ==
                CountLeft(x.nodelete, old(x.directOpencount), if x == c then 1 else 0)
      ensures RootsOf(s) <= old(RootsOf(s))
      ensures closeState == if RootsOf(s) == old(RootsOf(s)) then old(closeState) else Rerun
    {
      ghost var before := RootsOf(s);
      var _ := CloseFromDestructor(c);
      assert forall x | x in s && x != c :: x in before <==> x in RootsOf(s);
      assert c in s && old(IsRoot(c)) && !IsRoot(c) ==> c in before && c !in RootsOf(s);
    }

    /** The counts of s after the closes of `had`, if they were `count` before. */
    ghost predicate CountedDown(s: set<LinkMap>, count: map<LinkMap, nat>, had: multiset<LinkMap>)
      reads s`directOpencount, s`nodelete
    {
      count.Keys == s && forall x | x in s :: x.directOpencount == CountLeft(x.nodelete, count[x], had[x])
    }

    /** One more close. */
    method CloseCounted(c: LinkMap, ghost s: set<LinkMap>, ghost count: map<LinkMap, nat>, ghost had: multiset<LinkMap>)
      requires closeState != NotPending && CountedDown(s, count, had)
      requires c in s || c.directOpencount == 0
      modifies `closeState, s`directOpencount
      ensures CountedDown(s, count, had + multiset{c})
      ensures RootsOf(s) <= old(RootsOf(s))
      ensures closeState == if RootsOf(s) == old(RootsOf(s)) then old(closeState) else Rerun
    {
      hide RootsOf;
      CloseWithin(c, s);
    }

    /** The termination functions of one object. */
    method RunFinalizers(m: LinkMap, ghost s: set<LinkMap>)
      requires closeState != NotPending
      requires forall c | c in m.closes :: c in s || c.directOpencount == 0
      modifies `closeState, s`directOpencount
      ensures forall x | x in s :: x.directOpencount ==
                CountLeft(x.nodelete, old(x.directOpencount), multiset(m.closes)[x])
      ensures RootsOf(s) <= old(RootsOf(s))
      ensures closeState == if RootsOf(s) == old(RootsOf(s)) then old(closeState) else Rerun
    {
      ghost var count := map x | x in s :: x.directOpencount;
      ghost var roots := RootsOf(s);
      assert CountedDown(s, count, multiset(m.closes[..0]));
      hide RootsOf, CountedDown, CountLeft;
      for k := 0 to |m.closes|
        invariant closeState != NotPending && CountedDown(s, count, multiset(m.closes[..k]))
        invariant RootsOf(s) <= roots && closeState == if RootsOf(s) == roots then old(closeState) else Rerun
      {
        assert m.closes[k] in m.closes && m.closes[..k+1] == m.closes[..k] + [m.closes[k]];
        CloseCounted(m.closes[k], s, count, multiset(m.closes[..k]));
      }
      CountsAreDown(s, count, m.closes);
    }

    lemma CountsAreDown(s: set<LinkMap>, count: map<LinkMap, nat>, closes: seq<LinkMap>)
      requires CountedDown(s, count, multiset(closes[..|closes|]))
      ensures count.Keys == s && forall x | x in s :: x.directOpencount == CountLeft(x.nodelete, count[x], multiset(closes)[x])
    {
      assert closes[..|closes|] == closes;
    }

    // ----- the list of loaded objects -----

    ghost predicate Linked()
      reads `loaded, `nloaded, `Maps, Elems(Maps)`next, Elems(Maps)`prev
    {
      nloaded == |Maps| && loaded == (if Maps == [] then null else Maps[0]) && LinkedAs(Maps)
    }

    /** The first n maps of the list have been entered. */
    ghost predicate Entered(maps: array<LinkMap>, pos: map<LinkMap, nat>, n: nat)
      reads `Maps, maps, pos.Keys`idx
    {
      && n <= |Maps| == maps.Length && pos.Keys == Elems(Maps[..n])
      && (forall k | 0 <= k < n :: maps[k] == Maps[k] && pos[Maps[k]] == k)
      && forall m | m in pos :: m.idx == pos[m]
    }

    /** Enters the map l, which is the next one, and follows its link. */
    method Enter(maps: array<LinkMap>, l: LinkMap, idx: nat, ghost pos: map<LinkMap, nat>)
      returns (l': LinkMap?, ghost pos': map<LinkMap, nat>)
      requires Linked() && Entered(maps, pos, idx) && idx < |Maps| && l == Maps[idx]
      modifies maps, l`idx
      ensures Entered(maps, pos', idx + 1) && l' == if idx + 1 < |Maps| then Maps[idx+1] else null
    {
      assert l !in pos;
      assert Maps[..idx+1] == Maps[..idx] + [l];
      assert idx + 1 < |Maps| ==> Maps[idx].next == Maps[idx+1];
      l.idx := idx;
      maps[idx] := l;
      pos' := pos[l := idx];
      l' := l.next;
    }

    lemma AllEntered(maps: array<LinkMap>, pos: map<LinkMap, nat>)
      requires Entered(maps, pos, |Maps|)
      ensures maps[..] == Maps && Indexed(maps, pos) && pos.Keys == Elems(Maps) && IdxFollows(pos, {})
    {
      assert Maps[..|Maps|] == Maps;
      assert maps[..] == Maps;
    }

    /** Walks the list, numbers the maps and enters them in an array. */
    method AssignIndexes() returns (maps: array<LinkMap>, ghost pos: map<LinkMap, nat>)
      requires Linked() && Maps != []
      modifies Elems(Maps)`idx
      ensures fresh(maps) && maps[..] == Maps
      ensures Indexed(maps, pos) && pos.Keys == Elems(Maps) && IdxFollows(pos, {})
    {
      var head: LinkMap := loaded;
      maps := new LinkMap[nloaded](_ => head);
      var idx := 0;
      var l: LinkMap? := head;
      pos := map[];
      while l != null
        invariant Linked() && idx <= |Maps| && l == (if idx < |Maps| then Maps[idx] else null)
        invariant Entered(maps, pos, idx)
        decreases |Maps| - idx
      {
        hide *;
        l, pos := Enter(maps, l, idx, pos);
        idx := idx + 1;
      }
      AllEntered(maps, pos);
    }

    method Unlink(m: LinkMap)
      requires Linked() && m in Maps
      modifies `loaded, `nloaded, `Maps, Elems(Maps)`next, Elems(Maps)`prev
      ensures Linked() && Maps == Without(old(Maps), {m})
    {
      ghost var k :| 0 <= k < |Maps| && Maps[k] == m;
      ghost var was, now := Maps, Maps[..k] + Maps[k+1..];
      assert k > 0 ==> m.prev == was[k-1];
      assert k + 1 < |was| ==> m.next == was[k+1];
      if m.prev != null {
        m.prev.next := m.next;
      } else {
        loaded := m.next;
      }
      nloaded := nloaded - 1;
      if m.next != null {
        m.next.prev := m.prev;
      }
      Maps := now;
      LinkedWithout(was, k);
      WithoutOne(was, k);
    }

    // ----- the sweep -----

    /** Calls the termination functions of one unused object; not those of a half-cooked one. */
    method CallFinalizers(m: LinkMap, ghost s: set<LinkMap>)
      requires closeState != NotPending
      requires forall c | c in m.closes :: c in s || c.directOpencount == 0
      modifies `closeState, s`directOpencount
      ensures forall x | x in s :: x.directOpencount ==
                CountLeft(x.nodelete, old(x.directOpencount), multiset(if m.initCalled then m.closes else [])[x])
      ensures RootsOf(s) <= old(RootsOf(s))
      ensures closeState == if RootsOf(s) == old(RootsOf(s)) then old(closeState) else Rerun
    {
      if m.initCalled {
        RunFinalizers(m, s);
      }
    }

    /** The same, counted against the snapshot of the whole collection. */
    method FinalizeOne(m: LinkMap, ghost w: Snapshot<LinkMap>, ghost gone: set<LinkMap>)
      requires closeState != NotPending
      requires Matches(w) && CountsAfter(w, gone) && m in w.maps && m !in gone
      requires forall c | c in m.closes :: c in w.All() || c.directOpencount == 0
      modifies `closeState, w.All()`directOpencount
      ensures CountsAfter(w, gone + {m}) && RootsOf(w.All()) <= old(RootsOf(w.All()))
      ensures closeState == if RootsOf(w.All()) == old(RootsOf(w.All())) then old(closeState) else Rerun
    {
      hide RootsOf, CountAfter, Deps;
      CountsOneMore(w, gone, m);
      CallFinalizers(m, w.All());
    }

    /** Rebuilds the scope of one used object and forgets its loader when that is unloaded. */
    method RescopeOne(m: LinkMap, ghost s: set<LinkMap>, ghost dead: set<LinkMap>)
      requires m.ValidScope() && m.dlopened && |m.depOrder| == |m.initfini| && Inside(ViewOf(m), s)
      requires forall x | x in s :: x.idx == IDX_STILL_USED <==> x !in dead
      modifies m`scope, m`scopeMax, m`searchlist, m`loader, m.scopeMem
      ensures m.ValidScope() && ViewOf(m) == old(SweptView(m, ViewOf(m), dead))
      ensures m.scope == old(m.scope) || m.scope == m.scopeMem || fresh(m.scope)
    {
      hide UpToNull, RebuiltScope;
      ghost var want := SweptView(m, ViewOf(m), dead);
      m.RebuildScope(dead);
      assert m.Scope() == want.scope && m.searchlist == want.searchlist;
      if m.loader != null && m.loader.idx != IDX_STILL_USED {
        m.loader := null;
      }
      assert m.Scope() == want.scope;
    }

    /** The same, seen over the other maps: they keep their views, and no array becomes shared. */
    method RescopeWithin(m: LinkMap, ghost s: set<LinkMap>, ghost dead: set<LinkMap>, ghost owner: Owners)
      returns (ghost owner': Owners)
      requires Apart(s, owner) && m in s && (forall n | n in s :: n.ValidScope())
      requires m.dlopened && |m.depOrder| == |m.initfini| && Inside(ViewOf(m), s)
      requires forall x | x in s :: x.idx == IDX_STILL_USED <==> x !in dead
      modifies m`scope, m`scopeMax, m`searchlist, m`loader, m.scopeMem
      ensures Apart(s, owner') && forall n | n in s :: n.ValidScope()
      ensures forall n | n in s && n != m :: ViewOf(n) == old(ViewOf(n))
      ensures ViewOf(m) == old(SweptView(m, ViewOf(m), dead))
    {
      RescopeOne(m, s, dead);
      owner' := owner[m.scope := m];
      forall n | n in s && n != m ensures n.ValidScope() && ViewOf(n) == old(ViewOf(n)) {
        assert owner[n.scope] == n;
      }
    }

    /** One used object of the sweep: only objects loaded by dlopen need a look. */
    method SweepUsed(m: LinkMap, ghost s: set<LinkMap>, ghost was: map<LinkMap, View>,
                     ghost done: set<LinkMap>, ghost dead: set<LinkMap>, ghost owner: Owners)
      returns (ghost owner': Owners)
      requires was.Keys == s && SweptSoFar(s, was, done, dead) && Apart(s, owner)
      requires m in s && m !in done && m !in dead
      requires |m.depOrder| == |m.initfini| && Inside(was[m], s)
      requires forall x | x in s :: x.idx == IDX_STILL_USED <==> x !in dead
      modifies m`scope, m`scopeMax, m`searchlist, m`loader, m.scopeMem
      ensures SweptSoFar(s, was, done + {m}, dead) && Apart(s, owner')
    {
      owner' := owner;
      assert ViewOf(m) == was[m];
      if m.dlopened {
        owner' := RescopeWithin(m, s, dead, owner);
      }
    }

    /** One unused object of the sweep. */
    method SweepUnused(m: LinkMap, ghost s: set<LinkMap>, ghost was: map<LinkMap, View>,
                       ghost done: set<LinkMap>, ghost dead: set<LinkMap>,
                       ghost w: Snapshot<LinkMap>, ghost gone: set<LinkMap>)
      requires closeState != NotPending
      requires Matches(w) && CountsAfter(w, gone) && m in w.maps && m !in gone
      requires forall c | c in m.closes :: c in w.All() || c.directOpencount == 0
      requires was.Keys == s && SweptSoFar(s, was, done, dead) && m in dead
      modifies `closeState, w.All()`directOpencount, m`removed
      ensures m.removed && SweptSoFar(s, was, done + {m}, dead)
      ensures CountsAfter(w, gone + {m}) && RootsOf(w.All()) <= old(RootsOf(w.All()))
      ensures closeState == if RootsOf(w.All()) == old(RootsOf(w.All())) then old(closeState) else Rerun
    {
      hide RootsOf, CountAfter, Deps, SweptView, Matches, CountsAfter, UpToNull;
      FinalizeOne(m, w, gone);
      m.removed := true;
      forall x | x in s ensures ViewOf(x) == old(ViewOf(x)) && x.ValidScope() {
        assert x.scope[..] == old(x.scope[..]);
      }
    }

    /** A used object's step changes neither the open counts nor the roots. */
    method SweepUsedCounted(m: LinkMap, ghost s: set<LinkMap>, ghost was: map<LinkMap, View>,
                            ghost done: set<LinkMap>, ghost dead: set<LinkMap>, ghost owner: Owners,
                            ghost w: Snapshot<LinkMap>, ghost gone: set<LinkMap>)
      returns (ghost owner': Owners)
      requires was.Keys == s && SweptSoFar(s, was, done, dead) && Apart(s, owner)
      requires m in s && m !in done && m !in dead
      requires |m.depOrder| == |m.initfini| && Inside(was[m], s)
      requires forall x | x in s :: x.idx == IDX_STILL_USED <==> x !in dead
      requires Matches(w) && CountsAfter(w, gone)
      modifies m`scope, m`scopeMax, m`searchlist, m`loader, m.scopeMem
      ensures SweptSoFar(s, was, done + {m}, dead) && Apart(s, owner')
      ensures CountsAfter(w, gone) && RootsOf(w.All()) == old(RootsOf(w.All()))
    {
      hide CountAfter, SweptView, SweptSoFar, ViewOf, Apart, Matches, Deps;
      ghost var mem := m.scopeMem;
      assert forall x: LinkMap | x in w.maps :: x as object != mem as object;
      owner' := SweepUsed(m, s, was, done, dead, owner);
      assert forall x | x in w.maps :: x.directOpencount == old(x.directOpencount) && IsRoot(x) == old(IsRoot(x));
    }

    /** One step of the sweep. */
    method SweepOne(m: LinkMap, isUsed: bool, ghost s: set<LinkMap>, ghost was: map<LinkMap, View>,
                    ghost done: set<LinkMap>, ghost dead: set<LinkMap>, ghost globals: set<LinkMap>,
                    ghost w: Snapshot<LinkMap>, ghost gone: set<LinkMap>, ghost owner: Owners)
      returns (ghost owner': Owners)
      requires SweepReady(s, was, dead, globals, w, gone) && closeState != NotPending
      requires m in s && m !in done && (isUsed <==> m !in dead)
      requires SweptSoFar(s, was, done, dead) && Apart(s, owner) && RemovedAre(s, done * dead)
      requires CountsAfter(w, gone + done * dead)
      modifies `closeState, w.All()`directOpencount
      modifies m`removed, m`scope, m`scopeMax, m`searchlist, m`loader, m.scopeMem
      ensures SweepReady(s, was, dead, globals, w, gone)
      ensures SweptSoFar(s, was, done + {m}, dead) && Apart(s, owner') && RemovedAre(s, (done + {m}) * dead)
      ensures CountsAfter(w, gone + (done + {m}) * dead)
      ensures RootsOf(w.All()) <= old(RootsOf(w.All()))
      ensures closeState == if RootsOf(w.All()) == old(RootsOf(w.All())) then old(closeState) else Rerun
    {
      hide RootsOf, CountAfter, CountsAfter, Deps, SweptView, SweptSoFar, ViewOf, Apart, Matches, Inside;
      owner' := owner;
      ghost var mem := m.scopeMem;
      assert forall x: LinkMap | x in w.maps :: x as object != mem as object;
      if isUsed {
        assert (done + {m}) * dead == done * dead;
        owner' := SweepUsedCounted(m, s, was, done, dead, owner, w, gone + done * dead);
      } else {
        assert (gone + done * dead) + {m} == gone + (done + {m}) * dead;
        SweepUnused(m, s, was, done, dead, w, gone + done * dead);
      }
    }

    /** The sweep over the sorted maps, which are no longer written: termination functions of the unused
        objects, new scopes for the used ones. */
    method Sweep(maps: seq<LinkMap>, used: seq<bool>, ghost s: set<LinkMap>, ghost dead: set<LinkMap>,
                 ghost w: Snapshot<LinkMap>, ghost gone: set<LinkMap>, ghost owner: Owners)
      returns (unloadAny: bool, unloadGlobal: nat, firstLoaded: nat, ghost owner': Owners)
      requires NoDup(maps) && Elems(maps) == s && dead <= s
      requires |used| == |maps| && UsedFits(maps, used, dead) && RemovedAre(s, {})
      requires forall m | m in s :: m.idx == IDX_STILL_USED <==> m !in dead
      requires NoDangling(s) && Apart(s, owner) && closeState == Pending
      requires Matches(w) && CountsAfter(w, gone) && s <= w.All() && gone !! s
      requires forall m, c | m in s && c in m.closes :: c in w.All() || c.directOpencount == 0
      modifies `closeState, w.All()`directOpencount
      modifies s`removed, s`scope, s`scopeMax, s`searchlist, s`loader, InlineArrays(s)
      ensures SweptSoFar(s, old(Views(s)), s, dead) && Apart(s, owner')
      ensures RemovedAre(s, dead)
      ensures CountsAfter(w, gone + dead) && RootsOf(w.All()) <= old(RootsOf(w.All()))
      ensures closeState == if RootsOf(w.All()) == old(RootsOf(w.All())) then Pending else Rerun
      ensures unloadAny <==> dead != {}
      ensures unloadGlobal == |GlobalsOf(dead)|
      ensures FirstFits(maps, |maps|, dead, firstLoaded)
    {
      hide *;
      unloadAny, unloadGlobal, firstLoaded := false, 0, |maps|;
      ghost var was, done := Views(s), {};
      ghost var globals := GlobalsOf(s);
      ghost var roots := RootsOf(w.All());
      ghost var pos := Positions(maps, s);
      SweepStart(s, was, dead, w, gone);
      FirstStep(s, was, dead, pos, maps, used, globals, w, gone, roots);
      owner' := owner;
      for i := 0 to |maps|
        invariant SweepReady(s, was, dead, globals, w, gone) && was.Keys == s && w.Valid()
        invariant Reached(pos, done, i)
        invariant SweptSoFar(s, was, done, dead) && Apart(s, owner')
        invariant RemovedAre(s, done * dead)
        invariant CountsAfter(w, gone + done * dead)
        invariant closeState != NotPending && StateFits(closeState, roots, RootsOf(w.All()))
        invariant Tally(done, dead, globals, unloadAny, unloadGlobal) && FirstFits(maps, i, dead, firstLoaded)
      {
        var m := maps[i];
        AtPosition(i, m, maps, used, pos, done, s, was, dead, globals, w, gone);
        ghost var before, stateBefore := RootsOf(w.All()), closeState;
        owner' := SweepOne(m, used[i], s, was, done, dead, globals, w, gone, owner');
        StateStep(stateBefore, closeState, roots, before, RootsOf(w.All()));
        GlobalsStay(m, s, was, dead, globals, w, gone);
        ghost var noted := (unloadAny, unloadGlobal, firstLoaded);
        unloadAny := unloadAny || !used[i];
        unloadGlobal := unloadGlobal + if !used[i] && m.global then 1 else 0;
        firstLoaded := if (!used[i] || m.dlopened) && i < firstLoaded then i else firstLoaded;
        TallyStep(m, i, maps, done, dead, globals, used[i], noted, unloadAny, unloadGlobal, firstLoaded);
        done := done + {m};
      }
      SweepEnd(maps, pos, done, dead, globals, was, w, gone, unloadAny, unloadGlobal, closeState, roots);
    }

    // ----- what follows the sweep -----

    /** Takes the unloaded global objects out of the main search list, if there are any. */
    method CompactGlobal(unloadGlobal: nat, ghost s: set<LinkMap>, ghost dead: set<LinkMap>)
      requires searchList.Valid() && ListsGlobals(searchList.Entries(), s)
      requires RemovedAre(s, dead) && dead <= s && (forall m | m in dead :: m.dlopened)
      requires unloadGlobal == |GlobalsOf(dead)|
      modifies searchList`rNlist, searchList.rList
      ensures searchList.Valid() && searchList.Entries() == Without(old(searchList.Entries()), dead)
    {
      ghost var entries := searchList.Entries();
      UnloadGlobalFits(entries, s, dead);
      if unloadGlobal > 0 {
        CompactedIsFilterIff(entries, unloadGlobal, dead);
        searchList.Compact(unloadGlobal, dead);
      } else {
        FullLengthIsId(entries, dead);
      }
    }

    /** Unlinks the unused objects, from the first one on. */
    method UnlinkUnused(maps: seq<LinkMap>, used: seq<bool>, firstLoaded: nat,
                        ghost pos: map<LinkMap, nat>, ghost dead: set<LinkMap>)
      requires Linked() && IsPositions(maps, pos) && pos.Keys == Elems(Maps)
      requires |used| == |maps| && UsedFits(maps, used, dead) && FirstFits(maps, |maps|, dead, firstLoaded)
      modifies `loaded, `nloaded, `Maps, pos.Keys`next, pos.Keys`prev
      ensures Linked() && Maps == Without(old(Maps), dead)
    {
      ghost var was := Maps;
      ghost var done := set m | m in pos && pos[m] < firstLoaded;
      NoneBeforeFirst(was, maps, pos, dead, done, firstLoaded);
      hide *;
      var i := firstLoaded;
      while i < |maps|
        invariant Linked() && Maps == Without(was, done * dead) && Reached(pos, done, i)
      {
        UnlinkStep(i, was, maps, used, pos, done, dead);
        ghost var done' := done + {maps[i]};
        if !used[i] {
          StillLinked(was, done, dead, maps[i], pos);
          Unlink(maps[i]);
        }
        done := done';
        i := i + 1;
      }
      AllUnlinked(was, maps, pos, done, i, dead);
    }

    /** _dl_sort_fini is not part of this model: all that is used of it is that it permutes the maps and
        their used flags together. */
    method SortFini(maps: array<LinkMap>, used: array<bool>, ghost live: set<LinkMap>)
      requires NoDup(maps[..]) && Tracks(used, maps, live)
      modifies maps, used
      ensures NoDup(maps[..]) && Elems(maps[..]) == old(Elems(maps[..])) && Tracks(used, maps, live)
    {
      var swaps: nat := *;
      while swaps > 0 && maps.Length > 0
        invariant NoDup(maps[..]) && Elems(maps[..]) == old(Elems(maps[..])) && Tracks(used, maps, live)
        decreases swaps
      {
        var i: nat, j: nat :| i < maps.Length && j < maps.Length;
        SwapKeepsElems(maps[..], i, j);
        maps[i], maps[j] := maps[j], maps[i];
        used[i], used[j] := used[j], used[i];
        swaps := swaps - 1;
      }
    }

    // ----- one pass -----

    /** Numbers the maps and marks the used ones. */
    method MarkAll() returns (maps: array<LinkMap>, used: array<bool>)
      requires Linked() && Maps != [] && Closed(DepGraph(Elems(Maps)), Elems(Maps))
      modifies Elems(Maps)`idx
      ensures fresh(maps) && fresh(used) && maps[..] == Maps
      ensures Tracks(used, maps, old(Reach(DepGraph(Elems(Maps)), RootsOf(Elems(Maps)))))
      ensures forall m | m in Elems(Maps) ::
                m.idx == IDX_STILL_USED <==> m in old(Reach(DepGraph(Elems(Maps)), RootsOf(Elems(Maps))))
    {
      hide Reach, DepGraph, RootsOf, LinkedAs, NoDup, IdxFollows, Indexed, Tracks, Closed;
      ghost var pos;
      maps, pos := AssignIndexes();
      used := MarkIndexed(maps, pos);
    }

    method MarkIndexed(maps: array<LinkMap>, ghost pos: map<LinkMap, nat>) returns (used: array<bool>)
      requires Indexed(maps, pos) && IdxFollows(pos, {}) && Closed(DepGraph(pos.Keys), pos.Keys)
      modifies pos.Keys`idx
      ensures fresh(used) && Tracks(used, maps, old(Reach(DepGraph(pos.Keys), RootsOf(pos.Keys))))
      ensures forall m | m in pos ::
                m.idx == IDX_STILL_USED <==> m in old(Reach(DepGraph(pos.Keys), RootsOf(pos.Keys)))
    {
      hide Reach, DepGraph, RootsOf, IdxFollows, Indexed, Closed;
      used := new bool[maps.Length](_ => false);
      var done := new bool[maps.Length](_ => false);
      MarkUsed(maps, used, done, pos);
    }

    /** The same, and then sorts. */
    method MarkAndSort() returns (maps: seq<LinkMap>, used: seq<bool>, ghost dead: set<LinkMap>)
      requires Linked() && Maps != [] && Closed(DepGraph(Elems(Maps)), Elems(Maps))
      modifies Elems(Maps)`idx
      ensures NoDup(maps) && Elems(maps) == Elems(Maps) && |used| == |maps| && UsedFits(maps, used, dead)
      ensures dead == Elems(Maps) - old(Reach(DepGraph(Elems(Maps)), RootsOf(Elems(Maps))))
      ensures forall m | m in Elems(Maps) :: m.idx == IDX_STILL_USED <==> m !in dead
    {
      hide Reach, DepGraph, RootsOf, LinkedAs, NoDup;
      ghost var live := Reach(DepGraph(Elems(Maps)), RootsOf(Elems(Maps)));
      ListHasNoDup(Maps);
      var mapsArray, usedArray := MarkAll();
      SortFini(mapsArray, usedArray, live);
      maps, used := mapsArray[..], usedArray[..];
      dead := Elems(Maps) - live;
      MembersAt(maps);
    }

    // ----- one pass, in terms of the state of all objects -----

    ghost predicate ListsAre(maps: seq<LinkMap>, entries: seq<LinkMap>)
      reads `loaded, `nloaded, `Maps, Elems(Maps)`next, Elems(Maps)`prev
      reads `searchList, searchList`rList, searchList`rNlist, searchList.rList
    {
      && Linked() && Maps == maps
      && searchList.Valid() && searchList.Entries() == entries
    }

    method MarkPhase(ghost e: set<LinkMap>, ghost entries: seq<LinkMap>)
      returns (maps: seq<LinkMap>, used: seq<bool>, ghost dead: set<LinkMap>)
      requires ListsAre(Maps, entries) && Maps != [] && Elems(Maps) <= e
      requires Closed(DepGraph(Elems(Maps)), Elems(Maps))
      modifies Elems(Maps)`idx
      ensures StateOf(e) == old(StateOf(e)) && ListsAre(Maps, entries)
      ensures NoDup(maps) && Elems(maps) == Elems(Maps) && |used| == |maps| && UsedFits(maps, used, dead)
      ensures dead == Elems(Maps) - old(Reach(DepGraph(Elems(Maps)), RootsOf(Elems(Maps))))
      ensures forall m | m in Elems(Maps) :: m.idx == IDX_STILL_USED <==> m !in dead
    {
      hide Reach, DepGraph, RootsOf, UsedFits, NoDup, UpToNull;
      assert forall x | x in Elems(Maps) :: searchList.rList as object != x as object;
      ghost var st := StateOf(e);
      maps, used, dead := MarkAndSort();
      forall m | m in e ensures ObjOf(m) == st[m] {
        assert m.scope[..] == old(m.scope[..]);
      }
    }

    /** The sweep leaves the lists alone. */
    method SweepKeepingLists(maps: seq<LinkMap>, used: seq<bool>, ghost entries: seq<LinkMap>, ghost s: set<LinkMap>,
                             ghost dead: set<LinkMap>, ghost w: Snapshot<LinkMap>, ghost gone: set<LinkMap>, ghost owner: Owners)
      returns (unloadAny: bool, unloadGlobal: nat, firstLoaded: nat, ghost owner': Owners)
      requires ListsAre(Maps, entries) && closeState == Pending && s == Elems(Maps)
      requires NoDup(maps) && Elems(maps) == s && |used| == |maps| && UsedFits(maps, used, dead)
      requires forall m | m in s :: m.idx == IDX_STILL_USED <==> m !in dead
      requires NoDangling(s) && Apart(s, owner) && RemovedAre(s, {}) && Matches(w) && CountsAfter(w, gone)
      requires forall m, c | m in s && c in m.closes :: c in w.All() || c.directOpencount == 0
      requires dead <= s && s <= w.All() && gone !! s
      modifies `closeState, w.All()`directOpencount
      modifies s`removed, s`scope, s`scopeMax, s`searchlist, s`loader, InlineArrays(s)
      ensures ListsAre(Maps, entries) && Maps == old(Maps)
      ensures SweptSoFar(s, old(Views(s)), s, dead) && Apart(s, owner') && RemovedAre(s, dead)
      ensures CountsAfter(w, gone + dead) && RootsOf(w.All()) <= old(RootsOf(w.All()))
      ensures closeState == if RootsOf(w.All()) == old(RootsOf(w.All())) then Pending else Rerun
      ensures unloadAny <==> dead != {}
      ensures unloadGlobal == |GlobalsOf(dead)|
      ensures FirstFits(maps, |maps|, dead, firstLoaded)
    {
      hide NoDangling, Apart, RemovedAre, Matches, CountsAfter, SweptSoFar, RootsOf, Views, GlobalsOf, FirstFits, UsedFits;
      assert forall x, m | x in s && m in s :: x as object != m.scopeMem as object;
      assert forall m | m in s :: searchList.rList as object != m.scopeMem as object;
      assert forall m | m in s :: searchList as object != m.scopeMem as object;
      unloadAny, unloadGlobal, firstLoaded, owner' := Sweep(maps, used, s, dead, w, gone, owner);
    }

    method SweepPhase(maps: seq<LinkMap>, used: seq<bool>, ghost e: set<LinkMap>, ghost entries: seq<LinkMap>,
                      ghost dead: set<LinkMap>, ghost w: Snapshot<LinkMap>, ghost gone: set<LinkMap>, ghost owner: Owners)
      returns (unloadAny: bool, unloadGlobal: nat, firstLoaded: nat, ghost owner': Owners)
      requires ListsAre(Maps, entries) && closeState == Pending
      requires NoDup(maps) && Elems(maps) == Elems(Maps) && |used| == |maps| && UsedFits(maps, used, dead)
      requires forall m | m in Elems(Maps) :: m.idx == IDX_STILL_USED <==> m !in dead
      requires Sane(StateOf(e), Elems(Maps), owner) && Counted(StateOf(e), w, gone) && Known(StateOf(e), w)
      requires dead <= Elems(Maps) && Elems(Maps) <= w.All() && gone !! Elems(Maps)
      modifies `closeState, w.All()`directOpencount
      modifies Elems(Maps)`removed, Elems(Maps)`scope, Elems(Maps)`scopeMax, Elems(Maps)`searchlist, Elems(Maps)`loader
      modifies InlineArrays(Elems(Maps))
      ensures ListsAre(Maps, entries) && Maps == old(Maps)
      ensures SweptState(old(StateOf(e)), StateOf(e), Elems(Maps), dead, w, owner')
      ensures CountsAfter(w, gone + dead) && RootsOf(w.All()) <= old(RootsOf(w.All()))
      ensures closeState == if RootsOf(w.All()) == old(RootsOf(w.All())) then Pending else Rerun
      ensures unloadAny <==> dead != {}
      ensures unloadGlobal == |GlobalsOf(dead)|
      ensures FirstFits(maps, |maps|, dead, firstLoaded)
    {
      hide NoDangling, Apart, RemovedAre, Matches, CountsAfter, SweptSoFar, RootsOf, GlobalsOf, FirstFits, UsedFits;
      hide Views, Sane, Counted, Known, SweptState, ListsAre, StateOf, NoDup;
      ghost var s, st := Elems(Maps), StateOf(e);
      SweepNeeds(e, s, w, gone, owner);
      assert forall x, m | x in e && m in s :: x as object != m.scopeMem as object;
      unloadAny, unloadGlobal, firstLoaded, owner' := SweepKeepingLists(maps, used, entries, s, dead, w, gone, owner);
      SweptInHeap(e, st, s, dead, w, owner');
    }

    method CompactPhase(unloadGlobal: nat, ghost e: set<LinkMap>, ghost entries: seq<LinkMap>,
                        ghost s: set<LinkMap>, ghost dead: set<LinkMap>)
      requires ListsAre(Maps, entries) && ListsGlobals(entries, s) && RemovedAre(s, dead)
      requires dead <= s && (forall m | m in dead :: m.dlopened) && unloadGlobal == |GlobalsOf(dead)|
      modifies searchList`rNlist, searchList.rList
      ensures StateOf(e) == old(StateOf(e)) && ListsAre(Maps, Without(entries, dead))
    {
      hide ListsGlobals, RemovedAre, GlobalsOf, Without, UpToNull;
      ghost var st := StateOf(e);
      ghost var list := searchList.rList;
      assert forall x: LinkMap | x in Elems(Maps) :: list as object != x as object;
      assert forall x: LinkMap | x in e :: list as object != x as object && list as object != x.scope as object;
      CompactGlobal(unloadGlobal, s, dead);
      forall m | m in e ensures ObjOf(m) == st[m] {
        assert m.scope[..] == old(m.scope[..]);
      }
    }

    method UnlinkPhase(maps: seq<LinkMap>, used: seq<bool>, firstLoaded: nat, ghost e: set<LinkMap>,
                       ghost entries: seq<LinkMap>, ghost dead: set<LinkMap>)
      requires ListsAre(Maps, entries) && NoDup(maps) && Elems(maps) == Elems(Maps) && |used| == |maps|
      requires UsedFits(maps, used, dead) && FirstFits(maps, |maps|, dead, firstLoaded)
      modifies `loaded, `nloaded, `Maps, Elems(Maps)`next, Elems(Maps)`prev
      ensures StateOf(e) == old(StateOf(e))
      ensures ListsAre(Maps, entries) && Maps == Without(old(Maps), dead)
    {
      hide UsedFits, FirstFits, Without, LinkedAs, NoDup, UpToNull, ViewOf, LinkMap.ValidScope;
      assert forall m: LinkMap, x: LinkMap | m in e && x in Elems(Maps) :: m.scope as object != x as object;
      assert forall m: LinkMap | m in e :: m.scope as object != this as object;
      ghost var pos := Positions(maps, Elems(Maps));
      UnlinkUnused(maps, used, firstLoaded, pos, dead);
    }

    method BeginPass(ghost e: set<LinkMap>, ghost entries: seq<LinkMap>)
      requires ListsAre(Maps, entries)
      modifies `closeState
      ensures closeState == Pending && StateOf(e) == old(StateOf(e)) && ListsAre(Maps, entries)
    {
      closeState := Pending;
    }

    /** One pass: mark, run termination functions, rebuild scopes, compact the main search list, unlink. */
    method Pass(ghost e: set<LinkMap>, ghost entries: seq<LinkMap>, ghost w: Snapshot<LinkMap>,
                ghost gone: set<LinkMap>, ghost owner: Owners)
      returns (ghost entries': seq<LinkMap>, ghost owner': Owners)
      requires ListsAre(Maps, entries) && PassInv(StateOf(e), Maps, entries, w, gone, owner) && Maps != []
      modifies `closeState, `loaded, `nloaded, `Maps, searchList`rNlist, searchList.rList, w.All()`directOpencount
      modifies Elems(Maps)`idx, Elems(Maps)`next, Elems(Maps)`prev
      modifies Elems(Maps)`removed, Elems(Maps)`scope, Elems(Maps)`scopeMax, Elems(Maps)`searchlist, Elems(Maps)`loader
      modifies InlineArrays(Elems(Maps))
      ensures ListsAre(Maps, entries') && PassInv(StateOf(e), Maps, entries', w, Garbage(w, gone), owner')
      ensures closeState == if Roots(w, Garbage(w, gone)) == Roots(w, gone) then Pending else Rerun
      ensures entries' == Without(entries, Garbage(w, gone) - gone)
      ensures SweptState(old(StateOf(e)), StateOf(e), old(Elems(Maps)), Garbage(w, gone) - gone, w, owner')
      ensures searchList == old(searchList) && searchList.rList == old(searchList.rList)
    {
      hide *;
      ghost var st, s := StateOf(e), Elems(Maps);
      BeginPass(e, entries);
      PassParts(st, Maps, entries, w, gone, owner);
      MarkFindsGarbage(e, Maps, entries, w, gone, owner);
      var maps, used, dead := MarkPhase(e, entries);
      MarkFindsGarbage(e, Maps, entries, w, gone, owner);
      DeadAreApart(st, s, w, gone, owner);
      var unloadAny, unloadGlobal, firstLoaded;
      unloadAny, unloadGlobal, firstLoaded, owner' := SweepPhase(maps, used, e, entries, dead, w, gone, owner);
      SweepMeans(e, st, Maps, entries, s, dead, w, gone, owner, owner');
      entries' := Without(entries, dead);
      if !unloadAny {
        WithoutNothing(Maps);
        WithoutNothing(entries);
        return;
      }
      CompactPhase(unloadGlobal, e, entries, s, dead);
      UnlinkPhase(maps, used, firstLoaded, e, entries', dead);
    }

    // ----- collections and closes -----

    ghost predicate Valid()
      reads this, Ever, Elems(Maps), ScopeArrays(Ever), searchList, searchList.rList
    {
      && Elems(Maps) <= Ever && searchList.Valid()
      && ListsAre(Maps, searchList.Entries())
      && ValidState(StateOf(Ever), Maps, searchList.Entries(), Owner)
    }

    /** Everything that is loaded is reachable from what keeps itself loaded. */
    ghost predicate Collected()
      reads `Maps, Elems(Maps)`initfini, Elems(Maps)`reldeps
      reads Elems(Maps)`dlopened, Elems(Maps)`directOpencount, Elems(Maps)`nodelete
    {
      Elems(Maps) == Reach(DepGraph(Elems(Maps)), RootsOf(Elems(Maps)))
    }

    /** The passes of one collection. */
    method Passes(ghost e: set<LinkMap>, ghost entries: seq<LinkMap>, ghost w: Snapshot<LinkMap>, ghost owner: Owners)
      returns (ghost dead: set<LinkMap>, ghost entries': seq<LinkMap>, ghost owner': Owners)
      requires ListsAre(Maps, entries) && PassInv(StateOf(e), Maps, entries, w, {}, owner) && Maps != []
      modifies `closeState, `loaded, `nloaded, `Maps, searchList`rNlist, searchList.rList
      modifies Elems(Maps)`directOpencount, Elems(Maps)`idx, Elems(Maps)`next, Elems(Maps)`prev
      modifies Elems(Maps)`removed, Elems(Maps)`scope, Elems(Maps)`scopeMax, Elems(Maps)`searchlist, Elems(Maps)`loader
      modifies InlineArrays(Elems(Maps))
      ensures closeState == NotPending
      ensures ListsAre(Maps, entries') && PassInv(StateOf(e), Maps, entries', w, dead, owner')
      ensures entries' == Without(entries, dead) && w.Valid() && IsLeastDead(w, dead)
      ensures OutsideKept(old(StateOf(e)), StateOf(e), w)
    {
      hide *;
      ghost var s, st := Elems(Maps), StateOf(e);
      OutsideStart(st, w);
      dead, entries', owner' := {}, entries, owner;
      WithoutNothing(entries);
      PassMayModify(StateOf(e), Maps, entries, w, {}, owner, s);
      while true
        invariant w.Valid() && w.All() <= s
        invariant ListsAre(Maps, entries') && PassInv(StateOf(e), Maps, entries', w, dead, owner') && Maps != []
        invariant entries' == Without(entries, dead) && OutsideKept(st, StateOf(e), w)
        decreases |Maps|
      {
        ghost var before, mid, loaded := dead, StateOf(e), Elems(Maps);
        PassMayModify(StateOf(e), Maps, entries', w, before, owner', s);
        entries', owner' := Pass(e, entries', w, before, owner');
        dead := Garbage(w, before);
        OutsideStep(st, mid, StateOf(e), loaded, dead - before, w, owner');
        WithoutMore(entries, w, before);
        if closeState != Rerun {
          LastPassIsLeast(w, before, dead);
          break;
        }
        PassParts(StateOf(e), Maps, entries', w, dead, owner');
        RerunMakesProgress(w, before);
      }
      EndPasses(e, entries');
    }

    method EndPasses(ghost e: set<LinkMap>, ghost entries: seq<LinkMap>)
      requires ListsAre(Maps, entries)
      modifies `closeState
      ensures closeState == NotPending && StateOf(e) == old(StateOf(e)) && ListsAre(Maps, entries)
    {
      closeState := NotPending;
    }

    lemma ValidParts()
      requires Valid()
      ensures searchList.Valid() && ListsAre(Maps, searchList.Entries()) && Elems(Maps) <= Ever
      ensures ValidState(StateOf(Ever), Maps, searchList.Entries(), Owner)
    {
      hide ValidState, ListsAre;
    }

    lemma ValidAgain(entries: seq<LinkMap>)
      requires ListsAre(Maps, entries) && ValidState(StateOf(Ever), Maps, entries, Owner) && Elems(Maps) <= Ever
      ensures Valid() && searchList.Valid() && searchList.Entries() == entries
    {
      hide ValidState, Linked;
    }

    lemma CollectedNow()
      requires Elems(Maps) == Reach(DepGraph(Elems(Maps)), RootsOf(Elems(Maps)))
      ensures Collected()
    {
      hide Reach, DepGraph, RootsOf;
    }

    ghost method SetOwner(owner: Owners, entries: seq<LinkMap>)
      requires ListsAre(Maps, entries)
      modifies `Owner
      ensures Owner == owner && StateOf(Ever) == old(StateOf(Ever)) && ListsAre(Maps, entries)
      ensures Collected() == old(Collected())
    {
      Owner := owner;
    }

    /** The collection proper: passes until none is asked for. */
    method Collect() returns (ghost dead: set<LinkMap>)
      requires Valid() && Maps != []
      modifies `closeState, `Owner, `loaded, `nloaded, `Maps, searchList`rNlist, searchList.rList
      modifies Elems(Maps)`directOpencount, Elems(Maps)`idx, Elems(Maps)`next, Elems(Maps)`prev
      modifies Elems(Maps)`removed, Elems(Maps)`scope, Elems(Maps)`scopeMax, Elems(Maps)`searchlist, Elems(Maps)`loader
      modifies InlineArrays(Elems(Maps))
      ensures Valid() && closeState == NotPending && Collected()
      ensures Maps == Without(old(Maps), dead) && searchList.Valid()
      ensures searchList.Entries() == Without(old(searchList.Entries()), dead)
      ensures old(SnapshotOf(StateOf(Ever), Maps)).Valid() && IsLeastDead(old(SnapshotOf(StateOf(Ever), Maps)), dead)
      ensures Counted(StateOf(Ever), old(SnapshotOf(StateOf(Ever), Maps)), dead)
    {
      hide *;
      ValidParts();
      ghost var st, maps, entries, owner := StateOf(Ever), Maps, searchList.Entries(), Owner;
      KeysOfState(Ever);
      ghost var w := SnapshotOf(st, maps);
      CollectionStarts(st, maps, entries, owner);
      ghost var entries', owner';
      dead, entries', owner' := Passes(Ever, entries, w, owner);
      LeastDeadHasNoRoots(w, dead);
      FixedPointIsCollected(Ever, Maps, entries', w, dead, owner');
      CollectedNow();
      PassParts(StateOf(Ever), Maps, entries', w, dead, owner');
      CollectionEnds(st, maps, entries, owner, StateOf(Ever), Maps, entries', dead, owner');
      KeysOfState(Ever);
      SetOwner(owner', entries');
      ValidAgain(entries');
    }

    lemma CountsInSnapshot(maps: seq<LinkMap>)
      requires Elems(maps) <= Ever
      ensures SnapshotOf(StateOf(Ever), maps).maps == maps
      ensures SnapshotOf(StateOf(Ever), maps).count == CountsOf(Elems(maps))
    {
      assert forall m | m in maps :: StateOf(Ever)[m] == ObjOf(m);
    }

    /** The same, and what it makes of the open counts. */
    method CollectAndCount() returns (ghost dead: set<LinkMap>)
      requires Valid() && Maps != []
      modifies `closeState, `Owner, `loaded, `nloaded, `Maps, searchList`rNlist, searchList.rList
      modifies Elems(Maps)`directOpencount, Elems(Maps)`idx, Elems(Maps)`next, Elems(Maps)`prev
      modifies Elems(Maps)`removed, Elems(Maps)`scope, Elems(Maps)`scopeMax, Elems(Maps)`searchlist, Elems(Maps)`loader
      modifies InlineArrays(Elems(Maps))
      ensures Valid() && closeState == NotPending && Collected()
      ensures Maps == Without(old(Maps), dead) && searchList.Valid()
      ensures searchList.Entries() == Without(old(searchList.Entries()), dead)
      ensures old(SnapshotOf(StateOf(Ever), Maps)).Valid() && IsLeastDead(old(SnapshotOf(StateOf(Ever), Maps)), dead)
      ensures CountedRight(old(Maps), old(CountsOf(Elems(Maps))), dead)
    {
      hide *;
      ValidParts();
      CountsInSnapshot(Maps);
      KeysOfState(Ever);
      ghost var w := SnapshotOf(StateOf(Ever), Maps);
      dead := Collect();
      CountedInHeap(Ever, w, dead);
      CollectionCounts(w, dead);
    }

    /** One less direct use of m, seen over the loaded objects s. */
    method DropWithin(m: LinkMap, ghost s: set<LinkMap>) returns (collect: bool)
      requires closeState == NotPending && m.directOpencount > 0 && !m.nodelete
      modifies `closeState, m`directOpencount
      ensures m.directOpencount == old(m.directOpencount) - 1 && closeState == NotPending
      ensures collect <==> old(LosesLastUse(m))
      ensures !collect ==> RootsOf(s) == old(RootsOf(s))
    {
      collect := DropReference(m);
      if !collect {
        forall x | x in s ensures IsRoot(x) <==> old(IsRoot(x)) {
        }
      }
    }

    /** The same, seen over all objects. */
    method DropObject(m: LinkMap, ghost e: set<LinkMap>, ghost entries: seq<LinkMap>) returns (collect: bool)
      requires ListsAre(Maps, entries)
      requires closeState == NotPending && m.directOpencount > 0 && !m.nodelete
      modifies `closeState, m`directOpencount
      ensures m.directOpencount == old(m.directOpencount) - 1
      ensures ObjOf(m) == old(ObjOf(m).(count := m.directOpencount - 1))
      ensures forall x | x in e && x != m :: ObjOf(x) == old(ObjOf(x))
      ensures ListsAre(Maps, entries) && closeState == NotPending
      ensures collect <==> old(LosesLastUse(m))
      ensures !collect && old(Collected()) ==> Collected()
    {
      hide Reach, DepGraph, RootsOf, LosesLastUse, UpToNull;
      collect := DropWithin(m, Elems(Maps));
      forall x | x in e && x != m ensures ObjOf(x) == old(ObjOf(x)) {
        assert ViewOf(x) == old(ViewOf(x)) && x.ValidScope() == old(x.ValidScope());
      }
    }

    /** The same, in terms of the state of all objects. */
    method DropInState(m: LinkMap, ghost e: set<LinkMap>, ghost entries: seq<LinkMap>) returns (collect: bool)
      requires ListsAre(Maps, entries) && m in e
      requires closeState == NotPending && m.directOpencount > 0 && !m.nodelete
      modifies `closeState, m`directOpencount
      ensures m.directOpencount == old(m.directOpencount) - 1
      ensures StateOf(e) == old(AfterDrop(StateOf(e), m)) && ListsAre(Maps, entries) && closeState == NotPending
      ensures collect <==> old(LosesLastUse(m))
      ensures !collect && old(Collected()) ==> Collected()
    {
      ghost var st := StateOf(e);
      assert forall x | x in e :: st[x] == old(ObjOf(x));
      assert st.Keys == e && st[m].count == m.directOpencount && !st[m].nodelete;
      hide *;
      collect := DropObject(m, e, entries);
      DroppedState(st, m, e);
    }

    /** The same, for the namespace. */
    method Drop(m: LinkMap) returns (collect: bool)
      requires Valid() && closeState == NotPending && m in Maps && m.directOpencount > 0 && !m.nodelete
      modifies `closeState, m`directOpencount
      ensures Valid() && closeState == NotPending && m.directOpencount == old(m.directOpencount) - 1
      ensures searchList.Valid() && searchList.Entries() == old(searchList.Entries())
      ensures m in Ever && StateOf(Ever) == old(AfterDrop(StateOf(Ever), m))
      ensures collect <==> old(LosesLastUse(m))
      ensures !collect && old(Collected()) ==> Collected()
    {
      hide *;
      ValidParts();
      ghost var st, entries := StateOf(Ever), searchList.Entries();
      DropKeepsValid(st, m, Maps, entries, Owner);
      KeysOfState(Ever);
      collect := DropInState(m, Ever, entries);
      ValidAgain(entries);
    }

    lemma OpenIsLoaded(m: LinkMap)
      requires Valid() && m in Ever && m.directOpencount > 0
      ensures m in Maps && m in Elems(Maps)
    {
      hide Sane, Listed, ListsAre, NoDup;
      assert StateOf(Ever)[m] == ObjOf(m);
    }

    /** dlclose.  dead are the objects it unloads. */
    method Close(m: LinkMap) returns (r: CloseResult, ghost dead: set<LinkMap>)
      requires Valid() && closeState == NotPending && m in Ever
      modifies `closeState, `Owner, `loaded, `nloaded, `Maps, searchList`rNlist, searchList.rList
      modifies Elems(Maps)`directOpencount, Elems(Maps)`idx, Elems(Maps)`next, Elems(Maps)`prev
      modifies Elems(Maps)`removed, Elems(Maps)`scope, Elems(Maps)`scopeMax, Elems(Maps)`searchlist, Elems(Maps)`loader
      modifies InlineArrays(Elems(Maps))
      ensures Valid() && closeState == NotPending
      ensures r.NotOpen? <==> !m.nodelete && old(m.directOpencount) == 0
      ensures Maps == Without(old(Maps), dead) && searchList.Entries() == Without(old(searchList.Entries()), dead)
      ensures !old(LosesLastUse(m)) ==> dead == {} && StateOf(Ever) == old(AfterDrop(StateOf(Ever), m))
      ensures old(LosesLastUse(m)) ==>
                Collected() && old(SnapshotOf(AfterDrop(StateOf(Ever), m), Maps)).Valid() &&
                IsLeastDead(old(SnapshotOf(AfterDrop(StateOf(Ever), m), Maps)), dead)
      ensures old(Collected()) ==> Collected()
      ensures old(m.directOpencount > 1 || m.directOpencount == 0 || !m.dlopened || m.nodelete) ==> dead == {}
      ensures CountedAfterClose(old(Maps), old(CountsOf(Elems(Maps))), dead, m)
    {
      UseIsLost(m);
      hide *;
      dead := {};
      ghost var was := CountsOf(Elems(Maps));
      CountsAre(Maps);
      ValidParts();
      WithoutNothing(Maps);
      WithoutNothing(searchList.Entries());
      if m.nodelete {
        NothingClosed(Maps, was, m);
        NothingDropped(Ever, m);
        return Done, {};
      }
      if m.directOpencount == 0 {
        NothingClosed(Maps, was, m);
        NothingDropped(Ever, m);
        return NotOpen, {};
      }
      OpenIsLoaded(m);
      var collect := Drop(m);
      DropCounted(Maps, was, m);
      if collect {
        ghost var maps, mid := Maps, CountsOf(Elems(Maps));
        dead := CollectAndCount();
        CountedTogether(maps, was, mid, dead, m);
      }
      return Done, dead;
    }

    /** No loaded object refers to one that is not: neither by its dependencies, nor, if it was loaded by dlopen, by
        its loader or its scope. */
    lemma NothingDangles(m: LinkMap)
      requires Valid() && m in Maps
      ensures Elems(m.initfini) <= Elems(Maps) && Elems(m.reldeps) <= Elems(Maps) && !m.removed
      ensures m.dlopened ==> (m.loader != null ==> m.loader in Maps)
      ensures m.dlopened ==> forall e | e in m.Scope() && e.SearchList? :: e.of in Maps
    {
      hide Listed, ListsAre, Known, Linked;
      assert StateOf(Ever)[m] == ObjOf(m);
      assert m in Elems(Maps) && Sane(StateOf(Ever), Elems(Maps), Owner);
    }

    /** When a collection has ended, every loaded object is needed: any set that holds what was not loaded by
        dlopen, is NODELETE or is held open, and with each object what it depends on, holds all of them. */
    lemma AllAreNeeded(x: set<LinkMap>)
      requires Valid() && Collected()
      requires forall m | m in Maps && (!m.dlopened || m.nodelete || m.directOpencount > 0) :: m in x
      requires forall m | m in Maps && m in x :: Elems(m.initfini) <= x && Elems(m.reldeps) <= x
      ensures Elems(Maps) <= x
    {
      var g := DepGraph(Elems(Maps));
      forall m | m in x && m in g ensures g[m] <= x {
        assert Elems(FiniDeps(m)) <= Elems(m.initfini);
      }
      ReachIsLeast(g, RootsOf(Elems(Maps)), x);
    }

    /** Any run of dlclose calls.  The loaded objects stay in order, and if nothing but what is
        reachable from what keeps itself loaded was loaded before, that holds after every call. */
    method CloseEach(handles: seq<LinkMap>) returns (ghost dead: set<LinkMap>)
      requires Valid() && closeState == NotPending && forall h | h in handles :: h in Ever
      modifies `closeState, `Owner, `loaded, `nloaded, `Maps, searchList`rNlist, searchList.rList
      modifies Elems(Maps)`directOpencount, Elems(Maps)`idx, Elems(Maps)`next, Elems(Maps)`prev
      modifies Elems(Maps)`removed, Elems(Maps)`scope, Elems(Maps)`scopeMax, Elems(Maps)`searchlist, Elems(Maps)`loader
      modifies InlineArrays(Elems(Maps))
      ensures Valid() && closeState == NotPending
      ensures Maps == Without(old(Maps), dead) && searchList.Entries() == Without(old(searchList.Entries()), dead)
      ensures old(Collected()) ==> Collected()
    {
      hide *;
      dead := {};
      ValidParts();
      ghost var s, entries := Elems(Maps), searchList.Entries();
      WithoutNothing(Maps);
      WithoutNothing(entries);
      for k := 0 to |handles|
        invariant Valid() && closeState == NotPending && searchList.Valid()
        invariant Maps == Without(old(Maps), dead) && searchList.Entries() == Without(entries, dead)
        invariant old(Collected()) ==> Collected()
      {
        ghost var now;
        StillWithin(old(Maps), dead);
        var r;
        r, now := Close(handles[k]);
        ValidParts();
        WithoutTwice(old(Maps), dead, now);
        WithoutTwice(entries, dead, now);
        dead := dead + now;
      }
    }
  }
}
