/** The state that closing an object works on, as a value, and what one pass of a collection makes of it. */
module DlCloseState {
  import opened CloseTheory
  import opened DlCloseMark
  import opened Filtering
  import opened LinkMaps
  import opened Reachability

  // ---------- destructors that close further objects ----------

  /** The part of a collection's snapshot that no close changes. */
  ghost predicate Matches(w: Snapshot<LinkMap>)
    reads Elems(w.maps)`dlopened, Elems(w.maps)`nodelete
    reads Elems(w.maps)`initCalled, Elems(w.maps)`initfini, Elems(w.maps)`reldeps
  {
    && w.Valid()
    && forall m | m in w.maps ::
         && (m in w.pinned <==> !m.dlopened || m.nodelete)
         && w.closes[m] == (if m.initCalled then m.closes else [])
         && w.deps[m] == Deps(m)
  }

  /** The open counts are those that the closes by the objects in gone have left. */
  ghost predicate CountsAfter(w: Snapshot<LinkMap>, gone: set<LinkMap>)
    requires w.Valid()
    reads Elems(w.maps)`directOpencount, Elems(w.maps)`nodelete
  {
    forall m | m in w.maps && !m.nodelete :: m.directOpencount == CountAfter(w, gone, m)
  }

  lemma RootsMatch(w: Snapshot<LinkMap>, gone: set<LinkMap>)
    requires Matches(w) && CountsAfter(w, gone)
    ensures Roots(w, gone) == RootsOf(w.All())
  {
    forall m | m in w.maps ensures m in Roots(w, gone) <==> IsRoot(m) {
    }
  }

  lemma CountsOneMore(w: Snapshot<LinkMap>, gone: set<LinkMap>, m: LinkMap)
    requires w.Valid() && m in w.maps && m !in gone
    ensures forall x | x in w.maps ::
              CountAfter(w, gone + {m}, x) == Monus(CountAfter(w, gone, x), multiset(w.closes[m])[x])
  {
    forall x | x in w.maps {
      CountAfterOneMore(w, gone, m, x);
    }
  }

  /** What a run of closes leaves of an open count; NODELETE objects are not counted down. */
  function CountLeft(nodelete: bool, count: nat, closes: nat): nat {
    if nodelete then count else Monus(count, closes)
  }

  // ---------- what a sweep does to a survivor ----------

  datatype View = View(
    dlopened: bool, initfini: seq<LinkMap>, depOrder: seq<LinkMap>,
    scope: seq<ScopeElem>, searchlist: seq<LinkMap>, loader: LinkMap?)

  ghost function ViewOf(m: LinkMap): View
    reads m`dlopened, m`initfini, m`depOrder, m`scope, m.scope, m`searchlist, m`loader
  {
    View(m.dlopened, m.initfini, m.depOrder, m.Scope(), m.searchlist, m.loader)
  }

  /** Every object a view refers to is in s. */
  ghost predicate Inside(v: View, s: set<LinkMap>) {
    && (v.loader != null ==> v.loader in s)
    && forall e | e in v.scope && e.SearchList? :: e.of in s
  }

  ghost function SweptView(m: LinkMap, v: View, dead: set<LinkMap>): View {
    if !v.dlopened then v
    else
      var needsList := v.searchlist == [] && v.initfini != [];
      v.(scope := RebuiltScope(v.scope, dead, if needsList then [SearchList(m)] else []),
         searchlist := if needsList then v.depOrder else v.searchlist,
         loader := if v.loader != null && v.loader in dead then null else v.loader)
  }

  /** What the sweep does to a survivor, said apart: objects loaded at start-up are left alone; a loader that is
      going away is forgotten; an object that has dependencies but no search list gets one, in the order of its
      dependencies, and finds it in its scope where the first entry goes away. */
  lemma SweptViewMeans(m: LinkMap, v: View, dead: set<LinkMap>)
    ensures var v' := SweptView(m, v, dead);
      && v'.dlopened == v.dlopened && v'.initfini == v.initfini && v'.depOrder == v.depOrder
      && (!v.dlopened ==> v' == v)
      && (v.dlopened ==>
            && (v.loader != null && v.loader in dead ==> v'.loader == null)
            && (v.loader == null || v.loader !in dead ==> v'.loader == v.loader)
            && (v.searchlist != [] || v.initfini == [] ==> v'.searchlist == v.searchlist && v'.scope == Kept(v.scope, dead))
            && (v.searchlist == [] && v.initfini != [] ==>
                  v'.searchlist == v.depOrder && v'.scope == RebuiltScope(v.scope, dead, [SearchList(m)])))
  {
    RebuiltWithoutOwn(v.scope, dead);
  }

  /** A swept survivor refers to survivors only. */
  lemma SweptRefersToSurvivors(m: LinkMap, v: View, s: set<LinkMap>, dead: set<LinkMap>)
    requires m in s && m !in dead && v.dlopened && Inside(v, s)
    ensures Inside(SweptView(m, v, dead), s - dead)
  {
    RebuiltMembers(v.scope, dead, if v.searchlist == [] && v.initfini != [] then [SearchList(m)] else []);
  }

  type Owners = map<array<ScopeElem>, LinkMap>

  /** No two maps share an array that a scope lives in. */
  ghost predicate Apart(s: set<LinkMap>, owner: Owners)
    reads s`scope
  {
    forall m | m in s ::
      m.scope in owner && owner[m.scope] == m && m.scopeMem in owner && owner[m.scopeMem] == m
  }

  ghost function ScopeArrays(s: set<LinkMap>): set<array<ScopeElem>>
    reads s`scope
  {
    set m | m in s :: m.scope
  }

  ghost function InlineArrays(s: set<LinkMap>): set<array<ScopeElem>> {
    set m | m in s :: m.scopeMem
  }

  ghost function Views(s: set<LinkMap>): map<LinkMap, View>
    reads s`dlopened, s`initfini, s`depOrder, s`scope, s`searchlist, s`loader, ScopeArrays(s)
  {
    map m | m in s :: ViewOf(m)
  }

  /** The survivors among `done` have been swept; the other objects look as they did before. */
  ghost predicate SweptSoFar(s: set<LinkMap>, was: map<LinkMap, View>, done: set<LinkMap>, dead: set<LinkMap>)
    reads s`scope, s`scopeMax, s`searchlist, s`loader, ScopeArrays(s), s`dlopened, s`initfini, s`depOrder
  {
    was.Keys == s && forall m | m in s ::
         && m.ValidScope()
         && ViewOf(m) == if m in done && m !in dead then SweptView(m, was[m], dead) else was[m]
  }

  /** The dependency lists stay inside s.  The search list, and the list that would become the search
      list, hold nothing but the object itself and its init/fini dependencies. */
  ghost predicate DepsInside(m: LinkMap, v: View, s: set<LinkMap>) {
    && (v.initfini != [] ==> v.initfini[0] == m)
    && Elems(v.initfini) <= s
    && |v.depOrder| == |v.initfini| && Elems(v.depOrder) <= Elems(v.initfini)
    && Elems(v.searchlist) <= Elems(v.initfini)
  }

  /** An object refers to nothing outside s; one that was there at program start, in its scope and
      loader, to nothing but such objects. */
  ghost predicate ViewOk(m: LinkMap, v: View, s: set<LinkMap>, startup: set<LinkMap>) {
    DepsInside(m, v, s) && Inside(v, if v.dlopened then s else startup)
  }

  lemma SweptViewOk(m: LinkMap, v: View, s: set<LinkMap>, startup: set<LinkMap>, dead: set<LinkMap>)
    requires ViewOk(m, v, s, startup) && m in s && m !in dead
    requires startup !! dead && Elems(v.initfini) !! dead
    ensures ViewOk(m, SweptView(m, v, dead), s - dead, startup)
  {
    if v.dlopened {
      SweptRefersToSurvivors(m, v, s, dead);
    }
    assert Elems(v.initfini) <= s - dead;
  }

  /** The objects that were there at program start; they are never unloaded. */
  ghost function Startup(s: set<LinkMap>): set<LinkMap>
    reads s`dlopened
  {
    set m | m in s && !m.dlopened
  }

  /** No object of s refers to anything outside s. */
  ghost predicate NoDangling(s: set<LinkMap>)
    reads s`initfini, s`depOrder, s`reldeps, s`searchlist, s`dlopened, s`scope, s`scopeMax, s`loader, ScopeArrays(s)
  {
    forall m | m in s ::
      ViewOk(m, ViewOf(m), s, Startup(s)) && m.ValidScope() && Elems(m.reldeps) <= s
  }

  /** entries lists every object of s that is loaded by dlopen and global, once, and nothing outside s. */
  ghost predicate ListsGlobals(entries: seq<LinkMap>, s: set<LinkMap>)
    reads s`dlopened, s`global
  {
    && Elems(entries) <= s
    && forall m | m in s && m.dlopened :: (m.global <==> m in entries) && AtMostOnce(entries, m)
  }

  lemma DepsStayInside(s: set<LinkMap>)
    requires NoDangling(s)
    ensures Closed(DepGraph(s), s)
  {
    forall m, d | m in s && d in Deps(m) ensures d in s {
      assert ViewOk(m, ViewOf(m), s, Startup(s));
      if d in FiniDeps(m) {
        assert d in m.initfini;
        assert d in Elems(m.initfini);
      }
    }
  }

  // ---------- the state of the objects, as a value ----------

  /** Everything a close looks at in one object, except its list links and its l_idx. */
  datatype Obj = Obj(
    view: View, scopeOk: bool, scopeRef: array<ScopeElem>,
    nodelete: bool, initCalled: bool, global: bool, removed: bool, count: nat, reldeps: seq<LinkMap>)

  ghost function ObjOf(m: LinkMap): Obj
    reads m`dlopened, m`initfini, m`depOrder, m`scope, m.scope, m`searchlist, m`loader, m`scopeMax
    reads m`nodelete, m`initCalled, m`global, m`removed, m`directOpencount, m`reldeps
  {
    Obj(ViewOf(m), m.ValidScope(), m.scope,
        m.nodelete, m.initCalled, m.global, m.removed, m.directOpencount, m.reldeps)
  }

  type State = map<LinkMap, Obj>

  ghost function StateOf(e: set<LinkMap>): State
    reads e`dlopened, e`initfini, e`depOrder, e`scope, ScopeArrays(e), e`searchlist, e`loader, e`scopeMax
    reads e`nodelete, e`initCalled, e`global, e`removed, e`directOpencount, e`reldeps
  {
    map m | m in e :: ObjOf(m)
  }

  ghost function StartupIn(st: State, s: set<LinkMap>): set<LinkMap>
    requires s <= st.Keys
  {
    set m | m in s && !st[m].view.dlopened
  }

  ghost function ViewsIn(st: State, s: set<LinkMap>): map<LinkMap, View>
    requires s <= st.Keys
  {
    map m | m in s :: st[m].view
  }

  /** The loaded objects s: no reference leaves s, no scope array is shared, nothing is marked removed. */
  ghost predicate Sane(st: State, s: set<LinkMap>, owner: Owners) {
    && s <= st.Keys
    && forall m | m in s ::
         && ViewOk(m, st[m].view, s, StartupIn(st, s)) && st[m].scopeOk && Elems(st[m].reldeps) <= s
         && !st[m].removed
         && st[m].scopeRef in owner && owner[st[m].scopeRef] == m && m.scopeMem in owner && owner[m.scopeMem] == m
  }

  /** st is what the closes by the objects in gone have made of the snapshot w. */
  ghost predicate Counted(st: State, w: Snapshot<LinkMap>, gone: set<LinkMap>) {
    && w.Valid() && w.All() <= st.Keys
    && forall m | m in w.maps ::
         var o := st[m];
         && (m in w.pinned <==> !o.view.dlopened || o.nodelete)
         && w.closes[m] == (if o.initCalled then m.closes else [])
         && w.deps[m] == Elems(if o.view.initfini == [] then [] else o.view.initfini[1..]) + Elems(o.reldeps)
         && (!o.nodelete ==> o.count == CountAfter(w, gone, m))
  }

  /** A handle that is not one of the objects of w belongs to an object unloaded before. */
  ghost predicate Known(st: State, w: Snapshot<LinkMap>) {
    forall m, c | m in w.maps && c in m.closes :: c in st && (c in w.maps || st[c].count == 0)
  }

  ghost predicate Listed(st: State, entries: seq<LinkMap>, s: set<LinkMap>) {
    && Elems(entries) <= s <= st.Keys
    && forall m | m in s && st[m].view.dlopened :: (st[m].global <==> m in entries) && AtMostOnce(entries, m)
  }

  lemma SaneInHeap(e: set<LinkMap>, s: set<LinkMap>, owner: Owners)
    requires Sane(StateOf(e), s, owner)
    ensures NoDangling(s) && Apart(s, owner) && RemovedAre(s, {})
    ensures s <= e && Views(s) == ViewsIn(StateOf(e), s)
  {
    var st := StateOf(e);
    assert forall m | m in s :: st[m] == ObjOf(m);
    assert StartupIn(st, s) == Startup(s);
  }

  lemma CountedInHeap(e: set<LinkMap>, w: Snapshot<LinkMap>, gone: set<LinkMap>)
    requires Counted(StateOf(e), w, gone)
    ensures w.Valid() && Matches(w) && CountsAfter(w, gone)
  {
    hide CountAfter;
    assert forall m | m in w.maps :: StateOf(e)[m] == ObjOf(m);
  }

  lemma KnownInHeap(e: set<LinkMap>, w: Snapshot<LinkMap>)
    requires Known(StateOf(e), w)
    ensures forall m, c | m in w.maps && c in m.closes :: c in w.All() || c.directOpencount == 0
  {
  }

  /** What a sweep makes of the state. */
  ghost predicate SweptState(st: State, st': State, s: set<LinkMap>, dead: set<LinkMap>, w: Snapshot<LinkMap>, owner': Owners) {
    && s <= st.Keys == st'.Keys
    && (forall m | m in st ::
          && st'[m].nodelete == st[m].nodelete && st'[m].initCalled == st[m].initCalled
          && st'[m].global == st[m].global && st'[m].reldeps == st[m].reldeps
          && st'[m].view.dlopened == st[m].view.dlopened && st'[m].view.initfini == st[m].view.initfini)
    && (forall m | m in st && m !in w.maps :: st'[m].count == st[m].count)
    && forall m | m in s ::
         && st'[m].view == (if m in dead then st[m].view else SweptView(m, st[m].view, dead))
         && st'[m].scopeOk && (st'[m].removed <==> m in dead)
         && st'[m].scopeRef in owner' && owner'[st'[m].scopeRef] == m
         && m.scopeMem in owner' && owner'[m.scopeMem] == m
  }

  /** The fields of the objects in e that a sweep leaves alone are as st says. */
  ghost predicate Fixed(e: set<LinkMap>, st: State, w: Snapshot<LinkMap>)
    reads e`nodelete, e`initCalled, e`global, e`reldeps, e`dlopened, e`initfini, (e - Elems(w.maps))`directOpencount
  {
    && e == st.Keys
    && forall m | m in e ::
         && m.nodelete == st[m].nodelete && m.initCalled == st[m].initCalled
         && m.global == st[m].global && m.reldeps == st[m].reldeps
         && m.dlopened == st[m].view.dlopened && m.initfini == st[m].view.initfini
         && (m !in Elems(w.maps) ==> m.directOpencount == st[m].count)
  }

  lemma FixedNow(e: set<LinkMap>, w: Snapshot<LinkMap>)
    ensures Fixed(e, StateOf(e), w)
  {
  }

  /** What the sweep needs of the state. */
  lemma SweepNeeds(e: set<LinkMap>, s: set<LinkMap>, w: Snapshot<LinkMap>, gone: set<LinkMap>, owner: Owners)
    requires Sane(StateOf(e), s, owner) && Counted(StateOf(e), w, gone) && Known(StateOf(e), w) && s <= w.All()
    ensures NoDangling(s) && Apart(s, owner) && RemovedAre(s, {}) && s <= e && Views(s) == ViewsIn(StateOf(e), s)
    ensures Matches(w) && CountsAfter(w, gone) && Fixed(e, StateOf(e), w)
    ensures forall m, c | m in s && c in m.closes :: c in w.All() || c.directOpencount == 0
  {
    SaneInHeap(e, s, owner);
    CountedInHeap(e, w, gone);
    KnownInHeap(e, w);
    FixedNow(e, w);
  }

  lemma SweptInHeap(e: set<LinkMap>, st: State, s: set<LinkMap>, dead: set<LinkMap>, w: Snapshot<LinkMap>, owner': Owners)
    requires Fixed(e, st, w) && s <= e
    requires SweptSoFar(s, ViewsIn(st, s), s, dead) && Apart(s, owner') && RemovedAre(s, dead)
    ensures SweptState(st, StateOf(e), s, dead, w, owner')
  {
    hide SweptView, UpToNull;
    var st' := StateOf(e);
    assert forall m | m in e :: st'[m] == ObjOf(m);
    assert forall m | m in w.maps :: m in Elems(w.maps);
    assert forall m | m in e && m !in w.maps :: m !in Elems(w.maps);
  }

  /** After a sweep the survivors form a sane set of loaded objects again. */
  lemma SweptIsSane(st: State, st': State, s: set<LinkMap>, dead: set<LinkMap>, w: Snapshot<LinkMap>,
                    owner: Owners, owner': Owners)
    requires Sane(st, s, owner) && SweptState(st, st', s, dead, w, owner') && dead <= s
    requires StartupIn(st, s) !! dead
    requires forall m | m in s - dead :: Elems(st[m].view.initfini) !! dead && Elems(st[m].reldeps) !! dead
    ensures Sane(st', s - dead, owner')
  {
    assert StartupIn(st', s - dead) == StartupIn(st, s);
    forall m | m in s - dead ensures ViewOk(m, st'[m].view, s - dead, StartupIn(st, s)) && Elems(st'[m].reldeps) <= s - dead {
      SweptViewOk(m, st[m].view, s, StartupIn(st, s), dead);
    }
  }

  // ---------- one pass, as a step between states ----------

  /** What holds between passes, when the objects in gone have been unloaded: maps and entries are the
      list of loaded objects and the main search list. */
  ghost predicate PassInv(st: State, maps: seq<LinkMap>, entries: seq<LinkMap>,
                          w: Snapshot<LinkMap>, gone: set<LinkMap>, owner: Owners) {
    && Sane(st, Elems(maps), owner) && Listed(st, entries, Elems(maps))
    && Counted(st, w, gone) && Known(st, w) && SoundSoFar(w, gone)
    && maps == Without(w.maps, gone)
  }

  lemma SurvivorsAre(maps: seq<LinkMap>, w: Snapshot<LinkMap>, gone: set<LinkMap>)
    requires w.Valid() && maps == Without(w.maps, gone)
    ensures Elems(maps) == w.All() - gone
  {
    WithoutElems(w.maps, gone);
  }

  lemma GraphMatches(s: set<LinkMap>, w: Snapshot<LinkMap>)
    requires Matches(w) && s <= w.All()
    ensures DepGraph(s) == Restrict(w.deps, s)
  {
    hide Deps;
  }

  lemma RootsWithin(s: set<LinkMap>, w: Snapshot<LinkMap>, gone: set<LinkMap>)
    requires Matches(w) && CountsAfter(w, gone) && SoundSoFar(w, gone) && s == w.All() - gone
    ensures RootsOf(s) == RootsOf(w.All()) == Roots(w, gone)
  {
    hide CountAfter, Roots, Garbage;
    RootsMatch(w, gone);
    assert RootsOf(w.All()) <= s;
  }

  /** The mark phase finds the garbage that the collection as a whole would call garbage now. */
  lemma MarkFindsGarbage(e: set<LinkMap>, maps: seq<LinkMap>, entries: seq<LinkMap>,
                         w: Snapshot<LinkMap>, gone: set<LinkMap>, owner: Owners)
    requires PassInv(StateOf(e), maps, entries, w, gone, owner)
    ensures Elems(maps) == w.All() - gone && Elems(maps) <= e && gone <= Garbage(w, gone)
    ensures Closed(DepGraph(Elems(maps)), Elems(maps))
    ensures Elems(maps) - Reach(DepGraph(Elems(maps)), RootsOf(Elems(maps))) == Garbage(w, gone) - gone
    ensures Roots(w, gone) == RootsOf(w.All())
  {
    hide Sane, Listed, Counted, Known, SoundSoFar, Matches, CountsAfter, NoDangling, Apart, RemovedAre, StateOf;
    hide DepGraph, RootsOf, Reach, Restrict, Roots, Deps, Without;
    var s := Elems(maps);
    CountedInHeap(e, w, gone);
    SurvivorsAre(maps, w, gone);
    SaneInHeap(e, s, owner);
    DepsStayInside(s);
    RootsWithin(s, w, gone);
    MarkOnSurvivors(w, gone);
    GraphMatches(s, w);
  }

  lemma DeadAreLoaded(w: Snapshot<LinkMap>, gone: set<LinkMap>)
    requires w.Valid()
    ensures forall m | m in w.maps && m in w.pinned :: m !in Garbage(w, gone)
  {
    hide CountAfter, Reach;
    ReachContainsRoots(w.deps, Roots(w, gone));
  }

  lemma LiveIsClosed(w: Snapshot<LinkMap>, gone: set<LinkMap>)
    requires w.Valid()
    ensures forall m | m in w.All() - Garbage(w, gone) :: w.deps[m] !! Garbage(w, gone)
  {
    hide Roots, Reach;
    ReachIsClosed(w.deps, Roots(w, gone));
  }

  /** Only objects loaded by dlopen die, and no survivor depends on one of them. */
  lemma DeadAreApart(st: State, s: set<LinkMap>, w: Snapshot<LinkMap>, gone: set<LinkMap>, owner: Owners)
    requires Sane(st, s, owner) && Counted(st, w, gone) && s == w.All() - gone
    ensures var dead := Garbage(w, gone) - gone;
      && StartupIn(st, s) !! dead
      && (forall m | m in dead :: m in s && st[m].view.dlopened)
      && (forall m | m in s - dead :: Elems(st[m].view.initfini) !! dead && Elems(st[m].reldeps) !! dead)
  {
    DeadAreLoaded(w, gone);
    LiveIsClosed(w, gone);
    hide CountAfter, Reach, Roots, Inside, Garbage;
    var dead := Garbage(w, gone) - gone;
    forall m | m in s - dead ensures Elems(st[m].view.initfini) !! dead && Elems(st[m].reldeps) !! dead {
      DepsAvoidDead(m, st, s, w, gone, owner);
    }
  }

  lemma DepsAvoidDead(m: LinkMap, st: State, s: set<LinkMap>, w: Snapshot<LinkMap>, gone: set<LinkMap>, owner: Owners)
    requires Sane(st, s, owner) && Counted(st, w, gone) && s == w.All() - gone
    requires m in s && m !in Garbage(w, gone) && w.deps[m] !! Garbage(w, gone)
    ensures Elems(st[m].view.initfini) !! Garbage(w, gone) && Elems(st[m].reldeps) !! Garbage(w, gone)
  {
    hide Garbage, Sane, Counted;
    DepsAre(m, st, s, w, gone, owner);
    var f := st[m].view.initfini;
    if f != [] {
      assert f == [m] + f[1..];
    }
  }

  lemma DepsAre(m: LinkMap, st: State, s: set<LinkMap>, w: Snapshot<LinkMap>, gone: set<LinkMap>, owner: Owners)
    requires Sane(st, s, owner) && Counted(st, w, gone) && s == w.All() - gone && m in s
    ensures m in st && m in w.deps
    ensures var f := st[m].view.initfini;
      && (f != [] ==> f[0] == m)
      && w.deps[m] == Elems(if f == [] then [] else f[1..]) + Elems(st[m].reldeps)
  {
    hide CountAfter, Inside, Known, Roots, Closed;
    assert ViewOk(m, st[m].view, s, StartupIn(st, s));
  }

  lemma PassKeepsInv(st: State, st': State, maps: seq<LinkMap>, entries: seq<LinkMap>,
                     w: Snapshot<LinkMap>, gone: set<LinkMap>, dead: set<LinkMap>, owner: Owners, owner': Owners)
    requires PassInv(st, maps, entries, w, gone, owner)
    requires dead == Garbage(w, gone) - gone && gone <= Garbage(w, gone)
    requires SweptState(st, st', Elems(maps), dead, w, owner') && Counted(st', w, gone + dead)
    ensures PassInv(st', Without(maps, dead), Without(entries, dead), w, Garbage(w, gone), owner')
  {
    var s := Elems(maps);
    SurvivorsAre(maps, w, gone);
    assert dead <= s && gone + dead == Garbage(w, gone);
    KnownAfter(st, st', s, dead, w, owner');
    hide Sane, Listed, Known, Counted, SoundSoFar, SweptState, Garbage, Without;
    DeadAreApart(st, s, w, gone, owner);
    SweptIsSane(st, st', s, dead, w, owner, owner');
    WithoutElems(maps, dead);
    WithoutTwice(w.maps, gone, dead);
    PassIsSound(w, gone);
    ListedAfter(st, st', entries, s, dead, w, owner');
  }

  lemma KnownAfter(st: State, st': State, s: set<LinkMap>, dead: set<LinkMap>, w: Snapshot<LinkMap>, owner': Owners)
    requires Known(st, w) && SweptState(st, st', s, dead, w, owner')
    ensures Known(st', w)
  {
  }

  lemma ListedAfter(st: State, st': State, entries: seq<LinkMap>, s: set<LinkMap>, dead: set<LinkMap>,
                    w: Snapshot<LinkMap>, owner': Owners)
    requires Listed(st, entries, s) && SweptState(st, st', s, dead, w, owner')
    ensures Listed(st', Without(entries, dead), s - dead)
  {
    WithoutElems(entries, dead);
    WithoutMembers(entries, dead);
    forall m | m in s - dead && st'[m].view.dlopened ensures AtMostOnce(Without(entries, dead), m) {
      WithoutKeepsOnce(entries, dead, m);
    }
  }

  lemma CountedAfterSweep(st: State, e: set<LinkMap>, s: set<LinkMap>, dead: set<LinkMap>,
                          w: Snapshot<LinkMap>, gone: set<LinkMap>, next: set<LinkMap>, owner': Owners)
    requires Counted(st, w, gone) && SweptState(st, StateOf(e), s, dead, w, owner')
    requires CountsAfter(w, next)
    ensures Counted(StateOf(e), w, next)
  {
    hide CountAfter;
    assert forall m | m in e :: StateOf(e)[m] == ObjOf(m);
  }

  // ---------- a whole collection ----------

  /** The namespace between closes. */
  ghost predicate ValidState(st: State, maps: seq<LinkMap>, entries: seq<LinkMap>, owner: Owners) {
    && NoDup(maps) && Sane(st, Elems(maps), owner) && Listed(st, entries, Elems(maps))
    && (forall m, c | m in maps && c in m.closes :: c in st)
    && forall m | m in st && m !in maps :: st[m].count == 0
  }

  ghost function SnapshotOf(st: State, maps: seq<LinkMap>): Snapshot<LinkMap>
    requires Elems(maps) <= st.Keys
  {
    Snapshot<LinkMap>.Snapshot(
      maps,
      map m: LinkMap | m in Elems(maps) ::
        Elems(if st[m].view.initfini == [] then [] else st[m].view.initfini[1..]) + Elems(st[m].reldeps),
      map m: LinkMap | m in Elems(maps) :: st[m].count,
      set m: LinkMap | m in Elems(maps) && (!st[m].view.dlopened || st[m].nodelete),
      map m: LinkMap | m in Elems(maps) :: if st[m].initCalled then m.closes else [])
  }

  lemma {:induction false} NobodyCloses(maps: seq<LinkMap>, closes: map<LinkMap, seq<LinkMap>>, m: LinkMap)
    requires forall x | x in maps :: x in closes
    ensures CloseCount(maps, closes, {}, m) == 0
  {
    if maps != [] {
      NobodyCloses(maps[1..], closes, m);
    }
  }

  lemma SnapshotIsValid(st: State, maps: seq<LinkMap>, owner: Owners)
    requires NoDup(maps) && Sane(st, Elems(maps), owner)
    ensures SnapshotOf(st, maps).Valid()
  {
    hide Inside, SnapshotOf;
    var s := Elems(maps);
    forall m | m in s ensures Elems(st[m].view.initfini) <= s && Elems(st[m].reldeps) <= s {
      assert ViewOk(m, st[m].view, s, StartupIn(st, s));
    }
    hide *;
    SnapshotCloses(st, maps);
  }

  lemma SnapshotCloses(st: State, maps: seq<LinkMap>)
    requires NoDup(maps) && Elems(maps) <= st.Keys
    requires forall m | m in Elems(maps) :: Elems(st[m].view.initfini) <= Elems(maps) && Elems(st[m].reldeps) <= Elems(maps)
    ensures SnapshotOf(st, maps).Valid()
  {
    var w := SnapshotOf(st, maps);
    forall m, d | m in w.deps && d in w.deps[m] ensures d in Elems(maps) {
      var f := st[m].view.initfini;
      if f != [] && d in f[1..] {
        assert d in f;
      }
    }
  }

  lemma CollectionStarts(st: State, maps: seq<LinkMap>, entries: seq<LinkMap>, owner: Owners)
    requires ValidState(st, maps, entries, owner)
    ensures SnapshotOf(st, maps).Valid() && PassInv(st, maps, entries, SnapshotOf(st, maps), {}, owner)
  {
    SnapshotIsValid(st, maps, owner);
    SnapshotParts(st, maps, entries, owner);
    hide Sane, Listed, Counted, Known, SoundSoFar, SnapshotOf, ValidState;
    NothingDeadIsSound(SnapshotOf(st, maps));
    WithoutIsId(maps, {});
  }

  lemma SnapshotParts(st: State, maps: seq<LinkMap>, entries: seq<LinkMap>, owner: Owners)
    requires ValidState(st, maps, entries, owner) && SnapshotOf(st, maps).Valid()
    ensures Sane(st, Elems(maps), owner) && Listed(st, entries, Elems(maps))
    ensures Known(st, SnapshotOf(st, maps)) && Counted(st, SnapshotOf(st, maps), {}) && SnapshotOf(st, maps).maps == maps
  {
    SnapshotKnown(st, maps, entries, owner);
    hide Sane, Listed, CountAfter, Counted, Known;
    SnapshotCounts(st, maps);
  }

  lemma SnapshotKnown(st: State, maps: seq<LinkMap>, entries: seq<LinkMap>, owner: Owners)
    requires ValidState(st, maps, entries, owner)
    ensures Elems(maps) <= st.Keys && Known(st, SnapshotOf(st, maps))
  {
    assert Elems(maps) <= st.Keys;
    hide Sane, Listed;
  }

  lemma SnapshotCounts(st: State, maps: seq<LinkMap>)
    requires Elems(maps) <= st.Keys && SnapshotOf(st, maps).Valid()
    ensures Counted(st, SnapshotOf(st, maps), {})
  {
    var w := SnapshotOf(st, maps);
    NobodyClosedYet(w);
    hide CountAfter;
    assert forall m | m in w.maps :: m in Elems(maps);
  }

  lemma NobodyClosedYet(w: Snapshot<LinkMap>)
    requires w.Valid()
    ensures forall m | m in w.maps :: CountAfter(w, {}, m) == w.count[m]
  {
    forall m | m in w.maps ensures CountAfter(w, {}, m) == w.count[m] {
      NobodyCloses(w.maps, w.closes, m);
    }
  }

  /** A pass that asks for another one has unloaded something, and has left something loaded. */
  lemma RerunMakesProgress(w: Snapshot<LinkMap>, gone: set<LinkMap>)
    requires w.Valid() && SoundSoFar(w, gone) && Roots(w, Garbage(w, gone)) != Roots(w, gone)
    ensures |Without(w.maps, Garbage(w, gone))| < |Without(w.maps, gone)|
    ensures Without(w.maps, Garbage(w, gone)) != []
  {
    var next := Garbage(w, gone);
    MarkOnSurvivors(w, gone);
    RootsAreAntitone(w, gone, next);
    ReachContainsRoots(w.deps, Roots(w, gone));
    assert next != gone;
    hide Reach, CountAfter;
    var x :| x in next && x !in gone;
    WithoutTwice(w.maps, gone, next);
    assert gone + next == next;
    WithoutMembers(w.maps, gone);
    WithoutShrinks(Without(w.maps, gone), next, x);
    var r :| r in Roots(w, gone);
    WithoutMembers(w.maps, next);
    assert r in Without(w.maps, next);
  }

  lemma {:induction false} WithoutShrinks(s: seq<LinkMap>, dead: set<LinkMap>, x: LinkMap)
    requires x in s && x in dead
    ensures |Without(s, dead)| < |s|
  {
    var init, last := s[..|s|-1], s[|s|-1];
    if last != x {
      assert s == init + [last];
      WithoutShrinks(init, dead, x);
    }
  }

  /** When a collection ends, exactly what the roots reach is left. */
  lemma FixedPointIsCollected(e: set<LinkMap>, maps: seq<LinkMap>, entries: seq<LinkMap>,
                              w: Snapshot<LinkMap>, gone: set<LinkMap>, owner: Owners)
    requires PassInv(StateOf(e), maps, entries, w, gone, owner) && gone == Garbage(w, gone)
    ensures Elems(maps) == Reach(DepGraph(Elems(maps)), RootsOf(Elems(maps)))
  {
    hide *;
    MarkFindsGarbage(e, maps, entries, w, gone, owner);
    var s := Elems(maps);
    var r := Reach(DepGraph(s), RootsOf(s));
    ReachStaysInside(s);
    assert s - r == gone - gone;
    assert forall x | x in s :: x in s - r || x in r;
    assert forall x | x in gone - gone :: false;
  }

  lemma ReachStaysInside(s: set<LinkMap>)
    ensures Reach(DepGraph(s), RootsOf(s)) <= s
  {
    hide Deps, RootsOf;
  }

  lemma CollectionEnds(st0: State, maps0: seq<LinkMap>, entries0: seq<LinkMap>, owner0: Owners,
                       st: State, maps: seq<LinkMap>, entries: seq<LinkMap>, gone: set<LinkMap>, owner: Owners)
    requires ValidState(st0, maps0, entries0, owner0)
    requires var w := SnapshotOf(st0, maps0);
      w.Valid() && PassInv(st, maps, entries, w, gone, owner) && OutsideKept(st0, st, w) && IsLeastDead(w, gone)
    ensures ValidState(st, maps, entries, owner) && maps == Without(maps0, gone) && Elems(maps) <= st.Keys
  {
    var w := SnapshotOf(st0, maps0);
    LeastDeadHasNoRoots(w, gone);
    WithoutNoDup(w.maps, gone);
    WithoutMembers(w.maps, gone);
    hide Sane, Listed, Known, SoundSoFar, IsLeastDead, CountAfter, Garbage;
    forall m | m in st && m !in maps ensures st[m].count == 0 {
      if m in maps0 {
        assert m in gone && m !in Roots(w, gone);
      }
    }
  }

  /** The close of m takes its last direct use away. */
  predicate LosesLastUse(m: LinkMap)
    reads m`directOpencount, m`dlopened, m`nodelete
  {
    m.dlopened && !m.nodelete && m.directOpencount == 1
  }

  /** The open counts once m has been counted down. */
  ghost function AfterDrop(st: State, m: LinkMap): (r: State)
    requires m in st
    ensures r.Keys == st.Keys
  {
    if st[m].nodelete || st[m].count == 0 then st else st[m := st[m].(count := st[m].count - 1)]
  }

  lemma DroppedState(st: State, m: LinkMap, e: set<LinkMap>)
    requires e == st.Keys && m in e && st[m].count > 0 && !st[m].nodelete
    requires ObjOf(m) == st[m].(count := st[m].count - 1)
    requires forall x | x in e && x != m :: ObjOf(x) == st[x]
    ensures StateOf(e) == AfterDrop(st, m)
  {
    hide ObjOf;
  }

  lemma DropKeepsValid(st: State, m: LinkMap, maps: seq<LinkMap>, entries: seq<LinkMap>, owner: Owners)
    requires ValidState(st, maps, entries, owner) && m in maps
    ensures m in st && ValidState(AfterDrop(st, m), maps, entries, owner)
  {
    hide Inside, DepsInside;
    assert StartupIn(AfterDrop(st, m), Elems(maps)) == StartupIn(st, Elems(maps));
  }

  lemma NothingDropped(e: set<LinkMap>, m: LinkMap)
    requires m in e && (m.nodelete || m.directOpencount == 0)
    ensures m in StateOf(e) && AfterDrop(StateOf(e), m) == StateOf(e) && !LosesLastUse(m)
  {
  }

  /** Objects that are not in the snapshot keep their counts. */
  ghost predicate OutsideKept(st: State, st': State, w: Snapshot<LinkMap>) {
    st'.Keys == st.Keys && forall m | m in st && m !in w.maps :: st'[m].count == st[m].count
  }

  lemma OutsideStart(st: State, w: Snapshot<LinkMap>)
    ensures OutsideKept(st, st, w)
  {
  }

  lemma OutsideStep(st: State, mid: State, st': State, s: set<LinkMap>, dead: set<LinkMap>, w: Snapshot<LinkMap>, owner': Owners)
    requires OutsideKept(st, mid, w) && SweptState(mid, st', s, dead, w, owner')
    ensures OutsideKept(st, st', w)
  {
  }

  lemma KeysOfState(e: set<LinkMap>)
    ensures StateOf(e).Keys == e
  {
  }

  /** How often the termination functions of the dead objects close x; an object that has not been initialized runs
      none. */
  ghost function ClosesOf(maps: seq<LinkMap>, dead: set<LinkMap>, x: LinkMap): nat
    reads Elems(maps)`initCalled
  {
    if maps == [] then 0
    else
      var init, last := maps[..|maps|-1], maps[|maps|-1];
      assert last in maps && forall m | m in init :: m in maps;
      ClosesOf(init, dead, x) + if last in dead && last.initCalled then multiset(last.closes)[x] else 0
  }

  lemma {:induction false} CloseCountLast(maps: seq<LinkMap>, last: LinkMap, closes: map<LinkMap, seq<LinkMap>>,
                                          dead: set<LinkMap>, x: LinkMap)
    requires last in closes && forall m | m in maps :: m in closes
    ensures CloseCount(maps + [last], closes, dead, x) ==
            CloseCount(maps, closes, dead, x) + if last in dead then multiset(closes[last])[x] else 0
  {
    if maps == [] {
      assert [last][1..] == [];
    } else {
      assert (maps + [last])[1..] == maps[1..] + [last];
      CloseCountLast(maps[1..], last, closes, dead, x);
    }
  }

  lemma {:induction false} ClosesAre(maps: seq<LinkMap>, closes: map<LinkMap, seq<LinkMap>>, dead: set<LinkMap>, x: LinkMap)
    requires forall m | m in maps :: m in closes && closes[m] == if m.initCalled then m.closes else []
    ensures CloseCount(maps, closes, dead, x) == ClosesOf(maps, dead, x)
  {
    if maps != [] {
      var init, last := maps[..|maps|-1], maps[|maps|-1];
      assert maps == init + [last];
      CloseCountLast(init, last, closes, dead, x);
      ClosesAre(init, closes, dead, x);
    }
  }

  /** An open count less the closes, each of which takes one away while there is one. */
  ghost predicate IsLeft(now: nat, was: nat, closes: nat) {
    if was <= closes then now == 0 else now + closes == was
  }

  ghost function CountsOf(s: set<LinkMap>): map<LinkMap, nat>
    reads s`directOpencount
  {
    map m: LinkMap | m in s :: m.directOpencount
  }

  /** What a collection has made of the objects that were loaded: those it has unloaded were loaded by dlopen, are
      not NODELETE, and nobody holds them open; the open counts of all are less by the closes of the unloaded. */
  ghost predicate CountedRight(maps: seq<LinkMap>, was: map<LinkMap, nat>, dead: set<LinkMap>)
    reads Elems(maps)`initCalled, Elems(maps)`nodelete, Elems(maps)`dlopened, Elems(maps)`directOpencount
  {
    && dead <= Elems(maps) <= was.Keys
    && (forall m | m in maps && m in dead :: m.dlopened && !m.nodelete && m.directOpencount == 0)
    && forall m | m in maps && !m.nodelete :: IsLeft(m.directOpencount, was[m], ClosesOf(maps, dead, m))
  }

  lemma CollectionCounts(w: Snapshot<LinkMap>, dead: set<LinkMap>)
    requires Matches(w) && CountsAfter(w, dead) && IsLeastDead(w, dead)
    ensures CountedRight(w.maps, w.count, dead)
  {
    LeastDeadHasNoRoots(w, dead);
    hide Reach, Deps;
    forall m | m in w.maps && !m.nodelete ensures IsLeft(m.directOpencount, w.count[m], ClosesOf(w.maps, dead, m)) {
      CloseCountIs(w, dead, m);
    }
    forall m | m in w.maps && m in dead ensures m.dlopened && !m.nodelete && m.directOpencount == 0 {
      assert m !in Roots(w, dead);
    }
  }

  lemma CloseCountIs(w: Snapshot<LinkMap>, dead: set<LinkMap>, m: LinkMap)
    requires Matches(w) && m in w.maps
    ensures CountAfter(w, dead, m) == Monus(w.count[m], ClosesOf(w.maps, dead, m))
  {
    hide Deps;
    ClosesAre(w.maps, w.closes, dead, m);
  }

  /** The same for a call of dlclose, which takes one direct use of m away, and perhaps unloads the dead. */
  ghost predicate CountedAfterClose(maps: seq<LinkMap>, was: map<LinkMap, nat>, dead: set<LinkMap>, m: LinkMap)
    reads Elems(maps)`initCalled, Elems(maps)`nodelete, Elems(maps)`dlopened, Elems(maps)`directOpencount
  {
    && dead <= Elems(maps) <= was.Keys
    && (forall x | x in maps && x in dead :: x.dlopened && !x.nodelete && x.directOpencount == 0)
    && forall x | x in maps && !x.nodelete ::
         IsLeft(x.directOpencount, was[x], (if x == m then 1 else 0) + ClosesOf(maps, dead, x))
  }

  lemma UseIsLost(m: LinkMap)
    ensures LosesLastUse(m) <==> !(m.directOpencount > 1 || m.directOpencount == 0 || !m.dlopened || m.nodelete)
  {
  }

  lemma CountsAre(maps: seq<LinkMap>)
    ensures CountsOf(Elems(maps)).Keys == Elems(maps) && forall x | x in maps :: CountsOf(Elems(maps))[x] == x.directOpencount
  {
  }

  lemma NothingClosed(maps: seq<LinkMap>, was: map<LinkMap, nat>, m: LinkMap)
    requires was.Keys == Elems(maps) && forall x | x in maps :: was[x] == x.directOpencount
    requires m.nodelete || m.directOpencount == 0
    ensures CountedAfterClose(maps, was, {}, m)
  {
    forall x | x in maps ensures ClosesOf(maps, {}, x) == 0 {
      NobodyDead(maps, x);
    }
  }

  /** m has been counted down. */
  lemma DropCounted(maps: seq<LinkMap>, was: map<LinkMap, nat>, m: LinkMap)
    requires was.Keys == Elems(maps) && m in maps && was[m] == m.directOpencount + 1
    requires forall x | x in maps && x != m :: was[x] == x.directOpencount
    ensures CountedAfterClose(maps, was, {}, m)
    ensures CountsOf(Elems(maps)).Keys == Elems(maps) && was[m] == CountsOf(Elems(maps))[m] + 1
    ensures forall x | x in maps && x != m :: was[x] == CountsOf(Elems(maps))[x]
  {
    forall x | x in maps ensures ClosesOf(maps, {}, x) == 0 {
      NobodyDead(maps, x);
    }
  }

  lemma CountedTogether(maps: seq<LinkMap>, was: map<LinkMap, nat>, mid: map<LinkMap, nat>, dead: set<LinkMap>, m: LinkMap)
    requires CountedRight(maps, mid, dead) && m in maps && was.Keys == mid.Keys && was[m] == mid[m] + 1
    requires forall x | x in maps && x != m :: was[x] == mid[x]
    ensures CountedAfterClose(maps, was, dead, m)
  {
    hide ClosesOf;
  }

  lemma {:induction false} NobodyDead(maps: seq<LinkMap>, x: LinkMap)
    ensures ClosesOf(maps, {}, x) == 0
  {
    if maps != [] {
      NobodyDead(maps[..|maps|-1], x);
    }
  }

  lemma LeastDeadHasNoRoots(w: Snapshot<LinkMap>, dead: set<LinkMap>)
    requires w.Valid() && IsLeastDead(w, dead)
    ensures dead == Garbage(w, dead) && dead !! Roots(w, dead)
  {
    hide CountAfter, Reach;
    ReachContainsRoots(w.deps, Roots(w, dead));
  }
}
