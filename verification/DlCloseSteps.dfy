/** Bookkeeping of the loops of a pass: positions, tallies, and what the loops rely on. */
module DlCloseSteps {
  import opened CloseTheory
  import opened DlCloseMark
  import opened DlCloseState
  import opened Filtering
  import opened LinkMaps

  datatype CloseState = NotPending | Pending | Rerun

  // ---------- the doubly linked list ----------

  ghost predicate LinkedAs(s: seq<LinkMap>)
    reads Elems(s)`next, Elems(s)`prev
  {
    && NoDup(s)
    && (s != [] ==> s[0].prev == null && s[|s|-1].next == null)
    && forall i, j | 0 <= i < j < |s| && j == i + 1 :: s[i].next == s[j] && s[j].prev == s[i]
  }

  /** The links that lead past the map at place k. */
  ghost predicate LinkedPast(s: seq<LinkMap>, k: nat)
    reads Elems(s)`next, Elems(s)`prev
  {
    && k < |s| && NoDup(s)
    && (forall i, j | 0 <= i < j < |s| && j == i + 1 && i != k && j != k :: s[i].next == s[j] && s[j].prev == s[i])
    && (k > 0 ==> s[0].prev == null && s[k-1].next == if k + 1 < |s| then s[k+1] else null)
    && (k + 1 < |s| ==> s[|s|-1].next == null && s[k+1].prev == if k > 0 then s[k-1] else null)
  }

  lemma LinkedWithout(s: seq<LinkMap>, k: nat)
    requires LinkedPast(s, k)
    ensures LinkedAs(s[..k] + s[k+1..])
  {
    var now := s[..k] + s[k+1..];
    assert forall i | 0 <= i < |now| :: now[i] == s[if i < k then i else i + 1];
    forall i, j | 0 <= i < j < |now| && j == i + 1 ensures now[i].next == now[j] && now[j].prev == now[i] {
      var a, b := if i < k then i else i + 1, if j < k then j else j + 1;
      assert now[i] == s[a] && now[j] == s[b];
      if i + 1 != k {
        assert b == a + 1;
      }
    }
  }

  lemma StillWithin(maps: seq<LinkMap>, dead: set<LinkMap>)
    ensures Elems(Without(maps, dead)) <= Elems(maps)
    ensures InlineArrays(Elems(Without(maps, dead))) <= InlineArrays(Elems(maps))
  {
    WithoutElems(maps, dead);
  }

  lemma PassParts(st: State, maps: seq<LinkMap>, entries: seq<LinkMap>,
                  w: Snapshot<LinkMap>, gone: set<LinkMap>, owner: Owners)
    requires PassInv(st, maps, entries, w, gone, owner)
    ensures Sane(st, Elems(maps), owner) && Counted(st, w, gone) && Known(st, w) && w.Valid()
    ensures Elems(maps) == w.All() - gone && Elems(maps) <= w.All() && gone !! Elems(maps)
    ensures SoundSoFar(w, gone) && maps == Without(w.maps, gone)
  {
    hide Sane, Known, SoundSoFar, Listed;
    SurvivorsAre(maps, w, gone);
  }

  lemma PassMayModify(st: State, maps: seq<LinkMap>, entries: seq<LinkMap>,
                      w: Snapshot<LinkMap>, gone: set<LinkMap>, owner: Owners, s: set<LinkMap>)
    requires PassInv(st, maps, entries, w, gone, owner) && ((gone == {} && s == Elems(maps)) || w.All() <= s)
    ensures w.Valid() && w.All() <= s && Elems(maps) <= s && InlineArrays(Elems(maps)) <= InlineArrays(s)
    ensures SoundSoFar(w, gone) && maps == Without(w.maps, gone)
  {
    hide Sane, Known, SoundSoFar, Listed, Without;
    SurvivorsAre(maps, w, gone);
  }

  lemma WithoutMore(entries: seq<LinkMap>, w: Snapshot<LinkMap>, gone: set<LinkMap>)
    requires w.Valid() && SoundSoFar(w, gone)
    ensures Without(Without(entries, gone), Garbage(w, gone) - gone) == Without(entries, Garbage(w, gone))
  {
    MarkOnSurvivors(w, gone);
    hide Garbage, SoundSoFar;
    WithoutTwice(entries, gone, Garbage(w, gone) - gone);
    assert gone + (Garbage(w, gone) - gone) == Garbage(w, gone);
  }

  /** What the rest of a pass needs to know after its sweep. */
  lemma SweepMeans(e: set<LinkMap>, st: State, maps: seq<LinkMap>, entries: seq<LinkMap>, s: set<LinkMap>, dead: set<LinkMap>,
                   w: Snapshot<LinkMap>, gone: set<LinkMap>, owner: Owners, owner': Owners)
    requires PassInv(st, maps, entries, w, gone, owner) && s == Elems(maps)
    requires dead == Garbage(w, gone) - gone && gone <= Garbage(w, gone)
    requires SweptState(st, StateOf(e), s, dead, w, owner') && CountsAfter(w, gone + dead)
    ensures PassInv(StateOf(e), Without(maps, dead), Without(entries, dead), w, Garbage(w, gone), owner')
    ensures RootsOf(w.All()) == Roots(w, Garbage(w, gone))
    ensures ListsGlobals(entries, s) && RemovedAre(s, dead) && dead <= s && forall m | m in dead :: m.dlopened
  {
    hide *;
    PassParts(st, maps, entries, w, gone, owner);
    NextDead(w, gone, dead);
    CountedAfterSweep(st, e, s, dead, w, gone, gone + dead, owner');
    CountedInHeap(e, w, gone + dead);
    RootsMatch(w, gone + dead);
    DeadAreApart(st, s, w, gone, owner);
    PassKeepsInv(st, StateOf(e), maps, entries, w, gone, dead, owner, owner');
    SweptGlobals(e, st, maps, entries, dead, w, gone, owner, owner');
  }

  lemma NextDead(w: Snapshot<LinkMap>, gone: set<LinkMap>, dead: set<LinkMap>)
    requires w.Valid() && dead == Garbage(w, gone) - gone && gone <= Garbage(w, gone)
    ensures gone + dead == Garbage(w, gone)
  {
  }

  lemma SweptGlobals(e: set<LinkMap>, st: State, maps: seq<LinkMap>, entries: seq<LinkMap>, dead: set<LinkMap>,
                     w: Snapshot<LinkMap>, gone: set<LinkMap>, owner: Owners, owner': Owners)
    requires PassInv(st, maps, entries, w, gone, owner) && SweptState(st, StateOf(e), Elems(maps), dead, w, owner')
    requires forall m | m in dead :: m in Elems(maps) && st[m].view.dlopened
    ensures ListsGlobals(entries, Elems(maps)) && RemovedAre(Elems(maps), dead) && dead <= Elems(maps)
    ensures forall m | m in dead :: m.dlopened
  {
    hide Sane, Counted, Known, SoundSoFar, Without, SweptView;
    assert forall m | m in Elems(maps) :: StateOf(e)[m] == ObjOf(m);
  }

  lemma WithoutNothing(s: seq<LinkMap>)
    ensures Without(s, {}) == s
  {
    WithoutIsId(s, {});
  }

  lemma MembersAt(maps: seq<LinkMap>)
    ensures forall i | 0 <= i < |maps| :: maps[i] in Elems(maps)
  {
  }

  lemma ListHasNoDup(s: seq<LinkMap>)
    requires LinkedAs(s)
    ensures NoDup(s)
  {
  }

  lemma SwapKeepsElems(s: seq<LinkMap>, i: nat, j: nat)
    requires i < |s| && j < |s| && NoDup(s)
    ensures var t := s[i := s[j]][j := s[i]]; NoDup(t) && Elems(t) == Elems(s)
  {
    var t := s[i := s[j]][j := s[i]];
    forall x | x in s ensures x in t {
      var k :| 0 <= k < |s| && s[k] == x;
      assert t[if k == i then j else if k == j then i else k] == x;
    }
  }

  lemma UnloadGlobalFits(entries: seq<LinkMap>, s: set<LinkMap>, dead: set<LinkMap>)
    requires ListsGlobals(entries, s) && dead <= s && forall m | m in dead :: m.dlopened
    ensures |GlobalsOf(dead)| + |Without(entries, dead)| == |entries|
  {
    WithoutLength(entries, dead);
    assert dead * Elems(entries) == GlobalsOf(dead);
  }

  lemma NoneBeforeFirst(was: seq<LinkMap>, maps: seq<LinkMap>, pos: map<LinkMap, nat>, dead: set<LinkMap>,
                        done: set<LinkMap>, firstLoaded: nat)
    requires IsPositions(maps, pos) && FirstFits(maps, |maps|, dead, firstLoaded)
    requires done == set m | m in pos && pos[m] < firstLoaded
    ensures done * dead == {} && was == Without(was, done * dead) && Reached(pos, done, firstLoaded)
  {
    assert forall m | m in pos && m in dead :: maps[pos[m]] == m;
    assert done * dead == {};
    WithoutIsId(was, {});
  }

  lemma UnlinkStep(i: nat, was: seq<LinkMap>, maps: seq<LinkMap>, used: seq<bool>, pos: map<LinkMap, nat>,
                   done: set<LinkMap>, dead: set<LinkMap>)
    requires i < |maps| == |used| && IsPositions(maps, pos) && UsedFits(maps, used, dead) && Reached(pos, done, i)
    ensures maps[i] !in done && (used[i] <==> maps[i] !in dead) && Reached(pos, done + {maps[i]}, i + 1)
    ensures used[i] ==> (done + {maps[i]}) * dead == done * dead
    ensures !used[i] ==> Without(was, (done + {maps[i]}) * dead) == Without(Without(was, done * dead), {maps[i]})
  {
    var m := maps[i];
    if used[i] {
      assert (done + {m}) * dead == done * dead;
    } else {
      assert (done + {m}) * dead == done * dead + {m};
      WithoutTwice(was, done * dead, {m});
    }
  }

  lemma StillLinked(was: seq<LinkMap>, done: set<LinkMap>, dead: set<LinkMap>, m: LinkMap, pos: map<LinkMap, nat>)
    requires m in pos && pos.Keys == Elems(was) && m !in done
    ensures m in Without(was, done * dead) && Elems(Without(was, done * dead)) <= pos.Keys
  {
    WithoutMembers(was, done * dead);
    WithoutElems(was, done * dead);
  }

  lemma AllUnlinked(was: seq<LinkMap>, maps: seq<LinkMap>, pos: map<LinkMap, nat>, done: set<LinkMap>, i: nat,
                    dead: set<LinkMap>)
    requires IsPositions(maps, pos) && pos.Keys == Elems(was) && Reached(pos, done, i) && i >= |maps|
    ensures Without(was, done * dead) == Without(was, dead)
  {
    assert forall m | m in was :: m in Elems(was);
    WithoutAgrees(was, done * dead, dead);
  }

  /** done holds the first i maps. */
  ghost predicate Reached(pos: map<LinkMap, nat>, done: set<LinkMap>, i: nat) {
    done <= pos.Keys && forall m | m in pos :: m in done <==> pos[m] < i
  }

  ghost predicate IsPositions(maps: seq<LinkMap>, pos: map<LinkMap, nat>) {
    && (forall m | m in pos :: pos[m] < |maps| && maps[pos[m]] == m)
    && (forall i | 0 <= i < |maps| :: maps[i] in pos && pos[maps[i]] == i)
  }

  ghost predicate UsedFits(maps: seq<LinkMap>, used: seq<bool>, dead: set<LinkMap>) {
    |used| == |maps| && forall i | 0 <= i < |maps| :: used[i] <==> maps[i] !in dead
  }

  /** The step the sweep is about to take. */
  lemma AtPosition(i: nat, m: LinkMap, maps: seq<LinkMap>, used: seq<bool>, pos: map<LinkMap, nat>, done: set<LinkMap>,
                   s: set<LinkMap>, was: map<LinkMap, View>, dead: set<LinkMap>, globals: set<LinkMap>,
                   w: Snapshot<LinkMap>, gone: set<LinkMap>)
    requires i < |maps| && m == maps[i] && IsPositions(maps, pos) && UsedFits(maps, used, dead)
    requires Reached(pos, done, i) && pos.Keys == s && SweepReady(s, was, dead, globals, w, gone)
    ensures m in s && m !in done && (used[i] <==> m !in dead) && Reached(pos, done + {m}, i + 1)
    ensures m.scopeMem in InlineArrays(s)
  {
    hide Matches;
  }

  /** The state asks for another pass exactly when some root has been lost since the pass began. */
  ghost predicate StateFits(state: CloseState, roots: set<LinkMap>, now: set<LinkMap>) {
    now <= roots && state == if now == roots then Pending else Rerun
  }

  lemma StateStep(before: CloseState, after: CloseState, roots: set<LinkMap>, mid: set<LinkMap>, now: set<LinkMap>)
    requires StateFits(before, roots, mid) && now <= mid && after == if now == mid then before else Rerun
    ensures StateFits(after, roots, now)
  {
  }

  ghost predicate Tally(done: set<LinkMap>, dead: set<LinkMap>, globals: set<LinkMap>, unloadAny: bool, unloadGlobal: nat) {
    && (unloadAny <==> done * dead != {})
    && unloadGlobal == |done * dead * globals|
  }

  /** None of the first n maps that are dead comes before firstLoaded. */
  ghost predicate FirstFits(maps: seq<LinkMap>, n: nat, dead: set<LinkMap>, firstLoaded: nat) {
    forall k | 0 <= k < n && k < |maps| && maps[k] in dead :: firstLoaded <= k
  }

  lemma TallyStep(m: LinkMap, i: nat, maps: seq<LinkMap>, done: set<LinkMap>, dead: set<LinkMap>, globals: set<LinkMap>,
                  isUsed: bool, was: (bool, nat, nat), unloadAny: bool, unloadGlobal: nat, firstLoaded: nat)
    requires i < |maps| && maps[i] == m && m !in done && (isUsed <==> m !in dead) && (m.global <==> m in globals)
    requires Tally(done, dead, globals, was.0, was.1) && FirstFits(maps, i, dead, was.2)
    requires unloadAny == (was.0 || !isUsed)
    requires unloadGlobal == was.1 + if !isUsed && m.global then 1 else 0
    requires firstLoaded == if (!isUsed || m.dlopened) && i < was.2 then i else was.2
    ensures Tally(done + {m}, dead, globals, unloadAny, unloadGlobal) && FirstFits(maps, i + 1, dead, firstLoaded)
  {
    if m in dead && m in globals {
      assert (done + {m}) * dead * globals == done * dead * globals + {m};
    } else {
      assert (done + {m}) * dead * globals == done * dead * globals;
    }
    if m in dead {
      assert m in (done + {m}) * dead;
    } else {
      assert (done + {m}) * dead == done * dead;
    }
  }

  lemma GlobalsStay(m: LinkMap, s: set<LinkMap>, was: map<LinkMap, View>, dead: set<LinkMap>, globals: set<LinkMap>,
                    w: Snapshot<LinkMap>, gone: set<LinkMap>)
    requires SweepReady(s, was, dead, globals, w, gone) && m in s
    ensures m.global <==> m in globals
  {
  }

  lemma SweepEnd(maps: seq<LinkMap>, pos: map<LinkMap, nat>, done: set<LinkMap>, dead: set<LinkMap>, globals: set<LinkMap>,
                 was: map<LinkMap, View>, w: Snapshot<LinkMap>, gone: set<LinkMap>,
                 unloadAny: bool, unloadGlobal: nat, state: CloseState, roots: set<LinkMap>)
    requires SweepReady(pos.Keys, was, dead, globals, w, gone) && dead <= pos.Keys
    requires Reached(pos, done, |maps|) && IsPositions(maps, pos)
    requires Tally(done, dead, globals, unloadAny, unloadGlobal)
    requires StateFits(state, roots, RootsOf(w.All()))
    ensures done == pos.Keys && done * dead == dead
    ensures unloadAny <==> dead != {}
    ensures unloadGlobal == |GlobalsOf(dead)|
    ensures RootsOf(w.All()) <= roots
    ensures state == if RootsOf(w.All()) == roots then Pending else Rerun
  {
    hide RootsOf, Matches;
    assert done == pos.Keys;
    assert done * dead == dead;
    assert done * dead * globals == GlobalsOf(dead);
  }

  lemma Positions(maps: seq<LinkMap>, s: set<LinkMap>) returns (pos: map<LinkMap, nat>)
    requires NoDup(maps) && Elems(maps) == s
    ensures pos.Keys == s && IsPositions(maps, pos)
  {
    pos := map m | m in s :: var k :| 0 <= k < |maps| && maps[k] == m; k;
  }

  ghost function GlobalsOf(s: set<LinkMap>): set<LinkMap>
    reads s`global
  {
    set m | m in s && m.global
  }

  /** What the sweep can rely on before its first step. */
  lemma SweepStart(s: set<LinkMap>, was: map<LinkMap, View>, dead: set<LinkMap>,
                   w: Snapshot<LinkMap>, gone: set<LinkMap>)
    requires NoDangling(s) && was == Views(s) && Matches(w) && s <= w.All() && gone !! s
    requires forall m | m in s :: m.idx == IDX_STILL_USED <==> m !in dead
    requires forall m, c | m in s && c in m.closes :: c in w.All() || c.directOpencount == 0
    ensures SweepReady(s, was, dead, GlobalsOf(s), w, gone)
    ensures SweptSoFar(s, was, {}, dead)
  {
    hide RootsOf, SweptView, Deps, UpToNull, SweptSoFar;
    NothingSwept(s, dead);
  }

  lemma NothingSwept(s: set<LinkMap>, dead: set<LinkMap>)
    requires NoDangling(s)
    ensures SweptSoFar(s, Views(s), {}, dead)
  {
    hide SweptView, Deps;
  }

  lemma FirstStep(s: set<LinkMap>, was: map<LinkMap, View>, dead: set<LinkMap>, pos: map<LinkMap, nat>, maps: seq<LinkMap>,
                  used: seq<bool>, globals: set<LinkMap>, w: Snapshot<LinkMap>, gone: set<LinkMap>, roots: set<LinkMap>)
    requires SweepReady(s, was, dead, globals, w, gone) && CountsAfter(w, gone) && RemovedAre(s, {})
    ensures w.Valid() && was.Keys == s && CountsAfter(w, gone + {} * dead) && RemovedAre(s, {} * dead)
    ensures Reached(pos, {}, 0) && Tally({}, dead, globals, false, 0) && FirstFits(maps, 0, dead, |maps|)
        && StateFits(Pending, roots, roots)
  {
    hide CountAfter, RootsOf;
    assert gone + {} * dead == gone;
  }

  /** What the sweep relies on throughout, and changes nothing of. */
  ghost predicate SweepReady(s: set<LinkMap>, was: map<LinkMap, View>, dead: set<LinkMap>, globals: set<LinkMap>,
                             w: Snapshot<LinkMap>, gone: set<LinkMap>)
    reads Elems(w.maps)`dlopened, Elems(w.maps)`nodelete, Elems(w.maps)`initCalled
    reads Elems(w.maps)`initfini, Elems(w.maps)`reldeps
    reads s`idx, s`depOrder, s`initfini, s`global, (set m, c | m in s && c in m.closes :: c)`directOpencount
  {
    && Matches(w) && was.Keys == s
    && forall m | m in s ::
         && m in w.maps && m !in gone && |m.depOrder| == |m.initfini| && Inside(was[m], s)
         && (m.idx == IDX_STILL_USED <==> m !in dead)
         && (m.global <==> m in globals)
         && forall c | c in m.closes :: c in w.All() || c.directOpencount == 0
  }
}
