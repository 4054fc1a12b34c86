/** The mark phase of a close: which objects of the namespace are still used. */
module DlCloseMark {
  import opened Filtering
  import opened Reachability
  import opened LinkMaps

  /** The init/fini dependencies, which follow the object itself in l_initfini. */
  ghost function FiniDeps(m: LinkMap): seq<LinkMap>
    reads m`initfini
  {
    if m.initfini == [] then [] else m.initfini[1..]
  }

  /** What the mark phase follows from an object. */
  ghost function Deps(m: LinkMap): set<LinkMap>
    reads m`initfini, m`reldeps
  {
    Elems(FiniDeps(m)) + Elems(m.reldeps)
  }

  ghost function DepGraph(s: set<LinkMap>): map<LinkMap, set<LinkMap>>
    reads s`initfini, s`reldeps
  {
    map m | m in s :: Deps(m)
  }

  /** What keeps an object loaded by itself. */
  predicate IsRoot(m: LinkMap)
    reads m`dlopened, m`directOpencount, m`nodelete
  {
    !(m.dlopened && m.directOpencount == 0 && !m.nodelete)
  }

  ghost function RootsOf(s: set<LinkMap>): set<LinkMap>
    reads s`dlopened, s`directOpencount, s`nodelete
  {
    set m | m in s && IsRoot(m)
  }

  /** maps lists the objects of pos, each at its own index. */
  ghost predicate Indexed(maps: array<LinkMap>, pos: map<LinkMap, nat>)
    reads maps
  {
    && (forall i | 0 <= i < maps.Length :: maps[i] in pos && pos[maps[i]] == i)
    && (forall m | m in pos :: pos[m] < maps.Length && maps[pos[m]] == m)
  }

  /** flags holds a one exactly for the objects of s. */
  ghost predicate Tracks(flags: array<bool>, maps: array<LinkMap>, s: set<LinkMap>)
    reads flags, maps
  {
    flags.Length == maps.Length && forall i | 0 <= i < maps.Length :: flags[i] <==> maps[i] in s
  }

  /** A map's l_idx is its index until the map has been handled. */
  ghost predicate IdxFollows(pos: map<LinkMap, nat>, handled: set<LinkMap>)
    reads pos.Keys`idx
  {
    forall m | m in pos :: m.idx == if m in handled then IDX_STILL_USED else pos[m]
  }

  /** Marks every object of one dependency list; the cursor falls back below the lowest new mark. */
  method MarkList(list: seq<LinkMap>, doneIndex: int, maps: array<LinkMap>, used: array<bool>,
                  ghost pos: map<LinkMap, nat>, ghost u: set<LinkMap>, ghost handled: set<LinkMap>)
    returns (cursor: int)
    requires Indexed(maps, pos) && IdxFollows(pos, handled) && handled <= u && Tracks(used, maps, u)
    requires forall m | m in list :: m in pos
    requires -1 <= doneIndex < maps.Length
    modifies used
    ensures Tracks(used, maps, u + Elems(list))
    ensures -1 <= cursor <= doneIndex
    ensures forall m | m in list && m !in u :: cursor < pos[m]
  {
    cursor := doneIndex;
    for j := 0 to |list|
      invariant Tracks(used, maps, u + Elems(list[..j]))
      invariant -1 <= cursor <= doneIndex
      invariant forall m | m in list[..j] && m !in u :: cursor < pos[m]
    {
      var dep := list[j];
      assert list[..j+1] == list[..j] + [dep];
      assert Elems(list[..j+1]) == Elems(list[..j]) + {dep};
      assert maps[pos[dep]] == dep;
      if dep.idx != IDX_STILL_USED {
        assert 0 <= dep.idx < maps.Length;
        if !used[dep.idx] {
          used[dep.idx] := true;
          if dep.idx - 1 < cursor {
            cursor := dep.idx - 1;
          }
        }
      }
    }
    assert list[..|list|] == list;
  }

  /** Handles one needed object: marks it and everything it depends on directly. */
  method HandleObject(doneIndex: nat, maps: array<LinkMap>, used: array<bool>, done: array<bool>,
                      ghost pos: map<LinkMap, nat>, ghost u: set<LinkMap>, ghost handled: set<LinkMap>)
    returns (cursor: int)
    requires used != done && Indexed(maps, pos) && IdxFollows(pos, handled) && handled <= u
    requires Tracks(used, maps, u) && Tracks(done, maps, handled)
    requires doneIndex < maps.Length && !done[doneIndex] && Deps(maps[doneIndex]) <= pos.Keys
    modifies used, done, {maps[doneIndex]}`idx
    ensures IdxFollows(pos, handled + {maps[doneIndex]})
    ensures Tracks(done, maps, handled + {maps[doneIndex]})
    ensures Tracks(used, maps, u + {maps[doneIndex]} + Deps(maps[doneIndex]))
    ensures -1 <= cursor <= doneIndex
    ensures forall m | m in Deps(maps[doneIndex]) && m !in u && m != maps[doneIndex] :: cursor < pos[m]
  {
    var l := maps[doneIndex];
    done[doneIndex] := true;
    used[doneIndex] := true;
    l.idx := IDX_STILL_USED;
    cursor := doneIndex;
    ghost var u', handled' := u + {l}, handled + {l};
    assert Tracks(done, maps, handled') && Tracks(used, maps, u') && IdxFollows(pos, handled');
    if l.initfini != [] {
      cursor := MarkList(l.initfini[1..], cursor, maps, used, pos, u', handled');
    }
    ghost var u'' := u' + Elems(FiniDeps(l));
    cursor := MarkList(l.reldeps, cursor, maps, used, pos, u'', handled');
    assert u'' + Elems(l.reldeps) == u + {l} + Deps(l);
  }

  /** The state of the mark loop: every object below the cursor is settled. */
  ghost predicate MarkInv(pos: map<LinkMap, nat>, cursor: int, u: set<LinkMap>, handled: set<LinkMap>,
                          g: map<LinkMap, set<LinkMap>>, roots: set<LinkMap>)
  {
    && g.Keys == pos.Keys
    && handled <= u <= Reach(g, roots)
    && (forall m | m in handled :: g[m] <= u)
    && (forall m | m in pos && pos[m] < cursor :: m in handled || (m !in u && m !in roots))
  }

  /** A settled mark is exactly reachability. */
  lemma SettledMarkIsReach(pos: map<LinkMap, nat>, cursor: int, u: set<LinkMap>, handled: set<LinkMap>,
                           g: map<LinkMap, set<LinkMap>>, roots: set<LinkMap>)
    requires MarkInv(pos, cursor, u, handled, g, roots) && roots <= g.Keys
    requires forall m | m in pos :: pos[m] < cursor
    ensures u == handled == Reach(g, roots)
  {
    assert u <= handled;
    ReachIsLeast(g, roots, handled);
  }

  /** One object handled: the settled part grows, even though the cursor may have fallen back. */
  lemma HandlingKeepsInv(pos: map<LinkMap, nat>, doneIndex: nat, cursor: int, u: set<LinkMap>, handled: set<LinkMap>,
                         g: map<LinkMap, set<LinkMap>>, roots: set<LinkMap>, l: LinkMap)
    requires MarkInv(pos, doneIndex, u, handled, g, roots) && Closed(g, g.Keys) && roots <= g.Keys
    requires l in pos && pos[l] == doneIndex && (l in roots || l in u)
    requires forall m | m in pos && pos[m] == doneIndex :: m == l
    requires cursor <= doneIndex && forall m | m in g[l] && m !in u && m != l :: cursor < pos[m]
    ensures MarkInv(pos, cursor + 1, u + {l} + g[l], handled + {l}, g, roots)
  {
    ReachContainsRoots(g, roots);
    ReachIsClosed(g, roots);
  }

  lemma SkippingKeepsInv(pos: map<LinkMap, nat>, doneIndex: nat, u: set<LinkMap>, handled: set<LinkMap>,
                         g: map<LinkMap, set<LinkMap>>, roots: set<LinkMap>, l: LinkMap)
    requires MarkInv(pos, doneIndex, u, handled, g, roots)
    requires forall m | m in pos && pos[m] == doneIndex :: m == l
    requires l in handled || (l !in u && l !in roots)
    ensures MarkInv(pos, doneIndex + 1, u, handled, g, roots)
  {
  }

  /** The outcome of the mark phase: used, done and l_idx all say which objects are live. */
  ghost predicate Marked(maps: array<LinkMap>, used: array<bool>, done: array<bool>, s: set<LinkMap>, live: set<LinkMap>)
    reads maps, used, done, s`idx
  {
    && Tracks(used, maps, live)
    && Tracks(done, maps, live)
    && forall m | m in s :: m.idx == IDX_STILL_USED <==> m in live
  }

  method MarkUsed(maps: array<LinkMap>, used: array<bool>, done: array<bool>, ghost pos: map<LinkMap, nat>)
    requires used.Length == done.Length == maps.Length && used != done
    requires Indexed(maps, pos) && IdxFollows(pos, {}) && Closed(DepGraph(pos.Keys), pos.Keys)
    requires Tracks(used, maps, {}) && Tracks(done, maps, {})
    modifies used, done, pos.Keys`idx
    ensures Marked(maps, used, done, pos.Keys, old(Reach(DepGraph(pos.Keys), RootsOf(pos.Keys))))
  {
    ghost var g, roots := DepGraph(pos.Keys), RootsOf(pos.Keys);
    ghost var u, handled: set<LinkMap> := {}, {};
    var doneIndex := 0;
    while doneIndex < maps.Length
      invariant 0 <= doneIndex <= maps.Length
      invariant IdxFollows(pos, handled) && Tracks(used, maps, u) && Tracks(done, maps, handled)
      invariant MarkInv(pos, doneIndex, u, handled, g, roots)
      decreases pos.Keys - handled, maps.Length - doneIndex
    {
      var l := maps[doneIndex];
      assert l in pos && pos[l] == doneIndex;
      assert l in roots <==> IsRoot(l);
      if done[doneIndex] {
        SkippingKeepsInv(pos, doneIndex, u, handled, g, roots, l);
        doneIndex := doneIndex + 1;
        continue;
      }
      if l.dlopened && l.directOpencount == 0 && !l.nodelete && !used[doneIndex] {
        SkippingKeepsInv(pos, doneIndex, u, handled, g, roots, l);
        doneIndex := doneIndex + 1;
        continue;
      }
      var cursor := HandleObject(doneIndex, maps, used, done, pos, u, handled);
      assert Deps(l) == g[l];
      HandlingKeepsInv(pos, doneIndex, cursor, u, handled, g, roots, l);
      assert l in pos.Keys - handled;
      handled := handled + {l};
      u := u + {l} + g[l];
      doneIndex := cursor + 1;
    }
    SettledMarkIsReach(pos, doneIndex, u, handled, g, roots);
  }
}
