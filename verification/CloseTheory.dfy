/** What a sequence of collections has to unload, said without lists, marks or passes. */
module CloseTheory {
  import opened Filtering
  import opened Reachability

  /** A namespace at the moment a collection starts.  `pinned` holds the objects that are never
      unloaded (not loaded by dlopen, or NODELETE); `closes` holds, per object, the handles that its
      termination functions pass to dlclose. */
  datatype Snapshot<T> = Snapshot(
    maps: seq<T>,
    deps: map<T, set<T>>,
    count: map<T, nat>,
    pinned: set<T>,
    closes: map<T, seq<T>>)
  {
    ghost function All(): set<T> { Elems(maps) }

    ghost predicate Valid() {
      && NoDup(maps)
      && deps.Keys == count.Keys == closes.Keys == All()
      && Closed(deps, All())
    }
  }

  /** How often the termination functions of the dead objects close m. */
  ghost function CloseCount<T>(maps: seq<T>, closes: map<T, seq<T>>, dead: set<T>, m: T): nat
    requires forall x | x in maps :: x in closes
  {
    if maps == [] then 0
    else (if maps[0] in dead then multiset(closes[maps[0]])[m] else 0) + CloseCount(maps[1..], closes, dead, m)
  }

  function Monus(a: nat, b: nat): nat {
    if a <= b then 0 else a - b
  }

  /** A close of a handle whose count is already zero is an error that changes nothing. */
  ghost function CountAfter<T>(s: Snapshot<T>, dead: set<T>, m: T): nat
    requires s.Valid() && m in s.maps
  {
    Monus(s.count[m], CloseCount(s.maps, s.closes, dead, m))
  }

  ghost function Roots<T>(s: Snapshot<T>, dead: set<T>): set<T>
    requires s.Valid()
  {
    set m | m in s.maps && (m in s.pinned || CountAfter(s, dead, m) > 0)
  }

  /** The objects nothing keeps loaded once the dead objects have run their termination functions. */
  ghost function Garbage<T>(s: Snapshot<T>, dead: set<T>): set<T>
    requires s.Valid()
  {
    s.All() - Reach(s.deps, Roots(s, dead))
  }

  /** dead is a fixed point, and every set that is closed under "becomes garbage" contains it. */
  ghost predicate IsLeastDead<T>(s: Snapshot<T>, dead: set<T>)
    requires s.Valid()
  {
    && dead == Garbage(s, dead)
    && forall d | d <= s.All() && Garbage(s, d) <= d :: dead <= d
  }

  lemma {:induction false} CloseCountIsMonotone<T>(maps: seq<T>, closes: map<T, seq<T>>, few: set<T>, many: set<T>, m: T)
    requires few <= many && forall x | x in maps :: x in closes
    ensures CloseCount(maps, closes, few, m) <= CloseCount(maps, closes, many, m)
  {
    if maps != [] {
      CloseCountIsMonotone(maps[1..], closes, few, many, m);
    }
  }

  lemma {:induction false} CloseCountIgnoresOutsiders<T>(maps: seq<T>, closes: map<T, seq<T>>, dead: set<T>, x: T, m: T)
    requires x !in maps && forall x | x in maps :: x in closes
    ensures CloseCount(maps, closes, dead + {x}, m) == CloseCount(maps, closes, dead, m)
  {
    if maps != [] {
      CloseCountIgnoresOutsiders(maps[1..], closes, dead, x, m);
    }
  }

  /** One more dead object adds exactly its own closes. */
  lemma {:induction false} CloseCountAddsOne<T>(maps: seq<T>, closes: map<T, seq<T>>, dead: set<T>, x: T, m: T)
    requires NoDup(maps)
    requires x in maps && x !in dead && forall x | x in maps :: x in closes
    ensures CloseCount(maps, closes, dead + {x}, m) == CloseCount(maps, closes, dead, m) + multiset(closes[x])[m]
  {
    if maps[0] == x {
      CloseCountIgnoresOutsiders(maps[1..], closes, dead, x, m);
    } else {
      CloseCountAddsOne(maps[1..], closes, dead, x, m);
    }
  }

  lemma CountAfterOneMore<T>(s: Snapshot<T>, dead: set<T>, x: T, m: T)
    requires s.Valid() && m in s.maps && x in s.maps && x !in dead
    ensures CountAfter(s, dead + {x}, m) == Monus(CountAfter(s, dead, m), multiset(s.closes[x])[m])
  {
    CloseCountAddsOne(s.maps, s.closes, dead, x, m);
  }

  lemma RootsAreAntitone<T>(s: Snapshot<T>, few: set<T>, many: set<T>)
    requires s.Valid() && few <= many
    ensures Roots(s, many) <= Roots(s, few)
  {
    forall m | m in Roots(s, many) ensures m in Roots(s, few) {
      CloseCountIsMonotone(s.maps, s.closes, few, many, m);
    }
  }

  /** The more objects have died, the more is garbage. */
  lemma GarbageIsMonotone<T>(s: Snapshot<T>, few: set<T>, many: set<T>)
    requires s.Valid() && few <= many
    ensures Garbage(s, few) <= Garbage(s, many)
  {
    RootsAreAntitone(s, few, many);
    ReachIsMonotone(s.deps, Roots(s, many), Roots(s, few));
  }

  /** The outcome does not depend on the order in which passes and termination functions ran. */
  lemma LeastDeadIsUnique<T>(s: Snapshot<T>, a: set<T>, b: set<T>)
    requires s.Valid() && IsLeastDead(s, a) && IsLeastDead(s, b)
    ensures a == b
  {
    assert a <= s.All() && b <= s.All();
    assert Garbage(s, a) <= a && Garbage(s, b) <= b;
  }

  /** What the passes keep: the survivors are closed under dependency and hold every root, and
      nothing has died that had not to. */
  ghost predicate SoundSoFar<T>(s: Snapshot<T>, dead: set<T>)
    requires s.Valid()
  {
    && dead <= s.All()
    && Closed(s.deps, s.All() - dead)
    && Roots(s, dead) <= s.All() - dead
    && forall d | d <= s.All() && Garbage(s, d) <= d :: dead <= d
  }

  /** A mark over the survivors alone finds exactly what a mark over everything would find. */
  lemma MarkOnSurvivors<T>(s: Snapshot<T>, dead: set<T>)
    requires s.Valid() && SoundSoFar(s, dead)
    ensures Reach(Restrict(s.deps, s.All() - dead), Roots(s, dead)) == Reach(s.deps, Roots(s, dead))
    ensures dead <= Garbage(s, dead)
  {
    var alive := s.All() - dead;
    ReachInClosedPart(s.deps, Roots(s, dead), alive);
    ReachIsLeast(s.deps, Roots(s, dead), alive);
  }

  /** One pass, which unloads the garbage seen from the current counts, keeps SoundSoFar. */
  lemma PassIsSound<T>(s: Snapshot<T>, dead: set<T>)
    requires s.Valid() && SoundSoFar(s, dead)
    ensures SoundSoFar(s, Garbage(s, dead))
  {
    var next := Garbage(s, dead);
    MarkOnSurvivors(s, dead);
    assert s.All() - next == Reach(s.deps, Roots(s, dead));
    ReachIsClosed(s.deps, Roots(s, dead));
    RootsAreAntitone(s, dead, next);
    ReachContainsRoots(s.deps, Roots(s, dead));
    forall d | d <= s.All() && Garbage(s, d) <= d ensures next <= d {
      GarbageIsMonotone(s, dead, d);
    }
  }

  /** When the last pass dropped no count to zero, the passes have reached the least fixed point. */
  lemma LastPassIsLeast<T>(s: Snapshot<T>, dead: set<T>, next: set<T>)
    requires s.Valid() && SoundSoFar(s, dead) && next == Garbage(s, dead)
    requires Roots(s, next) == Roots(s, dead)
    ensures IsLeastDead(s, next)
  {
    PassIsSound(s, dead);
  }

  lemma NothingDeadIsSound<T>(s: Snapshot<T>)
    requires s.Valid()
    ensures SoundSoFar(s, {})
  {
    assert s.All() - {} == s.All();
  }
}
