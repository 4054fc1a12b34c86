/** Reachability over a finite directed graph, given as a map from each node to its successors. */
module Reachability {

  datatype Path<T> = Start(root: T) | Extend(prefix: Path<T>, node: T) {
    function End(): T { if Start? then root else node }
  }

  ghost predicate IsPath<T>(g: map<T, set<T>>, roots: set<T>, older p: Path<T>)
    decreases p
  {
    match p
    case Start(x) => x in roots
    case Extend(q, x) => IsPath(g, roots, q) && q.End() in g && x in g[q.End()]
  }

  ghost predicate Reaches<T>(g: map<T, set<T>>, roots: set<T>, x: T) {
    exists p :: IsPath(g, roots, p) && p.End() == x
  }

  /** The nodes of the graph that some path from a root ends in. */
  ghost function Reach<T>(g: map<T, set<T>>, roots: set<T>): set<T> {
    set x | x in g.Keys && Reaches(g, roots, x)
  }

  ghost predicate Closed<T>(g: map<T, set<T>>, c: set<T>) {
    forall x | x in c && x in g :: g[x] <= c
  }

  lemma ReachContainsRoots<T>(g: map<T, set<T>>, roots: set<T>)
    requires roots <= g.Keys
    ensures roots <= Reach(g, roots)
  {
    forall x | x in roots ensures x in Reach(g, roots) {
      assert IsPath(g, roots, Start(x)) && Start(x).End() == x;
    }
  }

  lemma ReachIsClosed<T>(g: map<T, set<T>>, roots: set<T>)
    requires Closed(g, g.Keys)
    ensures Closed(g, Reach(g, roots))
  {
    forall x, y | x in Reach(g, roots) && y in g[x] ensures y in Reach(g, roots) {
      var p :| IsPath(g, roots, p) && p.End() == x;
      assert IsPath(g, roots, Extend(p, y)) && Extend(p, y).End() == y;
    }
  }

  lemma {:induction false} PathStaysInside<T>(g: map<T, set<T>>, roots: set<T>, c: set<T>, p: Path<T>)
    requires roots <= c && Closed(g, c)
    requires IsPath(g, roots, p)
    ensures p.End() in c
    decreases p
  {
    match p
    case Start(_) =>
    case Extend(q, _) => PathStaysInside(g, roots, c, q);
  }

  /** Every closed set that holds the roots holds everything reachable. */
  lemma ReachIsLeast<T>(g: map<T, set<T>>, roots: set<T>, c: set<T>)
    requires roots <= c && Closed(g, c)
    ensures Reach(g, roots) <= c
  {
    forall x | x in Reach(g, roots) ensures x in c {
      var p :| IsPath(g, roots, p) && p.End() == x;
      PathStaysInside(g, roots, c, p);
    }
  }

  lemma ReachIsMonotone<T>(g: map<T, set<T>>, few: set<T>, many: set<T>)
    requires few <= many <= g.Keys && Closed(g, g.Keys)
    ensures Reach(g, few) <= Reach(g, many)
  {
    ReachContainsRoots(g, many);
    ReachIsClosed(g, many);
    ReachIsLeast(g, few, Reach(g, many));
  }

  ghost function Restrict<T>(g: map<T, set<T>>, c: set<T>): map<T, set<T>> {
    map x | x in g && x in c :: g[x]
  }

  /** Cutting a graph down to a closed part changes nothing for roots inside that part. */
  lemma ReachInClosedPart<T>(g: map<T, set<T>>, roots: set<T>, c: set<T>)
    requires Closed(g, g.Keys) && Closed(g, c)
    requires roots <= c <= g.Keys
    ensures Reach(Restrict(g, c), roots) == Reach(g, roots)
  {
    var h := Restrict(g, c);
    assert h.Keys == c;
    ReachIsLeast(g, roots, c);
    ReachContainsRoots(g, roots);
    ReachIsClosed(g, roots);
    ReachIsLeast(h, roots, Reach(g, roots));
    ReachContainsRoots(h, roots);
    ReachIsClosed(h, roots);
    forall x | x in Reach(h, roots) && x in g ensures g[x] <= Reach(h, roots) {
      assert x in h && h[x] == g[x];
    }
    ReachIsLeast(g, roots, Reach(h, roots));
  }
}
