/** Order-preserving removal of a set of elements from a sequence. */
module Filtering {

  ghost function Elems<T>(s: seq<T>): set<T> {
    set x | x in s
  }

  ghost predicate NoDup<T>(s: seq<T>) {
    forall i, j | 0 <= i < j < |s| :: s[i] != s[j]
  }

  ghost predicate AtMostOnce<T>(s: seq<T>, x: T) {
    forall i, j | 0 <= i < j < |s| :: s[i] != x || s[j] != x
  }

  ghost function Without<T>(s: seq<T>, dead: set<T>): (r: seq<T>)
    ensures |r| <= |s|
  {
    if s == [] then []
    else Without(s[..|s|-1], dead) + if s[|s|-1] in dead then [] else [s[|s|-1]]
  }

  lemma {:induction false} WithoutMembers<T>(s: seq<T>, dead: set<T>)
    ensures forall x :: x in Without(s, dead) <==> x in s && x !in dead
  {
    if s != [] {
      var init, last := s[..|s|-1], s[|s|-1];
      assert s == init + [last];
      WithoutMembers(init, dead);
    }
  }

  lemma WithoutElems<T>(s: seq<T>, dead: set<T>)
    ensures Elems(s) - dead == Elems(Without(s, dead))
  {
    forall x | x in Elems(Without(s, dead)) ensures x in Elems(s) - dead {
      WithoutMembers(s, dead);
      assert x in Without(s, dead);
    }
    forall x | x in Elems(s) - dead ensures x in Elems(Without(s, dead)) {
      WithoutMembers(s, dead);
      assert x in s && x !in dead;
    }
  }

  lemma {:induction false} WithoutIsId<T>(s: seq<T>, dead: set<T>)
    ensures Without(s, dead) == s <==> Elems(s) !! dead
  {
    if s != [] {
      assert s == s[..|s|-1] + [s[|s|-1]];
      WithoutIsId(s[..|s|-1], dead);
    }
  }

  lemma {:induction false} WithoutConcat<T>(a: seq<T>, b: seq<T>, dead: set<T>)
    ensures Without(a + b, dead) == Without(a, dead) + Without(b, dead)
  {
    if b == [] {
      assert a + b == a;
    } else {
      WithoutConcat(a, b[..|b|-1], dead);
      assert (a + b)[..|a+b|-1] == a + b[..|b|-1];
    }
  }

  lemma {:induction false} WithoutTwice<T>(s: seq<T>, a: set<T>, b: set<T>)
    ensures Without(Without(s, a), b) == Without(s, a + b)
  {
    if s != [] {
      var init, last := s[..|s|-1], s[|s|-1..];
      WithoutTwice(init, a, b);
      WithoutConcat(Without(init, a), if last[0] in a then [] else last, b);
      assert last[..0] == [];
    }
  }

  lemma {:induction false} WithoutNoDup<T>(s: seq<T>, dead: set<T>)
    requires NoDup(s)
    ensures NoDup(Without(s, dead))
  {
    if s != [] {
      var init := s[..|s|-1];
      WithoutNoDup(init, dead);
      WithoutMembers(init, dead);
      assert forall k | 0 <= k < |init| :: init[k] != s[|s|-1];
    }
  }

  /** Removing the only occurrence of an element closes the gap it leaves. */
  lemma {:induction false} WithoutOne<T>(s: seq<T>, k: nat)
    requires k < |s| && AtMostOnce(s, s[k])
    ensures Without(s, {s[k]}) == s[..k] + s[k+1..]
  {
    var init, last := s[..|s|-1], s[|s|-1];
    if k == |s| - 1 {
      assert forall i | 0 <= i < k :: init[i] == s[i] != last;
      WithoutAbsent(init, last);
      assert s[k+1..] == [];
    } else {
      assert init[k] == s[k] && last != s[k];
      WithoutOne(init, k);
      assert init[..k] == s[..k] && s[k+1..] == init[k+1..] + [last];
    }
  }

  lemma {:induction false} WithoutAbsent<T>(s: seq<T>, x: T)
    requires x !in s
    ensures Without(s, {x}) == s
  {
    if s != [] {
      WithoutAbsent(s[..|s|-1], x);
    }
  }

  /** Dropping dead entries that occur once each shortens a list by their number. */
  lemma {:induction false} WithoutLength<T>(s: seq<T>, dead: set<T>)
    requires forall x | x in dead :: AtMostOnce(s, x)
    ensures |Without(s, dead)| + |dead * Elems(s)| == |s|
  {
    if s == [] {
      assert dead * Elems(s) == {};
    } else {
      var init, last := s[..|s|-1], s[|s|-1];
      assert s == init + [last];
      WithoutLength(init, dead);
      if last in dead {
        assert dead * Elems(s) == dead * Elems(init) + {last};
      } else {
        assert dead * Elems(s) == dead * Elems(init);
      }
    }
  }

  lemma {:induction false} WithoutKeepsOnce<T>(s: seq<T>, dead: set<T>, x: T)
    requires AtMostOnce(s, x)
    ensures AtMostOnce(Without(s, dead), x)
  {
    if s != [] {
      var init, last := s[..|s|-1], s[|s|-1];
      WithoutKeepsOnce(init, dead, x);
      WithoutMembers(init, dead);
      if last == x {
        assert x !in init;
      }
    }
  }

  lemma {:induction false} WithoutAgrees<T>(s: seq<T>, a: set<T>, b: set<T>)
    requires forall x | x in s :: x in a <==> x in b
    ensures Without(s, a) == Without(s, b)
  {
    if s != [] {
      WithoutAgrees(s[..|s|-1], a, b);
    }
  }
}
