/** The global search list of a namespace: how glibc 2.12 and glibc 2.4 take unloaded objects out of it. */
module SearchLists {
  import opened Filtering
  import opened LinkMaps

  /** struct r_scope_elem: an array of maps and how many of its entries count. */
  class SearchListStruct {
    var rList: array<LinkMap>
    var rNlist: nat

    constructor (list: array<LinkMap>, n: nat)
      requires n <= list.Length
      ensures rList == list && rNlist == n
    {
      rList, rNlist := list, n;
    }

    ghost predicate Valid()
      reads `rList, `rNlist
    {
      rNlist <= rList.Length
    }

    ghost function Entries(): seq<LinkMap>
      requires Valid()
      reads `rList, `rNlist, rList
    {
      rList[..rNlist]
    }

    /** How many entries are left when the trailing removed ones are cut off. */
    method CutTrailing(ghost dead: set<LinkMap>) returns (cnt: nat)
      requires Valid() && RemovedAre(Elems(Entries()), dead)
      ensures cnt == CutLength(Entries(), dead)
    {
      ghost var entries := Entries();
      cnt := rNlist;
      assert entries[..cnt] == entries;
      while cnt > 0 && rList[cnt-1].removed
        invariant cnt <= rNlist && CutLength(entries[..cnt], dead) == CutLength(entries, dead)
      {
        assert entries[cnt-1] in Elems(entries) && entries[..cnt][..cnt-1] == entries[..cnt-1];
        cnt := cnt - 1;
      }
      assert cnt > 0 ==> entries[cnt-1] in Elems(entries);
    }

    /** Moves those of the first cnt entries that are not removed to the front. */
    method MoveKept(cnt: nat, ghost dead: set<LinkMap>) returns (j: nat)
      requires Valid() && RemovedAre(Elems(Entries()), dead) && cnt <= rNlist
      modifies rList
      ensures j <= cnt && rList[..j] == Without(old(Entries()[..cnt]), dead)
    {
      ghost var entries := Entries();
      ghost var kept: seq<LinkMap> := [];
      j := 0;
      for i := 0 to cnt
        invariant j <= i <= cnt && forall k | i <= k < cnt :: rList[k] == entries[k]
        invariant kept == Without(entries[..i], dead) && |kept| == j
        invariant forall k | 0 <= k < j :: rList[k] == kept[k]
      {
        assert entries[..i+1][..i] == entries[..i];
        kept := Without(entries[..i+1], dead);
        assert entries[i] in Elems(entries);
        if !rList[i].removed {
          if i != j {
            rList[j] := rList[i];
          }
          j := j + 1;
        }
      }
    }

    /** The 2.12 compaction: the trailing fast path, or else one copying pass. */
    method Compact(unloadGlobal: nat, ghost dead: set<LinkMap>)
      requires Valid() && RemovedAre(Elems(Entries()), dead)
      modifies this`rNlist, rList
      ensures Valid() && rList == old(rList) && Entries() == Compacted(old(Entries()), unloadGlobal, dead)
    {
      CutIsFilter(Entries(), dead);
      var cnt := CutTrailing(dead);
      var j;
      if cnt + unloadGlobal == rNlist {
        assert Entries()[..cnt] == rList[..cnt];
        j := cnt;
      } else {
        j := MoveKept(cnt, dead);
      }
      rNlist := j;
    }

    /** Moves the entries from the given place on down by one. */
    method ShiftDown(from: nat)
      requires Valid() && 0 < from <= rNlist
      modifies rList
      ensures forall q | 0 <= q < from - 1 :: rList[q] == old(rList[q])
      ensures forall q | from <= q < rNlist :: rList[q-1] == old(rList[q])
    {
      ghost var entries := rList[..];
      var cnt := from;
      while cnt < rNlist
        invariant from <= cnt <= rNlist
        invariant forall q | 0 <= q < from - 1 :: rList[q] == entries[q]
        invariant forall q | from <= q < cnt :: rList[q-1] == entries[q]
        invariant forall q | cnt <= q < rNlist :: rList[q] == entries[q]
      {
        rList[cnt-1] := rList[cnt];
        cnt := cnt + 1;
      }
    }

    /** The 2.4 removal of one object: find it from the end, then shift what follows. */
    method RemoveOne(lib: LinkMap)
      requires Valid() && lib in Entries()
      requires AtMostOnce(Entries(), lib)
      modifies this`rNlist, rList
      ensures Valid() && rList == old(rList) && Entries() == Without(old(Entries()), {lib})
    {
      ghost var entries := Entries();
      ghost var k :| 0 <= k < |entries| && entries[k] == lib;
      WithoutOne(entries, k);
      var cnt := rNlist - 1;
      while rList[cnt] != lib
        invariant k <= cnt < rNlist
        decreases cnt
      {
        cnt := cnt - 1;
      }
      hide Without, AtMostOnce;
      assert entries[cnt] == lib;
      assert cnt == k;
      ShiftDown(cnt + 1);
      rNlist := rNlist - 1;
      forall q | k <= q < rNlist ensures rList[q] == entries[q+1] {
        assert rList[(q+1)-1] == entries[q+1];
      }
      assert Entries() == entries[..k] + entries[k+1..];
    }

    /** The 2.4 loop over the unloaded objects, in any order, reaches what the 2.12 compaction reaches. */
    method RemoveAll(libs: seq<LinkMap>)
      requires Valid() && NoDup(libs) && Elems(libs) <= Elems(Entries())
      requires forall lib | lib in libs :: AtMostOnce(Entries(), lib)
      modifies this`rNlist, rList
      ensures Valid() && rList == old(rList) && Entries() == Without(old(Entries()), Elems(libs))
    {
      ghost var entries := Entries();
      WithoutIsId(entries, {});
      assert Elems(libs[..0]) == {};
      for n := 0 to |libs|
        invariant Valid() && rList == old(rList)
        invariant Entries() == Without(entries, Elems(libs[..n]))
      {
        var dead := Elems(libs[..n]);
        assert libs[..n+1] == libs[..n] + [libs[n]];
        assert Elems(libs[..n+1]) == dead + {libs[n]};
        WithoutElems(entries, dead);
        WithoutTwice(entries, dead, {libs[n]});
        WithoutKeepsOnce(entries, dead, libs[n]);
        assert libs[n] in Elems(Entries());
        RemoveOne(libs[n]);
      }
      assert libs[..|libs|] == libs;
    }
  }

  lemma {:induction false} FullLengthIsId<T>(s: seq<T>, dead: set<T>)
    requires |Without(s, dead)| == |s|
    ensures Without(s, dead) == s
  {
    if s != [] {
      FullLengthIsId(s[..|s|-1], dead);
    }
  }

  /** What is left of s when the dead elements at its end are cut off. */
  ghost function CutLength<T>(s: seq<T>, dead: set<T>): (n: nat)
    ensures n <= |s|
  {
    if s == [] || s[|s|-1] !in dead then |s| else CutLength(s[..|s|-1], dead)
  }

  /** The list that the 2.12 compaction leaves: the fast path is taken when as many entries were cut off as
      objects are said to have been unloaded. */
  ghost function Compacted<T>(s: seq<T>, unloadGlobal: nat, dead: set<T>): seq<T> {
    if CutLength(s, dead) + unloadGlobal == |s| then s[..CutLength(s, dead)] else Without(s, dead)
  }

  lemma {:induction false} CutIsFilter<T>(s: seq<T>, dead: set<T>)
    ensures Without(s[..CutLength(s, dead)], dead) == Without(s, dead)
  {
    if s == [] || s[|s|-1] !in dead {
      assert s[..|s|] == s;
    } else {
      var init := s[..|s|-1];
      CutIsFilter(init, dead);
      assert init[..CutLength(init, dead)] == s[..CutLength(s, dead)];
    }
  }

  /** The compaction filters the list exactly when the fast path is not taken or no entry before the trailing
      run is removed; it does if the number of unloaded objects is that of removed entries. */
  lemma CompactedIsFilterIff<T>(s: seq<T>, unloadGlobal: nat, dead: set<T>)
    ensures var cnt := CutLength(s, dead);
      Compacted(s, unloadGlobal, dead) == Without(s, dead) <==>
        cnt + unloadGlobal != |s| || forall k | 0 <= k < cnt :: s[k] !in dead
    ensures unloadGlobal + |Without(s, dead)| == |s| ==> Compacted(s, unloadGlobal, dead) == Without(s, dead)
  {
    var cnt := CutLength(s, dead);
    CutIsFilter(s, dead);
    WithoutIsId(s[..cnt], dead);
    if Elems(s[..cnt]) !! dead {
      forall k | 0 <= k < cnt ensures s[k] !in dead {
        assert s[..cnt][k] in Elems(s[..cnt]);
      }
    }
    if |Without(s, dead)| == cnt {
      FullLengthIsId(s[..cnt], dead);
    }
  }

  /** Told that one object was unloaded when two entries are removed, the fast path leaves the first behind. */
  lemma WrongCountLeavesRemoved()
    ensures Compacted([1, 2, 3], 1, {1, 3}) == [1, 2] && Without([1, 2, 3], {1, 3}) == [2]
  {
    assert [1, 2, 3][..2] == [1, 2] && [1, 2][..1] == [1] && [1][..0] == [];
    assert Without([1], {1, 3}) == [] && Without([1, 2], {1, 3}) == [2];
    assert CutLength([1, 2], {1, 3}) == 2;
  }
}
