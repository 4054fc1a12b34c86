/** Reclaiming the static TLS area when objects are unloaded (thread control block at the thread
    pointer: offsets are the ends of the blocks). */
module TlsReclaim {
  import opened Filtering

  datatype Extent = Block(offset: nat, size: nat) {
    ghost predicate Holds(p: int) { offset - size <= p < offset }
  }

  /** The bytes [offset - size, offset) of the static TLS area. */
  type Block = b: Extent | 0 < b.size <= b.offset witness Block(1, 1)

  /** How much of the area counts as used, and the chunk of freed bytes that may be given back next;
      both ends are `none`, the value NO_TLS_OFFSET, while there is no chunk. */
  datatype Area = Area(used: nat, start: nat, end: nat)

  /** One unloaded block: it extends the chunk at either end, or the chunk or the block is given back
      at once, or the later of the two becomes the chunk. */
  function Free(a: Area, b: Block, none: nat): Area
  {
    if a.start == none || b.offset == a.start then
      a.(start := b.offset - b.size, end := if a.end == none then b.offset else a.end)
    else if b.offset - b.size == a.end then
      a.(end := b.offset)
    else if a.end == a.used then
      Area(a.start, b.offset - b.size, b.offset)
    else if b.offset == a.used then
      a.(used := b.offset - b.size)
    else if a.end < b.offset then
      a.(start := b.offset - b.size, end := b.offset)
    else
      a
  }

  /** After the last unloaded object: give the chunk back if it is at the end of the used area. */
  function Finish(a: Area): Area {
    if a.end == a.used then a.(used := a.start) else a
  }

  function FreeAll(a: Area, blocks: seq<Block>, none: nat): Area
  {
    if blocks == [] then a
    else Free(FreeAll(a, blocks[..|blocks|-1], none), blocks[|blocks|-1], none)
  }

  /** Every byte of [lo, hi) belongs to a block of s. */
  ghost predicate Covered(lo: int, hi: int, s: set<Block>) {
    forall p {:trigger Within(p, s)} | lo <= p < hi :: Within(p, s)
  }

  ghost predicate Within(p: int, s: set<Block>) {
    exists b :: b in s && b.Holds(p)
  }

  ghost predicate Disjoint(s: set<Block>) {
    forall a, b | a in s && b in s && a != b :: a.offset <= b.offset - b.size || b.offset <= a.offset - a.size
  }

  /** A block of s starts at p. */
  ghost predicate StartsAt(p: int, s: set<Block>) {
    exists b :: b in s && b.offset - b.size == p
  }

  /** The blocks of a static area of `used` bytes.  None of them ends at `none`: an object whose offset is
      NO_TLS_OFFSET has no static block. */
  ghost predicate IsLayout(all: set<Block>, used: nat, none: nat) {
    Disjoint(all) && forall b | b in all :: b.offset != none && b.offset <= used
  }

  /** There is a chunk, but its start reads as if there were none. */
  predicate LooksAbsent(a: Area, none: nat) {
    a.start == none && a.end != none
  }

  /** No chunk, or a range of freed bytes. */
  ghost predicate IsChunk(a: Area, freed: set<Block>, none: nat) {
    || (a.start == none && a.end == none)
    || (a.start < a.end && Covered(a.start, a.end, freed))
  }

  /** The chunk as it should be. */
  ghost predicate Whole(a: Area, freed: set<Block>, none: nat) {
    || (a.start == none && a.end == none)
    || (a.start < a.end <= a.used && a.end != none && Covered(a.start, a.end, freed) && StartsAt(a.start, freed))
  }

  /** What the block after a chunk that looked absent leaves behind if it lies above: no range at all. */
  ghost predicate Inverted(a: Area, freed: set<Block>, none: nat) {
    none < a.end <= a.start < a.used && Covered(none, a.end, freed) && Within(a.start, freed)
  }

  /** And if it lies below: a range with a gap that nobody has freed. */
  ghost predicate Gapped(a: Area, freed: set<Block>, none: nat) {
    && a.start < none < a.end <= a.used && Covered(none, a.end, freed) && StartsAt(none, freed)
    && exists low :: low in freed && low.offset < none
  }

  /** Blocks adjoin from `none` up to the end of the used area. */
  ghost predicate Bridge(all: set<Block>, used: nat, none: nat) {
    StartsAt(none, all) && Covered(none, used, all)
  }

  /** Some block lies below the bridge. */
  ghost predicate BelowBridge(all: set<Block>, used: nat, none: nat) {
    Bridge(all, used, none) && exists low :: low in all && low.offset < none
  }

  /** More than one block lies below the bridge. */
  ghost predicate TwoBelowBridge(all: set<Block>, used: nat, none: nat) {
    Bridge(all, used, none) && exists x, y :: x in all && y in all && x != y && x.offset < none && y.offset < none
  }

  /** What holds while blocks of `all` are being freed, when `used` was the mark at the start. */
  ghost predicate Safe(a: Area, all: set<Block>, freed: set<Block>, used: nat, none: nat) {
    && a.used <= used
    && (forall b | b in all - freed :: b.offset <= a.used)
    && (Covered(a.used, used, freed) || (a.used < none && BelowBridge(all, used, none)))
    && (Whole(a, freed, none) || Inverted(a, freed, none) || Gapped(a, freed, none))
  }

  /** A block that is still in use lies below or above a chunk of freed bytes. */
  lemma ApartFrom(b: Block, all: set<Block>, freed: set<Block>, lo: nat, hi: nat)
    requires b in all && b !in freed && freed <= all && Disjoint(all)
    requires lo < hi && Covered(lo, hi, freed)
    ensures b.offset <= lo || hi <= b.offset - b.size
  {
    var p := if lo < b.offset - b.size then b.offset - b.size else lo;
    assert p < hi ==> Within(p, freed);
  }

  lemma WithinOneMore(s: set<Block>, b: Block)
    ensures forall p :: Within(p, s + {b}) <==> Within(p, s) || b.Holds(p)
  {
    forall p ensures Within(p, s + {b}) <==> Within(p, s) || b.Holds(p) {
      if Within(p, s) {
        var x :| x in s && x.Holds(p);
        assert x in s + {b};
      }
      assert b in s + {b};
    }
  }

  /** What freed bytes are, they stay. */
  lemma FreedStays(freed: set<Block>, b: Block)
    ensures forall lo, hi | Covered(lo, hi, freed) :: Covered(lo, hi, freed + {b})
    ensures forall p | Within(p, freed) :: Within(p, freed + {b})
    ensures forall p | StartsAt(p, freed) :: StartsAt(p, freed + {b})
    ensures Covered(b.offset - b.size, b.offset, freed + {b}) && StartsAt(b.offset - b.size, freed + {b})
  {
    WithinOneMore(freed, b);
    forall p | StartsAt(p, freed) ensures StartsAt(p, freed + {b}) {
      var x :| x in freed && x.offset - x.size == p;
      assert x in freed + {b};
    }
    assert b in freed + {b};
    assert forall p | b.Holds(p) :: Within(p, freed + {b});
  }

  lemma CoveredJoin(lo: int, mid: int, hi: int, s: set<Block>)
    requires Covered(lo, mid, s) && Covered(mid, hi, s)
    ensures Covered(lo, hi, s)
  {
  }

  /** The byte below a block that starts at `none` belongs to no block, since none ends there. */
  lemma NothingBelowNone(s: set<Block>, used: nat, none: nat)
    requires IsLayout(s, used, none) && StartsAt(none, s)
    ensures !Within(none - 1, s)
  {
  }

  lemma SubLayout(s: set<Block>, all: set<Block>, used: nat, none: nat)
    requires s <= all && IsLayout(all, used, none)
    ensures IsLayout(s, used, none)
    ensures forall lo, hi | Covered(lo, hi, s) :: Covered(lo, hi, all)
    ensures forall p | StartsAt(p, s) :: StartsAt(p, all)
  {
    forall p | Within(p, s) ensures Within(p, all) {
      var x :| x in s && x.Holds(p);
      assert x in all;
    }
    forall p | StartsAt(p, s) ensures StartsAt(p, all) {
      var x :| x in s && x.offset - x.size == p;
      assert x in all;
    }
  }

  /** A chunk that does not look absent stays what it should be. */
  lemma WholeStays(a: Area, b: Block, freed: set<Block>, none: nat)
    requires Whole(a, freed, none) && !LooksAbsent(a, none) && b.offset <= a.used && b.offset != none
    requires a.start == none || b.offset <= a.start || a.end <= b.offset - b.size
    requires a.start != none && a.end == a.used ==> b.offset <= a.start
    ensures Whole(Free(a, b, none), freed + {b}, none)
  {
    FreedStays(freed, b);
    hide Covered, StartsAt;
    if a.start != none && b.offset == a.start {
      CoveredJoin(b.offset - b.size, b.offset, a.end, freed + {b});
    } else if a.start != none && b.offset - b.size == a.end {
      CoveredJoin(a.start, a.end, b.offset, freed + {b});
    }
  }

  /** After a chunk that looks absent comes one that is none. */
  lemma AbsentBreaks(a: Area, b: Block, all: set<Block>, freed: set<Block>, used: nat, none: nat)
    requires Whole(a, freed, none) && LooksAbsent(a, none) && b.offset <= a.used
    requires b.offset <= a.start || a.end <= b.offset - b.size
    requires freed + {b} <= all && IsLayout(all, used, none)
    ensures var a' := Free(a, b, none);
      && (Gapped(a', freed + {b}, none) || Inverted(a', freed + {b}, none))
      && !IsChunk(a', freed + {b}, none) && !Whole(a', freed + {b}, none)
  {
    FreedStays(freed, b);
    var a' := Free(a, b, none);
    if b.offset < none {
      SubLayout(freed + {b}, all, used, none);
      NothingBelowNone(freed + {b}, used, none);
      assert b in freed + {b};
      assert a'.start <= none - 1 < a'.end;
    } else {
      assert b in all && b.Holds(a'.start) && Within(a'.start, freed + {b});
    }
  }

  lemma WholeIsChunk(a: Area, freed: set<Block>, none: nat)
    requires Whole(a, freed, none)
    ensures IsChunk(a, freed, none)
  {
  }

  /** The blocks in use after one more block has been freed. */
  lemma MarkAfterWhole(a: Area, b: Block, all: set<Block>, freed: set<Block>, used: nat, none: nat)
    requires Safe(a, all, freed, used, none) && Whole(a, freed, none)
    requires freed <= all && b in all && b !in freed && IsLayout(all, used, none)
    ensures var a' := Free(a, b, none);
      && a'.used <= used
      && (forall x | x in all - (freed + {b}) :: x.offset <= a'.used)
      && (Covered(a'.used, used, freed + {b}) || (a'.used < none && BelowBridge(all, used, none)))
  {
    FreedStays(freed, b);
    if a.start != none && a.end == a.used {
      forall x | x in all - freed ensures x.offset <= a.start {
        ApartFrom(x, all, freed, a.start, a.end);
      }
      if Covered(a.used, used, freed) {
        CoveredJoin(a.start, a.end, used, freed);
      }
    } else if b.offset == a.used {
      OthersBelow(b, all, freed, used, none);
      if Covered(a.used, used, freed) {
        CoveredJoin(b.offset - b.size, b.offset, used, freed + {b});
      }
    }
  }

  /** One more freed block, the chunk being what it should be: it stays so exactly if it does not look absent. */
  lemma FreeFromWhole(a: Area, b: Block, all: set<Block>, freed: set<Block>, used: nat, none: nat)
    requires Safe(a, all, freed, used, none) && Whole(a, freed, none)
    requires freed <= all && b in all && b !in freed && IsLayout(all, used, none)
    ensures var a' := Free(a, b, none);
      && Safe(a', all, freed + {b}, used, none)
      && (IsChunk(a', freed + {b}, none) <==> !LooksAbsent(a, none))
      && (Whole(a', freed + {b}, none) <==> !LooksAbsent(a, none))
  {
    MarkAfterWhole(a, b, all, freed, used, none);
    if a.start != none || a.end != none {
      ApartFrom(b, all, freed, a.start, a.end);
    }
    if LooksAbsent(a, none) {
      AbsentBreaks(a, b, all, freed, used, none);
    } else {
      WholeStays(a, b, freed, none);
      WholeIsChunk(Free(a, b, none), freed + {b}, none);
    }
    hide IsLayout, Whole, Inverted, Gapped, Covered, IsChunk, BelowBridge;
  }

  /** A turned-over chunk is never given back. */
  lemma FreeFromInverted(a: Area, b: Block, all: set<Block>, freed: set<Block>, used: nat, none: nat)
    requires Safe(a, all, freed, used, none) && Inverted(a, freed, none)
    requires freed <= all && b in all && b !in freed && IsLayout(all, used, none)
    ensures Safe(Free(a, b, none), all, freed + {b}, used, none)
  {
    FreedStays(freed, b);
    var a' := Free(a, b, none);
    ApartFrom(b, all, freed, none, a.end);
    assert Covered(a.start, a.start + 1, freed);
    ApartFrom(b, all, freed, a.start, a.start + 1);
    if b.offset == a.start {
      assert b.Holds(a'.start) && Within(a'.start, freed + {b});
    }
  }

  /** A chunk with a gap can be given back only where there is a bridge; if only one block lies below it,
      none is left in use. */
  lemma GapGivenBack(a: Area, all: set<Block>, freed: set<Block>, used: nat, none: nat)
    requires Safe(a, all, freed, used, none) && Gapped(a, freed, none) && a.end == a.used
    requires freed <= all && IsLayout(all, used, none)
    ensures BelowBridge(all, used, none)
    ensures !TwoBelowBridge(all, used, none) ==> all == freed
  {
    var low :| low in freed && low.offset < none;
    CoveredJoin(none, a.end, used, freed);
    SubLayout(freed, all, used, none);
    assert low in all;
    forall x | x in all && x !in freed ensures TwoBelowBridge(all, used, none) {
      ApartFrom(x, all, freed, none, a.end);
    }
  }

  /** The highest block in use is given back: the others end below it. */
  lemma OthersBelow(b: Block, all: set<Block>, freed: set<Block>, used: nat, none: nat)
    requires IsLayout(all, used, none) && b in all && b !in freed
    requires forall x | x in all - freed :: x.offset <= b.offset
    ensures forall x | x in all - (freed + {b}) :: x.offset <= b.offset - b.size
  {
  }

  /** The chunk after one more block: still with a gap, or begun anew. */
  lemma GappedStays(a: Area, b: Block, freed: set<Block>, none: nat)
    requires Gapped(a, freed, none) && a.end != a.used && b.offset <= a.used && b.offset != none
    requires b.offset <= none || a.end <= b.offset - b.size
    ensures var a' := Free(a, b, none); Whole(a', freed + {b}, none) || Gapped(a', freed + {b}, none)
  {
    FreedStays(freed, b);
    var low :| low in freed && low.offset < none;
    assert low in freed + {b};
    hide Covered, StartsAt;
    if b.offset - b.size == a.end {
      CoveredJoin(none, a.end, b.offset, freed + {b});
    }
  }

  /** A chunk with a gap does no harm if only one block lies below `none`. */
  lemma FreeFromGapped(a: Area, b: Block, all: set<Block>, freed: set<Block>, used: nat, none: nat)
    requires Safe(a, all, freed, used, none) && Gapped(a, freed, none) && !TwoBelowBridge(all, used, none)
    requires freed <= all && b in all && b !in freed && IsLayout(all, used, none)
    ensures Safe(Free(a, b, none), all, freed + {b}, used, none)
  {
    if a.end == a.used {
      GapGivenBack(a, all, freed, used, none);
      assert false;
    }
    FreedStays(freed, b);
    ApartFrom(b, all, freed, none, a.end);
    GappedStays(a, b, freed, none);
    if b.offset == a.used {
      OthersBelow(b, all, freed, used, none);
      CoveredJoin(b.offset - b.size, b.offset, used, freed + {b});
    }
    hide Covered, StartsAt, IsLayout, BelowBridge, TwoBelowBridge, Whole, Inverted;
  }

  lemma FreeKeepsSafe(a: Area, b: Block, all: set<Block>, freed: set<Block>, used: nat, none: nat)
    requires Safe(a, all, freed, used, none) && freed <= all && b in all && b !in freed
    requires IsLayout(all, used, none) && !TwoBelowBridge(all, used, none)
    ensures Safe(Free(a, b, none), all, freed + {b}, used, none)
  {
    hide *;
    if Whole(a, freed, none) {
      FreeFromWhole(a, b, all, freed, used, none);
    } else if Inverted(a, freed, none) {
      FreeFromInverted(a, b, all, freed, used, none);
    } else {
      SafeCases(a, all, freed, used, none);
      FreeFromGapped(a, b, all, freed, used, none);
    }
  }

  lemma SafeCases(a: Area, all: set<Block>, freed: set<Block>, used: nat, none: nat)
    requires Safe(a, all, freed, used, none)
    ensures Whole(a, freed, none) || Inverted(a, freed, none) || Gapped(a, freed, none)
  {
  }

  function AreaAfter(used: nat, blocks: seq<Block>, none: nat): Area {
    FreeAll(Area(used, none, none), blocks, none)
  }

  lemma NothingFreed(used: nat, all: set<Block>, none: nat)
    requires IsLayout(all, used, none)
    ensures Safe(AreaAfter(used, [], none), all, Elems([]), used, none)
    ensures Whole(AreaAfter(used, [], none), Elems([]), none)
  {
  }

  lemma LastFreed(used: nat, all: set<Block>, blocks: seq<Block>, none: nat)
    requires blocks != [] && NoDup(blocks) && Elems(blocks) <= all
    ensures var init, last := blocks[..|blocks|-1], blocks[|blocks|-1];
      && NoDup(init) && Elems(init) <= all && last in all && last !in Elems(init)
      && Elems(blocks) == Elems(init) + {last}
      && AreaAfter(used, blocks, none) == Free(AreaAfter(used, init, none), last, none)
  {
    assert blocks == blocks[..|blocks|-1] + [blocks[|blocks|-1]];
  }

  lemma {:induction false} FreeAllIsSafe(used: nat, all: set<Block>, blocks: seq<Block>, none: nat)
    requires IsLayout(all, used, none) && !TwoBelowBridge(all, used, none)
    requires NoDup(blocks) && Elems(blocks) <= all
    ensures Safe(AreaAfter(used, blocks, none), all, Elems(blocks), used, none)
  {
    hide *;
    if blocks == [] {
      NothingFreed(used, all, none);
    } else {
      var init, last := blocks[..|blocks|-1], blocks[|blocks|-1];
      LastFreed(used, all, blocks, none);
      FreeAllIsSafe(used, all, init, none);
      FreeKeepsSafe(AreaAfter(used, init, none), last, all, Elems(init), used, none);
    }
  }

  /** After each of the first n blocks the chunk was a range of freed bytes. */
  ghost predicate ChunkStays(used: nat, blocks: seq<Block>, none: nat) {
    forall n | 0 <= n <= |blocks| :: IsChunk(AreaAfter(used, blocks[..n], none), Elems(blocks[..n]), none)
  }

  /** No block but the last leaves a chunk that looks absent. */
  ghost predicate NeverLooksAbsent(used: nat, blocks: seq<Block>, none: nat) {
    forall n | 0 <= n < |blocks| :: !LooksAbsent(AreaAfter(used, blocks[..n], none), none)
  }

  lemma OneMoreBlock(used: nat, blocks: seq<Block>, none: nat)
    requires blocks != []
    ensures var init := blocks[..|blocks|-1];
      && (ChunkStays(used, blocks, none) <==>
            ChunkStays(used, init, none) && IsChunk(AreaAfter(used, blocks, none), Elems(blocks), none))
      && (NeverLooksAbsent(used, blocks, none) <==>
            NeverLooksAbsent(used, init, none) && !LooksAbsent(AreaAfter(used, init, none), none))
  {
    hide AreaAfter, IsChunk;
    var init := blocks[..|blocks|-1];
    assert blocks[..|blocks|] == blocks;
    assert forall n | 0 <= n <= |init| :: init[..n] == blocks[..n];
  }

  /** The chunk is a range of freed bytes throughout exactly when no block but the last leaves it starting
      at NO_TLS_OFFSET. */
  lemma {:induction false} ChunkStaysIff(used: nat, all: set<Block>, blocks: seq<Block>, none: nat)
    requires IsLayout(all, used, none) && NoDup(blocks) && Elems(blocks) <= all
    ensures ChunkStays(used, blocks, none) <==> NeverLooksAbsent(used, blocks, none)
    ensures NeverLooksAbsent(used, blocks, none) ==>
              var a := AreaAfter(used, blocks, none);
              Whole(a, Elems(blocks), none) && Safe(a, all, Elems(blocks), used, none)
  {
    hide Safe, Whole, AreaAfter, Elems, IsLayout;
    if blocks == [] {
      NothingFreed(used, all, none);
      NothingIsChunk(used, none);
    } else {
      var init, last := blocks[..|blocks|-1], blocks[|blocks|-1];
      LastFreed(used, all, blocks, none);
      OneMoreBlock(used, blocks, none);
      ChunkStaysIff(used, all, init, none);
      hide *;
      if NeverLooksAbsent(used, init, none) {
        FreeFromWhole(AreaAfter(used, init, none), last, all, Elems(init), used, none);
      }
    }
  }

  lemma NothingIsChunk(used: nat, none: nat)
    ensures ChunkStays(used, [], none) && NeverLooksAbsent(used, [], none)
  {
  }

  /** The mark after the objects that own `blocks` have been unloaded in this order. */
  function Reclaim(used: nat, blocks: seq<Block>, none: nat): nat
  {
    Finish(AreaAfter(used, blocks, none)).used
  }

  /** The mark lies above every block that is still in use. */
  ghost predicate AboveLive(mark: nat, all: set<Block>, freed: set<Block>) {
    forall b | b in all - freed :: b.offset <= mark
  }

  /** The mark never rises and never falls below the end of a block still in use, unless the layout has two
      blocks below a bridge; what lies above it was freed, unless the layout has one. */
  lemma ReclaimIsSafe(used: nat, all: set<Block>, blocks: seq<Block>, none: nat)
    requires IsLayout(all, used, none) && !TwoBelowBridge(all, used, none)
    requires NoDup(blocks) && Elems(blocks) <= all
    ensures var r := Reclaim(used, blocks, none);
      r <= used && AboveLive(r, all, Elems(blocks)) && (!BelowBridge(all, used, none) ==> Covered(r, used, Elems(blocks)))
  {
    FreeAllIsSafe(used, all, blocks, none);
    var a := AreaAfter(used, blocks, none);
    var freed: set<Block> := Elems(blocks);
    hide AreaAfter, Bridge;
    if a.end == a.used && Gapped(a, freed, none) {
      GapGivenBack(a, all, freed, used, none);
    } else if a.end == a.used && a.start < a.end {
      forall x | x in all - freed ensures x.offset <= a.start {
        ApartFrom(x, all, freed, a.start, a.end);
      }
    }
  }

  /** If NO_TLS_OFFSET is 0, or no block starts there, nothing lies below a bridge. */
  lemma NoBridge(all: set<Block>, used: nat, none: nat)
    requires none == 0 || !StartsAt(none, all)
    ensures !BelowBridge(all, used, none) && !TwoBelowBridge(all, used, none)
  {
  }

  /** The blocks of a bridge, from the end of the used area down. */
  lemma {:induction false} BridgeIsRun(all: set<Block>, p: nat, used: nat, none: nat) returns (top: seq<Block>)
    requires IsLayout(all, used, none) && StartsAt(p, all) && Covered(p, used, all) && p < used
    ensures IsRun(top, p, used) && NoDup(top) && Elems(top) <= all
    ensures forall b | b in top :: p <= b.offset - b.size
    ensures forall b | b in top[..|top|-1] :: p < b.offset - b.size
    decreases used - p
  {
    var b :| b in all && b.offset - b.size == p;
    if b.offset == used {
      top := [b];
    } else {
      assert Within(b.offset, all);
      var x :| x in all && x.Holds(b.offset);
      assert x.offset - x.size == b.offset;
      var init := BridgeIsRun(all, b.offset, used, none);
      top := init + [b];
      assert top[..|top|-1] == init;
    }
  }

  /** Unloading a bridge from its end down to `none`, and then a block below it, gives back everything
      from that block on. */
  lemma BridgeThenLow(all: set<Block>, used: nat, none: nat, low: Block) returns (blocks: seq<Block>)
    requires IsLayout(all, used, none) && Bridge(all, used, none) && low in all && low.offset < none
    ensures NoDup(blocks) && Elems(blocks) <= all
    ensures Reclaim(used, blocks, none) == low.offset - low.size
    ensures forall b | b in blocks && b.offset <= none :: b == low
  {
    var s :| s in all && s.offset - s.size == none;
    var top := BridgeIsRun(all, none, used, none);
    RunIsChunk(used, top, none, used, none);
    blocks := top + [low];
    assert blocks[..|blocks|-1] == top;
  }

  /** Exactly the layouts without two blocks below a bridge can be unloaded in any order without the mark
      falling below a block in use. */
  lemma SafeInAnyOrderIff(used: nat, all: set<Block>, none: nat)
    requires IsLayout(all, used, none)
    ensures (forall blocks: seq<Block> | NoDup(blocks) && Elems(blocks) <= all ::
               AboveLive(Reclaim(used, blocks, none), all, Elems(blocks)))
            <==> !TwoBelowBridge(all, used, none)
  {
    if TwoBelowBridge(all, used, none) {
      var x, y :| x in all && y in all && x != y && x.offset < none && y.offset < none;
      var low, high := if x.offset < y.offset then x else y, if x.offset < y.offset then y else x;
      var blocks := BridgeThenLow(all, used, none, low);
      assert high in all - Elems(blocks);
    } else {
      forall blocks: seq<Block> | NoDup(blocks) && Elems(blocks) <= all
        ensures AboveLive(Reclaim(used, blocks, none), all, Elems(blocks))
      {
        ReclaimIsSafe(used, all, blocks, none);
      }
    }
  }

  /** Exactly the layouts without a block below a bridge can be unloaded in any order without giving back
      a byte that was not freed. */
  lemma GivesBackFreedIff(used: nat, all: set<Block>, none: nat)
    requires IsLayout(all, used, none)
    ensures (forall blocks: seq<Block> | NoDup(blocks) && Elems(blocks) <= all ::
               Covered(Reclaim(used, blocks, none), used, Elems(blocks)))
            <==> !BelowBridge(all, used, none)
  {
    if BelowBridge(all, used, none) {
      var low :| low in all && low.offset < none;
      var blocks := BridgeThenLow(all, used, none, low);
      var freed: set<Block> := Elems(blocks);
      SubLayout(freed, all, used, none);
      NothingBelowNone(all, used, none);
      assert Covered(none - 1, none, freed) ==> Within(none - 1, freed) && Within(none - 1, all);
    } else {
      forall blocks: seq<Block> | NoDup(blocks) && Elems(blocks) <= all
        ensures Covered(Reclaim(used, blocks, none), used, Elems(blocks))
      {
        ReclaimIsSafe(used, all, blocks, none);
      }
    }
  }

  /** What is left after a run of unloading can be unloaded safely in turn, from the new mark. */
  lemma RestIsLayout(used: nat, all: set<Block>, blocks: seq<Block>, none: nat)
    requires IsLayout(all, used, none) && !TwoBelowBridge(all, used, none)
    requires NoDup(blocks) && Elems(blocks) <= all
    ensures var r, rest := Reclaim(used, blocks, none), all - Elems(blocks);
      r <= used && AboveLive(r, all, Elems(blocks)) && IsLayout(rest, r, none) && !TwoBelowBridge(rest, r, none)
  {
    ReclaimIsSafe(used, all, blocks, none);
    var r, freed: set<Block> := Reclaim(used, blocks, none), Elems(blocks);
    var rest := all - freed;
    hide Reclaim, Elems, NoDup;
    SubLayout(rest, all, used, none);
    SubLayout(freed, all, used, none);
    if TwoBelowBridge(rest, r, none) {
      BridgeExtends(all, rest, freed, r, used, none);
      assert false;
    }
  }

  /** A bridge in what is left is part of a bridge in the whole. */
  lemma BridgeExtends(all: set<Block>, rest: set<Block>, freed: set<Block>, r: nat, used: nat, none: nat)
    requires IsLayout(all, used, none) && rest <= all && freed <= all && TwoBelowBridge(rest, r, none)
    requires !BelowBridge(all, used, none) ==> Covered(r, used, freed)
    ensures TwoBelowBridge(all, used, none)
  {
    SubLayout(rest, all, used, none);
    SubLayout(freed, all, used, none);
    hide IsLayout, StartsAt;
    var x, y :| x in rest && y in rest && x != y && x.offset < none && y.offset < none;
    assert x in all && y in all;
    if Covered(r, used, freed) {
      CoveredJoin(none, r, used, all);
    }
  }

  /** Each run unloads blocks that the runs before it have left. */
  ghost predicate AreRuns(all: set<Block>, runs: seq<seq<Block>>) {
    runs == [] || (NoDup(runs[0]) && Elems(runs[0]) <= all && AreRuns(all - Elems(runs[0]), runs[1..]))
  }

  /** The mark after these runs, and what they have left. */
  function ReclaimRuns(used: nat, runs: seq<seq<Block>>, none: nat): nat
    decreases |runs|
  {
    if runs == [] then used else ReclaimRuns(Reclaim(used, runs[0], none), runs[1..], none)
  }

  ghost function Remaining(all: set<Block>, runs: seq<seq<Block>>): set<Block> {
    if runs == [] then all else Remaining(all - Elems(runs[0]), runs[1..])
  }

  /** Over any sequence of runs, those of reruns and of later calls, the mark never rises and never falls below
      the end of a block still in use. */
  lemma {:induction false} RunsAreSafe(used: nat, all: set<Block>, runs: seq<seq<Block>>, none: nat)
    requires IsLayout(all, used, none) && !TwoBelowBridge(all, used, none) && AreRuns(all, runs)
    ensures ReclaimRuns(used, runs, none) <= used
    ensures forall b | b in Remaining(all, runs) :: b in all && b.offset <= ReclaimRuns(used, runs, none)
    decreases |runs|
  {
    hide IsLayout, TwoBelowBridge, Reclaim;
    if runs == [] {
      LayoutFits(all, used, none);
    } else {
      RestIsLayout(used, all, runs[0], none);
      RunsAreSafe(Reclaim(used, runs[0], none), all - Elems(runs[0]), runs[1..], none);
    }
  }

  lemma LayoutFits(all: set<Block>, used: nat, none: nat)
    requires IsLayout(all, used, none)
    ensures forall b | b in all :: b.offset <= used
  {
  }

  /** Each block lies directly below or directly above those before it; together they fill [lo, hi). */
  ghost predicate IsRun(blocks: seq<Block>, lo: nat, hi: nat) {
    if blocks == [] then false
    else
      var init, last := blocks[..|blocks|-1], blocks[|blocks|-1];
      if init == [] then
        lo == last.offset - last.size && hi == last.offset
      else
        || (lo == last.offset - last.size && IsRun(init, last.offset, hi))
        || (hi == last.offset && IsRun(init, lo, last.offset - last.size))
  }

  lemma {:induction false} RunIsChunk(used: nat, blocks: seq<Block>, lo: nat, hi: nat, none: nat)
    requires IsRun(blocks, lo, hi) && (forall b | b in blocks :: b.offset != none)
    requires forall b | b in blocks[..|blocks|-1] :: b.offset - b.size != none
    ensures AreaAfter(used, blocks, none) == Area(used, lo, hi) && lo < hi
    ensures hi != none && ((forall b | b in blocks :: b.offset - b.size != none) ==> lo != none)
  {
    var init, last := blocks[..|blocks|-1], blocks[|blocks|-1];
    assert last in blocks;
    assert AreaAfter(used, blocks, none) == Free(AreaAfter(used, init, none), last, none);
    if init != [] {
      assert forall b | b in init :: b in blocks;
      assert forall b | b in init[..|init|-1] :: b in init;
      if lo == last.offset - last.size && IsRun(init, last.offset, hi) {
        RunIsChunk(used, init, last.offset, hi, none);
      } else {
        RunIsChunk(used, init, lo, last.offset - last.size, none);
      }
    }
  }

  /** The blocks of a run lie inside it. */
  lemma {:induction false} RunBounds(blocks: seq<Block>, lo: nat, hi: nat)
    requires IsRun(blocks, lo, hi)
    ensures lo < hi && forall b | b in blocks :: lo <= b.offset - b.size && b.offset <= hi
  {
    var init, last := blocks[..|blocks|-1], blocks[|blocks|-1];
    assert blocks == init + [last];
    if init != [] {
      if lo == last.offset - last.size && IsRun(init, last.offset, hi) {
        RunBounds(init, last.offset, hi);
      } else {
        RunBounds(init, lo, last.offset - last.size);
      }
    }
  }

  ghost predicate EndsAt(p: int, blocks: seq<Block>) {
    exists b :: b in blocks && b.offset == p
  }

  lemma EndsAtLonger(blocks: seq<Block>, b: Block)
    ensures forall p :: EndsAt(p, blocks + [b]) <==> EndsAt(p, blocks) || p == b.offset
  {
    forall p ensures EndsAt(p, blocks + [b]) <==> EndsAt(p, blocks) || p == b.offset {
      if EndsAt(p, blocks) {
        var x :| x in blocks && x.offset == p;
        assert x in blocks + [b];
      }
      assert b in blocks + [b];
    }
  }

  /** Some block ends where the run ends, and some where any block but the lowest starts. */
  lemma {:induction false} RunEnds(blocks: seq<Block>, lo: nat, hi: nat)
    requires IsRun(blocks, lo, hi)
    ensures EndsAt(hi, blocks)
    ensures forall b | b in blocks && b.offset - b.size != lo :: EndsAt(b.offset - b.size, blocks)
  {
    hide EndsAt;
    var init, last := blocks[..|blocks|-1], blocks[|blocks|-1];
    assert blocks == init + [last];
    EndsAtLonger(init, last);
    if init != [] {
      if lo == last.offset - last.size && IsRun(init, last.offset, hi) {
        RunEnds(init, last.offset, hi);
      } else {
        RunEnds(init, lo, last.offset - last.size);
      }
    }
  }

  /** Once the lowest block of a run, which starts at `none`, is followed by another one, its start is lost. */
  lemma {:induction false} StartIsLost(used: nat, blocks: seq<Block>, lo: nat, hi: nat, none: nat)
    requires IsRun(blocks, lo, hi) && hi <= used && forall b | b in blocks :: b.offset != none
    requires exists b :: b in blocks[..|blocks|-1] && b.offset - b.size == none
    ensures var a := AreaAfter(used, blocks, none); lo == none && lo < a.start && lo < a.used
  {
    var init, last := blocks[..|blocks|-1], blocks[|blocks|-1];
    assert blocks == init + [last];
    assert AreaAfter(used, blocks, none) == Free(AreaAfter(used, init, none), last, none);
    var below := lo == last.offset - last.size && IsRun(init, last.offset, hi);
    var mid := last.offset - last.size;
    RunStartsAtNone(init, if below then last.offset else lo, if below then hi else mid, none);
    RunBounds(init, lo, mid);
    hide AreaAfter, IsRun;
    if exists b :: b in init[..|init|-1] && b.offset - b.size == none {
      StartIsLost(used, init, lo, mid, none);
    } else {
      RunIsChunk(used, init, lo, mid, none);
    }
  }

  /** In a run of blocks that do not end at `none`, only the lowest one can start there. */
  lemma RunStartsAtNone(blocks: seq<Block>, lo: nat, hi: nat, none: nat)
    requires IsRun(blocks, lo, hi) && forall b | b in blocks :: b.offset != none
    requires exists b :: b in blocks && b.offset - b.size == none
    ensures lo == none
  {
    RunEnds(blocks, lo, hi);
  }

  /** Objects whose blocks adjoin, unloaded in either direction, are given back as a whole exactly when
      they are at the end of the used area and no block but the last starts at NO_TLS_OFFSET. */
  lemma RunIsReclaimedIff(used: nat, blocks: seq<Block>, lo: nat, hi: nat, none: nat)
    requires IsRun(blocks, lo, hi) && forall b | b in blocks :: b.offset != none
    ensures var early := exists b :: b in blocks[..|blocks|-1] && b.offset - b.size == none;
      && (!early ==> Reclaim(used, blocks, none) == if hi == used then lo else used)
      && (hi <= used ==> (Reclaim(used, blocks, none) == lo <==> hi == used && !early))
  {
    if exists b :: b in blocks[..|blocks|-1] && b.offset - b.size == none {
      if hi <= used {
        StartIsLost(used, blocks, lo, hi, none);
      }
    } else {
      RunIsChunk(used, blocks, lo, hi, none);
    }
  }

  // ---------- runs after runs ----------

  /** No block starts or ends at `none`. */
  ghost predicate Avoiding(blocks: seq<Block>, none: nat) {
    forall b | b in blocks :: b.offset != none && b.offset - b.size != none
  }

  lemma {:induction false} FreeAllConcat(a: Area, x: seq<Block>, y: seq<Block>, none: nat)
    ensures FreeAll(a, x + y, none) == FreeAll(FreeAll(a, x, none), y, none)
  {
    if y == [] {
      assert x + y == x;
    } else {
      assert (x + y)[..|x + y|-1] == x + y[..|y|-1];
      FreeAllConcat(a, x, y[..|y|-1], none);
    }
  }

  lemma FreeLast(a: Area, blocks: seq<Block>, none: nat)
    requires blocks != []
    ensures FreeAll(a, blocks, none) == Free(FreeAll(a, blocks[..|blocks|-1], none), blocks[|blocks|-1], none)
  {
  }

  lemma RunIsArea(used: nat, blocks: seq<Block>, lo: nat, hi: nat, none: nat)
    requires IsRun(blocks, lo, hi) && Avoiding(blocks, none)
    ensures FreeAll(Area(used, none, none), blocks, none) == Area(used, lo, hi) && lo < hi && lo != none && hi != none
  {
    assert forall b | b in blocks[..|blocks|-1] :: b in blocks;
    RunIsChunk(used, blocks, lo, hi, none);
  }

  /** The chunk when a run that has reached [lo, hi) is being unloaded below `top`, where the mark or a chunk
      at the mark begins. */
  ghost predicate Reaching(a: Area, lo: nat, hi: nat, top: nat) {
    a.start == lo && if hi == top then a.end == a.used else a.end == hi && a.used == top
  }

  /** A run that ends where a chunk at the mark begins, in whatever order it builds up. */
  lemma {:induction false} RunBelowChunk(a: Area, blocks: seq<Block>, lo: nat, hi: nat, top: nat, none: nat)
    requires IsRun(blocks, lo, hi) && Avoiding(blocks, none) && hi <= top
    requires a.start == top && a.end == a.used && top < a.used && top != none && a.used != none
    ensures Reaching(FreeAll(a, blocks, none), lo, hi, top) && lo < hi && lo != none
    ensures FreeAll(a, blocks, none).used in {a.used, top}
  {
    var init, last := blocks[..|blocks|-1], blocks[|blocks|-1];
    assert last in blocks && forall b | b in init :: b in blocks;
    RunBounds(blocks, lo, hi);
    RunIsArea(0, blocks, lo, hi, none);
    FreeLast(a, blocks, none);
    if init == [] {
      assert FreeAll(a, init, none) == a;
    } else if lo == last.offset - last.size && IsRun(init, last.offset, hi) {
      RunBelowChunk(a, init, last.offset, hi, top, none);
    } else {
      RunBelowChunk(a, init, lo, last.offset - last.size, top, none);
    }
  }

  /** The run i fills what lies between two marks; the next one lies directly below it. */
  ghost predicate AreStacked(runs: seq<seq<Block>>, marks: seq<nat>) {
    |marks| == |runs| + 1 && forall i | 0 <= i < |runs| :: IsRun(runs[i], marks[i+1], marks[i])
  }

  function Concat(runs: seq<seq<Block>>): seq<Block> {
    if runs == [] then [] else Concat(runs[..|runs|-1]) + runs[|runs|-1]
  }

  lemma {:induction false} StackedIsChunk(runs: seq<seq<Block>>, marks: seq<nat>, none: nat)
    requires runs != [] && AreStacked(runs, marks) && Avoiding(Concat(runs), none)
    ensures var a := FreeAll(Area(marks[0], none, none), Concat(runs), none);
      a.start == marks[|runs|] && a.end == a.used && a.start < a.used && a.start != none && a.used != none
  {
    var n := |runs| - 1;
    var init, last := runs[..n], runs[n];
    assert IsRun(last, marks[n+1], marks[n]);
    assert forall b | b in Concat(init) :: b in Concat(runs);
    assert forall b | b in last :: b in Concat(runs);
    FreeAllConcat(Area(marks[0], none, none), Concat(init), last, none);
    if n == 0 {
      assert Concat(runs) == last;
      RunIsArea(marks[0], last, marks[1], marks[0], none);
    } else {
      forall i | 0 <= i < n ensures IsRun(init[i], marks[..n+1][i+1], marks[..n+1][i]) {
        assert IsRun(runs[i], marks[i+1], marks[i]);
      }
      StackedIsChunk(init, marks[..n+1], none);
      RunBelowChunk(FreeAll(Area(marks[0], none, none), Concat(init), none), last, marks[n+1], marks[n], marks[n], none);
    }
  }

  /** Runs stacked below the mark are given back whole: where a block does not adjoin a chunk that stands at
      the mark, that chunk is given back and the block begins the next one. */
  lemma StackedRunsAreReclaimed(runs: seq<seq<Block>>, marks: seq<nat>, none: nat)
    requires AreStacked(runs, marks) && Avoiding(Concat(runs), none)
    ensures Reclaim(marks[0], Concat(runs), none) == marks[|runs|]
  {
    if runs != [] {
      StackedIsChunk(runs, marks, none);
    }
  }

  /** Runs unloaded one after the other, each by a dlclose of its own, are given back just the same. */
  lemma {:induction false} StackedRunsInTurn(runs: seq<seq<Block>>, marks: seq<nat>, none: nat)
    requires AreStacked(runs, marks) && forall i | 0 <= i < |runs| :: Avoiding(runs[i], none)
    ensures ReclaimRuns(marks[0], runs, none) == marks[|runs|]
    decreases |runs|
  {
    if runs != [] {
      assert IsRun(runs[0], marks[1], marks[0]);
      RunIsReclaimedIff(marks[0], runs[0], marks[1], marks[0], none);
      forall i | 0 <= i < |runs| - 1 ensures IsRun(runs[1..][i], marks[1..][i+1], marks[1..][i]) {
        assert IsRun(runs[i+1], marks[i+2], marks[i+1]);
      }
      StackedRunsInTurn(runs[1..], marks[1..], none);
    }
  }

  /** Each block ends at the mark when it is unloaded; the mark falls from hi to lo. */
  ghost predicate IsStack(blocks: seq<Block>, lo: nat, hi: nat) {
    if blocks == [] then lo == hi
    else var last := blocks[|blocks|-1]; lo == last.offset - last.size && IsStack(blocks[..|blocks|-1], last.offset, hi)
  }

  /** Blocks at the mark are given back at once, and the chunk below them is kept. */
  lemma {:induction false} StackKeepsChunk(used: nat, start: nat, end: nat, blocks: seq<Block>, lo: nat, none: nat)
    requires IsStack(blocks, lo, used) && start < end < lo && start != none
    ensures FreeAll(Area(used, start, end), blocks, none) == Area(lo, start, end) && lo <= used
  {
    if blocks != [] {
      var init, last := blocks[..|blocks|-1], blocks[|blocks|-1];
      FreeLast(Area(used, start, end), blocks, none);
      StackKeepsChunk(used, start, end, init, last.offset, none);
    }
  }

  /** A run below the mark is not forgotten while blocks at the mark are given back, one at a time: once the
      rest of it has been unloaded, it is given back, too. */
  lemma StackAboveRunIsReclaimed(used: nat, run: seq<Block>, stack: seq<Block>, rest: seq<Block>, lo: nat, mid: nat, none: nat)
    requires Avoiding(run + rest, none) && IsStack(stack, mid, used) && IsRun(run + rest, lo, mid)
    requires exists l: nat, h: nat :: IsRun(run, l, h) && h < mid
    ensures Reclaim(used, run + stack, none) == mid
    ensures Reclaim(used, run + stack + rest, none) == lo
  {
    var l: nat, h: nat :| IsRun(run, l, h) && h < mid;
    assert forall b | b in run :: b in run + rest;
    RunIsArea(used, run, l, h, none);
    RunIsArea(mid, run, l, h, none);
    StackKeepsChunk(used, l, h, stack, mid, none);
    FreeAllConcat(Area(used, none, none), run, stack, none);
    FreeAllConcat(Area(used, none, none), run + stack, rest, none);
    FreeAllConcat(Area(mid, none, none), run, rest, none);
    RunIsArea(mid, run + rest, lo, mid, none);
  }

  /** What remains of a chunk once a run above it, which does not adjoin it, has reached [lo, hi): it is either
      kept, the run having been given back from the mark down, or forgotten for the run. */
  ghost predicate Rising(a: Area, start: nat, end: nat, lo: nat, hi: nat, used: nat) {
    || (hi == used && a == Area(lo, start, end))
    || (a.start == lo && (a.end == hi) && a.used == used)
  }

  lemma {:induction false} RunAboveChunk(used: nat, start: nat, end: nat, blocks: seq<Block>, lo: nat, hi: nat, none: nat)
    requires IsRun(blocks, lo, hi) && Avoiding(blocks, none) && start < end < lo && hi <= used && start != none
    ensures Rising(FreeAll(Area(used, start, end), blocks, none), start, end, lo, hi, used) && lo < hi
  {
    var init, last := blocks[..|blocks|-1], blocks[|blocks|-1];
    assert last in blocks && forall b | b in init :: b in blocks;
    RunBounds(blocks, lo, hi);
    RunIsArea(0, blocks, lo, hi, none);
    FreeLast(Area(used, start, end), blocks, none);
    if init == [] {
      assert FreeAll(Area(used, start, end), init, none) == Area(used, start, end);
    } else if lo == last.offset - last.size && IsRun(init, last.offset, hi) {
      RunAboveChunk(used, start, end, init, last.offset, hi, none);
    } else {
      RunAboveChunk(used, start, end, init, lo, last.offset - last.size, none);
    }
  }

  /** Of two runs apart, the later one in memory is given back if it ends at the mark. */
  lemma LaterRunIsReclaimed(used: nat, run: seq<Block>, later: seq<Block>, lo: nat, hi: nat, mid: nat, none: nat)
    requires IsRun(run, lo, hi) && IsRun(later, mid, used) && hi < mid && Avoiding(run + later, none)
    ensures Reclaim(used, run + later, none) == mid
  {
    assert forall b | b in run :: b in run + later;
    assert forall b | b in later :: b in run + later;
    RunIsArea(used, run, lo, hi, none);
    FreeAllConcat(Area(used, none, none), run, later, none);
    RunAboveChunk(used, lo, hi, later, mid, used, none);
  }

  lemma {:induction false} LostBelow(a: Area, lost: seq<Block>, none: nat)
    requires a.start != none && a.start < a.end < a.used && forall b | b in lost :: b.offset < a.start
    ensures FreeAll(a, lost, none) == a
  {
    if lost != [] {
      FreeLast(a, lost, none);
      assert lost[|lost|-1] in lost && forall b | b in lost[..|lost|-1] :: b in lost;
      LostBelow(a, lost[..|lost|-1], none);
    }
  }

  /** Blocks below a run that does not yet end at the mark, and apart from it, are lost; the run is not. */
  lemma BlocksBelowRunAreLost(used: nat, run: seq<Block>, lost: seq<Block>, rest: seq<Block>, lo: nat, none: nat)
    requires IsRun(run + rest, lo, used) && Avoiding(run + rest, none)
    requires exists l: nat, h: nat :: IsRun(run, l, h) && h < used && forall b | b in lost :: b.offset < l
    ensures Reclaim(used, run + lost + rest, none) == lo
  {
    var l: nat, h: nat :| IsRun(run, l, h) && h < used && forall b | b in lost :: b.offset < l;
    assert forall b | b in run :: b in run + rest;
    RunIsArea(used, run, l, h, none);
    LostBelow(Area(used, l, h), lost, none);
    FreeAllConcat(Area(used, none, none), run, lost, none);
    FreeAllConcat(Area(used, none, none), run + lost, rest, none);
    FreeAllConcat(Area(used, none, none), run, rest, none);
    RunIsArea(used, run + rest, lo, used, none);
  }

  /** Without adjacency the outcome depends on the order: the same four blocks at the end of the area
      are given back whole, or all but the first. */
  lemma OrderMatters()
    ensures var a, b, c, d := Block(16, 8), Block(24, 8), Block(32, 8), Block(40, 8);
      Reclaim(40, [a, b, c, d], 0) == 8 && Reclaim(40, [a, c, d, b], 0) == 16
  {
    var a, b, c, d := Block(16, 8), Block(24, 8), Block(32, 8), Block(40, 8);
    assert [a, b, c, d][..3] == [a, b, c] && [a, b, c][..2] == [a, b] && [a, b][..1] == [a];
    assert [a, c, d, b][..3] == [a, c, d] && [a, c, d][..2] == [a, c] && [a, c][..1] == [a];
    assert FreeAll(Area(40, 0, 0), [a], 0) == Area(40, 8, 16);
    assert FreeAll(Area(40, 0, 0), [a, b], 0) == Area(40, 8, 24);
    assert FreeAll(Area(40, 0, 0), [a, c], 0) == Area(40, 24, 32);
    assert FreeAll(Area(40, 0, 0), [a, b, c], 0) == Area(40, 8, 32);
    assert FreeAll(Area(40, 0, 0), [a, c, d], 0) == Area(40, 24, 40);
  }

  /** A block that starts at NO_TLS_OFFSET makes the chunk look absent: the next block, which does not
      adjoin it, is joined to its end, and the chunk is no longer a range. */
  lemma StartAtNoneBreaksChunk()
    ensures var a, b := Block(8, 8), Block(24, 8);
      FreeAll(Area(24, 0, 0), [a, b], 0) == Area(24, 16, 8)
  {
    var a, b := Block(8, 8), Block(24, 8);
    assert [a, b][..1] == [a];
    assert FreeAll(Area(24, 0, 0), [a], 0) == Area(24, 0, 8);
  }

  /** If NO_TLS_OFFSET is not 0, the mark itself can fall below a block in use: here below the one that
      ends at 2. */
  lemma MarkFallsBelowLive()
    ensures var a, b, c, d, live: Block := Block(5, 2), Block(1, 1), Block(6, 1), Block(7, 1), Block(2, 1);
      && IsLayout({a, b, c, d, live}, 7, 3) && TwoBelowBridge({a, b, c, d, live}, 7, 3)
      && Reclaim(7, [a, b, c, d], 3) == 0 < live.offset
  {
    var a, b, c, d, live: Block := Block(5, 2), Block(1, 1), Block(6, 1), Block(7, 1), Block(2, 1);
    var all := {a, b, c, d, live};
    assert [a, b, c, d][..3] == [a, b, c] && [a, b, c][..2] == [a, b] && [a, b][..1] == [a];
    assert FreeAll(Area(7, 3, 3), [a], 3) == Area(7, 3, 5);
    assert FreeAll(Area(7, 3, 3), [a, b], 3) == Area(7, 0, 5);
    assert FreeAll(Area(7, 3, 3), [a, b, c], 3) == Area(7, 0, 6);
    assert a in all && b in all && live in all && b != live;
    forall p | 3 <= p < 7 ensures Within(p, all) {
      assert (if p < 5 then a else if p < 6 then c else d).Holds(p);
    }
  }
}
