/** What unloading objects does to the thread-local storage tables: the chain of slot chunks, the highest
    module index, the generation, and the static TLS mark. */
module TlsUnload {
  import opened Filtering
  import opened TlsReclaim

  datatype TlsModule = TlsModule(modid: nat, blocksize: nat, offset: nat, initCalled: bool)

  datatype Slot = Free(gen: nat) | Taken(gen: nat, owner: TlsModule)

  /** struct dtv_slotinfo_list. */
  class SlotChunk {
    const slotinfo: array<Slot>
    var next: SlotChunk?

    constructor (slots: array<Slot>)
      ensures slotinfo == slots && next == null
    {
      slotinfo, next := slots, null;
    }
  }

  ghost predicate IsChain(head: SlotChunk?, chain: seq<SlotChunk>)
    reads Elems(chain)`next
  {
    && head == (if chain == [] then null else chain[0])
    && (forall i, j | 0 <= i < j < |chain| && j == i + 1 :: chain[i].next == chain[j])
    && (chain != [] ==> chain[|chain|-1].next == null)
    && (forall i, j | 0 <= i < j < |chain| :: chain[i].slotinfo != chain[j].slotinfo)
  }

  ghost function SlotArrays(chain: seq<SlotChunk>): set<array<Slot>> {
    set c | c in chain :: c.slotinfo
  }

  /** All slots, in order of their index. */
  ghost function Flat(chain: seq<SlotChunk>): seq<Slot>
    reads SlotArrays(chain)
  {
    if chain == [] then [] else chain[0].slotinfo[..] + Flat(chain[1..])
  }

  /** The highest taken index in [low, n), or else low - 1. */
  function Top(s: seq<Slot>, n: nat, low: nat): (r: int)
    requires n <= |s|
    ensures low - 1 <= r && (low <= r ==> r < n && s[r].Taken?)
    ensures forall i | low <= i < n && r < i :: s[i].Free?
  {
    if n <= low then low - 1
    else if s[n-1].Taken? then n - 1
    else Top(s, n - 1, low)
  }

  function Clear(s: seq<Slot>, i: nat, gen: nat): (r: seq<Slot>)
    ensures |r| == |s|
  {
    if i < |s| && s[i].Taken? then s[i := Slot.Free(gen)] else s
  }

  lemma {:induction false} TopIgnores(s: seq<Slot>, t: seq<Slot>, n: nat, low: nat)
    requires n <= |s| && n <= |t| && forall i | low <= i < n :: s[i].Taken? <==> t[i].Taken?
    ensures Top(s, n, low) == Top(t, n, low)
  {
    if n > low {
      TopIgnores(s, t, n - 1, low);
    }
  }

  lemma {:induction false} TopConcat(a: seq<Slot>, b: seq<Slot>, k: nat, low: nat)
    requires low <= |a| && k <= |b|
    ensures Top(a + b, |a| + k, low) == if Top(b, k, 0) >= 0 then |a| + Top(b, k, 0) else Top(a, |a|, low)
  {
    if k == 0 {
      TopIgnores(a + b, a, |a|, low);
    } else {
      TopConcat(a, b, k - 1, low);
    }
  }

  /** Clearing a slot changes the highest taken index only if it was that slot's. */
  lemma TopAfterClear(s: seq<Slot>, i: nat, gen: nat, low: nat)
    requires low <= i < |s|
    ensures Top(Clear(s, i, gen), |s|, low) == if Top(s, |s|, low) == i then Top(s, i, low) else Top(s, |s|, low)
    ensures Top(Clear(s, i, gen), i, low) == Top(s, i, low)
  {
  }

  lemma ChainTail(head: SlotChunk?, chain: seq<SlotChunk>)
    requires IsChain(head, chain) && head != null
    ensures chain != [] && head == chain[0]
    ensures chain[0].next == null <==> chain[1..] == []
    ensures IsChain(head.next, chain[1..]) && head.slotinfo !in SlotArrays(chain[1..])
    ensures SlotArrays(chain) == SlotArrays(chain[1..]) + {head.slotinfo}
  {
    var rest := chain[1..];
    forall i, j | 0 <= i < j < |rest| && j == i + 1 ensures rest[i].next == rest[j] {
      assert chain[i+1].next == chain[j+1];
    }
    assert forall k | 0 <= k < |rest| :: rest[k] == chain[k+1];
    assert chain == [chain[0]] + rest;
    if rest != [] {
      assert chain[0].next == chain[1];
    }
  }

  lemma FlatIs(chain: seq<SlotChunk>)
    ensures Flat(chain) == if chain == [] then [] else chain[0].slotinfo[..] + Flat(chain[1..])
  {
  }

  lemma EmptyTail(chain: seq<SlotChunk>, i: nat, gen: nat, was: nat, disp: nat)
    requires chain == []
    ensures Flat(chain) == [] && Clear([], i, gen) == [] && Adjusted(false, was, was, [], 0, 0, disp)
  {
  }

  lemma ClearIn(a: seq<Slot>, b: seq<Slot>, i: nat, gen: nat)
    ensures Clear(a + b, i, gen) == if i < |a| then Clear(a, i, gen) + b else a + Clear(b, i - |a|, gen)
  {
  }

  /** The highest index, which was `was`, is now that of the highest taken slot below k, if there is one;
      disp is the index of the first of the slots s. */
  ghost predicate Adjusted(found: bool, now: nat, was: nat, s: seq<Slot>, k: nat, low: nat, disp: nat)
    requires k <= |s|
  {
    var top := Top(s, k, low);
    (found <==> low <= top) && now == if found then disp + top else was
  }

  /** A search that ends in the later chunks, b. */
  lemma AdjustedLater(now: nat, was: nat, a: seq<Slot>, b: seq<Slot>, k: nat, low: nat, disp: nat)
    requires low <= |a| && |a| <= k <= |a| + |b| && Adjusted(true, now, was, b, k - |a|, 0, disp + |a|)
    ensures Adjusted(true, now, was, a + b, k, low, disp)
  {
    TopConcat(a, b, k - |a|, low);
  }

  /** A search that finds nothing there and goes on in the first chunk, a. */
  lemma AdjustedHere(found: bool, now: nat, mid: nat, was: nat, a: seq<Slot>, b: seq<Slot>, k: nat, low: nat, disp: nat)
    requires low <= |a| && |a| <= k <= |a| + |b| && Adjusted(false, mid, was, b, k - |a|, 0, disp + |a|)
    requires Adjusted(found, now, mid, a, |a|, low, disp)
    ensures Adjusted(found, now, was, a + b, k, low, disp)
  {
    TopConcat(a, b, k - |a|, low);
  }

  /** The module's slot, if it has one, is its own and is not one of the static ones. */
  ghost predicate Fits(m: TlsModule, nelem: nat, slots: seq<Slot>) {
    && nelem < m.modid
    && (slots != [] && m.initCalled ==> m.modid < |slots|)
    && (m.modid < |slots| && slots[m.modid].Taken? ==> slots[m.modid].owner.modid == m.modid)
  }

  /** The search for the slot of m begins behind the last slot and reads what is no slot. */
  ghost predicate Strays(m: TlsModule, slots: seq<Slot>) {
    slots != [] && m.modid > |slots|
  }

  /** What clearing the slot of m reports and does to the highest index. */
  ghost predicate Reported(found: bool, now: nat, was: nat, s: seq<Slot>, m: TlsModule, nelem: nat, gen: nat) {
    if s == [] || (m.modid < |s| && m.modid != was) then found && now == was
    else m.modid <= |s| && Adjusted(found, now, was, Clear(s, m.modid, gen), m.modid, 1 + nelem, 0)
  }

  /** Whatever is reported, the highest index becomes that of the highest taken slot, if it was that before. */
  lemma TightAfter(s: seq<Slot>, m: TlsModule, nelem: nat, gen: nat, was: nat, found: bool, now: nat)
    requires Fits(m, nelem, s) && !Strays(m, s) && was == Top(s, |s|, 1 + nelem) && Reported(found, now, was, s, m, nelem, gen)
    ensures var t := Clear(s, m.modid, gen); Top(t, |t|, 1 + nelem) == if found then now else nelem
  {
    if m.modid < |s| {
      TopAfterClear(s, m.modid, gen, 1 + nelem);
    }
  }

  /** The highest index that the caller is left with. */
  lemma ReportedMeans(found: bool, now: nat, was: nat, s: seq<Slot>, m: TlsModule, nelem: nat, gen: nat)
    requires Fits(m, nelem, s) && !Strays(m, s) && Reported(found, now, was, s, m, nelem, gen)
    ensures var t, max := Clear(s, m.modid, gen), if found then now else nelem;
      && (if s == [] || (m.modid < |s| && m.modid != was) then max == was
          else m.modid <= |s| && max == Top(t, m.modid, 1 + nelem))
      && (was == Top(s, |s|, 1 + nelem) ==> max == Top(t, |t|, 1 + nelem))
  {
    if was == Top(s, |s|, 1 + nelem) {
      TightAfter(s, m, nelem, gen, was, found, now);
    }
  }

  lemma ClearNone(s: seq<Slot>, i: nat, gen: nat)
    requires i >= |s|
    ensures Clear(s, i, gen) == s
  {
  }

  /** The static TLS blocks of the modules, in order. */
  function StaticBlocks(mods: seq<TlsModule>, none: nat, forced: nat): seq<Block>
    requires forall m | m in mods && IsStatic(m, none, forced) :: m.blocksize <= m.offset
  {
    if mods == [] then []
    else
      var init, last := mods[..|mods|-1], mods[|mods|-1];
      StaticBlocks(init, none, forced) + if IsStatic(last, none, forced) then [Block(last.offset, last.blocksize)] else []
  }

  predicate IsStatic(m: TlsModule, none: nat, forced: nat) {
    m.blocksize > 0 && m.offset != none && m.offset != forced
  }

  /** One more module: an object with thread-local storage has a static block, which ends at its offset, unless
      the offset is NO_TLS_OFFSET or FORCED_DYNAMIC_TLS_OFFSET. */
  lemma StaticBlocksOfOne(mods: seq<TlsModule>, m: TlsModule, none: nat, forced: nat)
    requires m.blocksize > 0 ==> m.offset == none || m.offset == forced || m.blocksize <= m.offset
    requires forall x | x in mods && x.blocksize > 0 :: x.offset == none || x.offset == forced || x.blocksize <= x.offset
    ensures forall x | x in mods + [m] && IsStatic(x, none, forced) :: x.blocksize <= x.offset
    ensures forall x | x in mods && IsStatic(x, none, forced) :: x.blocksize <= x.offset
    ensures StaticBlocks([], none, forced) == []
    ensures StaticBlocks(mods + [m], none, forced) ==
      if m.blocksize == 0 || m.offset == none || m.offset == forced then StaticBlocks(mods, none, forced)
      else StaticBlocks(mods, none, forced) + [Block(m.offset, m.blocksize)]
  {
    assert (mods + [m])[..|mods|] == mods;
  }

  ghost predicate AnyTls(mods: seq<TlsModule>) {
    exists m :: m in mods && m.blocksize > 0
  }

  lemma {:induction false} NoStaticBlocks(mods: seq<TlsModule>, none: nat, forced: nat)
    requires !AnyTls(mods)
    ensures StaticBlocks(mods, none, forced) == []
  {
    if mods != [] {
      assert mods[|mods|-1] in mods;
      assert forall m | m in mods[..|mods|-1] :: m in mods;
      NoStaticBlocks(mods[..|mods|-1], none, forced);
    }
  }

  class TlsTables {
    /** NO_TLS_OFFSET and FORCED_DYNAMIC_TLS_OFFSET. */
    const none: nat
    const forced: nat
    var slotinfoList: SlotChunk?
    var generation: nat
    var maxDtvIdx: nat
    var staticNelem: nat
    var staticUsed: nat
    ghost var Chain: seq<SlotChunk>

    constructor (none: nat, forced: nat, list: SlotChunk?, staticNelem: nat, ghost chain: seq<SlotChunk>)
      requires IsChain(list, chain) && (chain != [] ==> staticNelem < chain[0].slotinfo.Length)
      ensures Valid() && Chain == chain && this.none == none && this.forced == forced && this.staticNelem == staticNelem
      ensures maxDtvIdx == staticNelem && generation == 0 && staticUsed == 0
    {
      this.none, this.forced, slotinfoList, this.staticNelem := none, forced, list, staticNelem;
      generation, maxDtvIdx, staticUsed, Chain := 0, staticNelem, 0, chain;
    }

    ghost predicate Valid()
      reads `slotinfoList, `Chain, `staticNelem, Elems(Chain)`next
    {
      IsChain(slotinfoList, Chain) && (Chain != [] ==> staticNelem < Chain[0].slotinfo.Length)
    }

    ghost function Slots(): seq<Slot>
      reads `Chain, SlotArrays(Chain)
    {
      Flat(Chain)
    }

    /** No index is reserved: the highest index is the highest taken one, if any is above the static ones. */
    ghost predicate Tight()
      reads `Chain, SlotArrays(Chain), `maxDtvIdx, `staticNelem
    {
      maxDtvIdx == Top(Slots(), |Slots()|, 1 + staticNelem)
    }

    /** Looks for the highest taken slot of one chunk below hi. */
    method SearchDown(slots: array<Slot>, hi: nat, low: nat, disp: nat, ghost chain: seq<SlotChunk>)
      returns (found: bool)
      requires hi <= slots.Length
      modifies `maxDtvIdx
      ensures Adjusted(found, maxDtvIdx, old(maxDtvIdx), slots[..], hi, low, disp)
      ensures Flat(chain) == old(Flat(chain))
    {
      assert forall a: array<Slot> | a in SlotArrays(chain) :: a as object != this as object;
      var idx := disp + hi;
      while idx - disp > low
        invariant disp <= idx <= disp + hi && maxDtvIdx == old(maxDtvIdx)
        invariant Top(slots[..], idx - disp, low) == Top(slots[..], hi, low)
      {
        idx := idx - 1;
        if slots[idx-disp].Taken? {
          maxDtvIdx := idx;
          return true;
        }
      }
      return false;
    }

    /** The case that the index lies in the chunk listp. */
    method RemoveHere(idx: nat, listp: SlotChunk, disp: nat, low: nat, ghost chain: seq<SlotChunk>)
      returns (found: bool)
      requires IsChain(listp, chain) && disp <= idx < disp + listp.slotinfo.Length
      requires listp.slotinfo[idx-disp].Taken? ==> listp.slotinfo[idx-disp].owner.modid == idx
      modifies `maxDtvIdx, listp.slotinfo
      ensures Flat(chain) == old(Clear(Flat(chain), idx - disp, generation + 1))
      ensures idx != old(maxDtvIdx) ==> found && maxDtvIdx == old(maxDtvIdx)
      ensures idx == old(maxDtvIdx) ==> Adjusted(found, maxDtvIdx, old(maxDtvIdx), Flat(chain), idx - disp, low, disp)
    {
      var slots := listp.slotinfo;
      ghost var rest := Flat(chain[1..]);
      ChainTail(listp, chain);
      if slots[idx-disp].Taken? {
        slots[idx-disp] := Slot.Free(generation + 1);
      }
      assert Flat(chain) == slots[..] + rest;
      if idx != maxDtvIdx {
        return true;
      }
      TopIgnores(slots[..], Flat(chain), idx - disp, low);
      found := SearchDown(slots, idx - disp, low, disp, chain);
    }

    /** Clears the slot of one module, and finds the highest index left when that was the highest.
        chain is the part of the list that starts at listp.  An index more than one past the last slot makes
        the search read what is no slot: then `outside` is set, and nothing is said about what it finds. */
    method RemoveSlotinfo(idx: nat, listp: SlotChunk, disp: nat, shouldBeThere: bool, ghost chain: seq<SlotChunk>)
      returns (found: bool, outside: bool)
      requires IsChain(listp, chain) && disp <= idx
      requires shouldBeThere ==> idx < disp + |Flat(chain)|
      requires disp == 0 ==> staticNelem < listp.slotinfo.Length && staticNelem < idx
      requires idx < disp + |Flat(chain)| && Flat(chain)[idx-disp].Taken? ==> Flat(chain)[idx-disp].owner.modid == idx
      modifies `maxDtvIdx, SlotArrays(chain)
      ensures Flat(chain) == old(Clear(Flat(chain), idx - disp, generation + 1))
      ensures outside <==> idx > disp + |Flat(chain)|
      ensures outside ==> maxDtvIdx == old(maxDtvIdx)
      ensures !outside ==>
              if idx < disp + |Flat(chain)| && idx != old(maxDtvIdx) then found && maxDtvIdx == old(maxDtvIdx)
              else Adjusted(found, maxDtvIdx, old(maxDtvIdx), Flat(chain), idx - disp,
                            if disp == 0 then 1 + staticNelem else 0, disp)
      decreases |chain|
    {
      hide Top, Flat, Clear, IsChain, Adjusted, SlotArrays;
      var slots := listp.slotinfo;
      ChainTail(listp, chain);
      FlatIs(chain);
      var low := if disp == 0 then 1 + staticNelem else 0;
      if idx - disp >= slots.Length {
        ghost var was, k := maxDtvIdx, idx - disp;
        ghost var a, b := slots[..], Flat(chain[1..]);
        ClearIn(a, b, k, generation + 1);
        found, outside := false, false;
        if listp.next != null {
          found, outside := RemoveSlotinfo(idx, listp.next, disp + slots.Length, shouldBeThere, chain[1..]);
          FlatIs(chain);
          if outside {
            return;
          }
          if found {
            if maxDtvIdx != was || idx >= disp + |Flat(chain)| || idx == was {
              AdjustedLater(maxDtvIdx, was, a, Flat(chain[1..]), k, low, disp);
            }
            return;
          }
        } else {
          EmptyTail(chain[1..], k - |a|, generation + 1, was, disp + |a|);
          if idx - disp > slots.Length {
            return false, true;
          }
        }
        ghost var mid := maxDtvIdx;
        found := SearchDown(slots, slots.Length, low, disp, chain);
        AdjustedHere(found, maxDtvIdx, mid, was, a, Clear(b, k - |a|, generation + 1), k, low, disp);
      } else {
        outside := false;
        found := RemoveHere(idx, listp, disp, low, chain);
      }
    }

    lemma ChainHead()
      requires Valid()
      ensures slotinfoList != null ==> slotinfoList == Chain[0] && Chain[0].slotinfo.Length > 0 && Slots() != []
      ensures slotinfoList == null <==> Chain == []
      ensures slotinfoList == null ==> Slots() == []
    {
    }

    /** Clears the slot of one unloaded module. */
    method RemoveFromList(m: TlsModule) returns (found: bool, outside: bool)
      requires Valid() && Fits(m, staticNelem, Slots())
      modifies `maxDtvIdx, SlotArrays(Chain)
      ensures Valid() && Slots() == old(Clear(Slots(), m.modid, generation + 1))
      ensures outside <==> Strays(m, old(Slots()))
      ensures !outside ==> Reported(found, maxDtvIdx, old(maxDtvIdx), old(Slots()), m, staticNelem, generation + 1)
    {
      hide Top, Clear, Adjusted;
      assert forall c: SlotChunk, a: array<Slot> | c in Elems(Chain) && a in SlotArrays(Chain) :: c as object != a as object;
      ChainHead();
      if slotinfoList == null {
        ClearNone(Slots(), m.modid, generation + 1);
        return true, false;
      }
      found, outside := RemoveSlotinfo(m.modid, slotinfoList, 0, m.initCalled, Chain);
    }

    /** The slots of one unloaded module and the highest index. */
    method RemoveModule(m: TlsModule) returns (outside: bool)
      requires Valid() && Fits(m, staticNelem, Slots())
      modifies `maxDtvIdx, SlotArrays(Chain)
      ensures Valid() && Slots() == old(Clear(Slots(), m.modid, generation + 1))
      ensures outside <==> Strays(m, old(Slots()))
      ensures !outside && old(Tight()) ==> Tight()
      ensures !outside ==>
                (if old(Slots()) == [] || (m.modid < |Slots()| && m.modid != old(maxDtvIdx)) then maxDtvIdx == old(maxDtvIdx)
                 else m.modid <= |Slots()| && maxDtvIdx == Top(Slots(), m.modid, 1 + staticNelem))
    {
      hide Top, Clear, Fits, Reported, Strays;
      ghost var was, max := Slots(), maxDtvIdx;
      var found;
      found, outside := RemoveFromList(m);
      if !outside {
        ReportedMeans(found, maxDtvIdx, max, was, m, staticNelem, generation + 1);
      }
      assert forall a: array<Slot> | a in SlotArrays(Chain) :: a as object != this as object;
      if !found && !outside {
        maxDtvIdx := staticNelem;
      }
    }

    /** The area after the blocks of the modules have been freed one by one. */
    ghost function AreaAfter(mods: seq<TlsModule>, used: nat): Area
      requires forall m | m in mods && IsStatic(m, none, forced) :: m.blocksize <= m.offset
    {
      FreeAll(Area(used, none, none), StaticBlocks(mods, none, forced), none)
    }

    lemma AreaStep(mods: seq<TlsModule>, m: TlsModule, used: nat)
      requires forall x | x in mods + [m] && IsStatic(x, none, forced) :: x.blocksize <= x.offset
      ensures forall x | x in mods && IsStatic(x, none, forced) :: x.blocksize <= x.offset
      ensures IsStatic(m, none, forced) ==> m.blocksize <= m.offset
      ensures AreaAfter(mods + [m], used) ==
        if !IsStatic(m, none, forced) then AreaAfter(mods, used)
        else TlsReclaim.Free(AreaAfter(mods, used), Block(m.offset, m.blocksize), none)
    {
      var more := mods + [m];
      assert more[..|more|-1] == mods && more[|more|-1] == m;
      assert forall x | x in mods :: x in more;
      assert m in more;
      var blocks := StaticBlocks(mods, none, forced);
      if IsStatic(m, none, forced) {
        assert StaticBlocks(more, none, forced) == blocks + [Block(m.offset, m.blocksize)];
        assert (blocks + [Block(m.offset, m.blocksize)])[..|blocks|] == blocks;
      } else {
        assert StaticBlocks(more, none, forced) == blocks;
      }
    }

    /** Enters the block of one unloaded module into the chunk that can be given back. */
    method ReclaimBlock(m: TlsModule, start: nat, end: nat) returns (start': nat, end': nat)
      requires IsStatic(m, none, forced) ==> m.blocksize <= m.offset
      requires m.blocksize > 0
      modifies `staticUsed
      ensures Area(staticUsed, start', end') ==
              if !IsStatic(m, none, forced) then Area(old(staticUsed), start, end)
              else TlsReclaim.Free(Area(old(staticUsed), start, end), Block(m.offset, m.blocksize), none)
      ensures Valid() == old(Valid()) && Slots() == old(Slots()) && Tight() == old(Tight())
    {
      hide IsChain, Flat, Top;
      assert forall a: array<Slot> | a in SlotArrays(Chain) :: a as object != this as object;
      assert forall c: SlotChunk | c in Elems(Chain) :: c as object != this as object;
      start', end' := start, end;
      if m.offset != none && m.offset != forced {
        var a := TlsReclaim.Free(Area(staticUsed, start, end), Block(m.offset, m.blocksize), none);
        staticUsed, start', end' := a.used, a.start, a.end;
      }
    }

    /** After the last module: the next generation, and the chunk is given back if it is at the end. */
    method EndUnload(anyTls: bool, start: nat, end: nat)
      modifies `generation, `staticUsed
      ensures generation == old(generation) + if anyTls then 1 else 0
      ensures staticUsed == if anyTls then Finish(Area(old(staticUsed), start, end)).used else old(staticUsed)
      ensures Valid() == old(Valid()) && Slots() == old(Slots()) && Tight() == old(Tight())
    {
      hide IsChain, Flat, Top;
      assert forall a: array<Slot> | a in SlotArrays(Chain) :: a as object != this as object;
      assert forall c: SlotChunk | c in Elems(Chain) :: c as object != this as object;
      if anyTls {
        generation := generation + 1;
        if end == staticUsed {
          staticUsed := start;
        }
      }
    }

    /** The thread-local storage of the unloaded objects, in the order of the list of maps. */
    method Unload(mods: seq<TlsModule>) returns (outside: bool)
      requires Valid() && forall m | m in mods :: m.blocksize > 0 ==> Fits(m, staticNelem, Slots())
      requires forall m | m in mods && IsStatic(m, none, forced) :: m.blocksize <= m.offset
      modifies `maxDtvIdx, `generation, `staticUsed, SlotArrays(Chain)
      ensures Valid() && (outside <==> exists m :: m in mods && m.blocksize > 0 && Strays(m, old(Slots())))
      ensures !outside && old(Tight()) ==> Tight()
      ensures !outside ==> generation == old(generation) + (if exists m :: m in mods && m.blocksize > 0 then 1 else 0)
      ensures !outside ==> Slots() == ClearAll(old(Slots()), mods, old(generation) + 1)
      ensures !outside ==> staticUsed == Reclaim(old(staticUsed), StaticBlocks(mods, none, forced), none)
    {
      hide *;
      var anyTls, start, end := false, none, none;
      ghost var was, used, gen := Slots(), staticUsed, generation + 1;
      UnloadStart(was, gen, used);
      for i := 0 to |mods|
        invariant Valid() && generation + 1 == gen && (old(Tight()) ==> Tight())
        invariant anyTls == AnyTls(mods[..i])
        invariant forall m | m in mods[..i] && m.blocksize > 0 :: !Strays(m, was)
        invariant Slots() == ClearAll(was, mods[..i], gen)
        invariant forall m | m in mods[..i] && IsStatic(m, none, forced) :: m.blocksize <= m.offset
        invariant Area(staticUsed, start, end) == AreaAfter(mods[..i], used)
      {
        var m := mods[i];
        assert mods[..i+1] == mods[..i] + [m];
        UnloadStep(was, mods[..i], m, gen, used);
        if m.blocksize > 0 {
          anyTls := true;
          ClearAllFits(was, mods[..i], gen, m, staticNelem);
          ClearAllStrays(was, mods[..i], gen, m);
          outside := RemoveModule(m);
          if outside {
            assert m in mods;
            return;
          }
          start, end := ReclaimBlock(m, start, end);
        }
      }
      assert mods[..|mods|] == mods;
      UnloadEnd(mods, used);
      EndUnload(anyTls, start, end);
      outside := false;
    }

    lemma UnloadStart(was: seq<Slot>, gen: nat, used: nat)
      ensures !AnyTls([]) && ClearAll(was, [], gen) == was && AreaAfter([], used) == Area(used, none, none)
    {
    }

    lemma UnloadStep(was: seq<Slot>, mods: seq<TlsModule>, m: TlsModule, gen: nat, used: nat)
      requires forall x | x in mods && IsStatic(x, none, forced) :: x.blocksize <= x.offset
      requires IsStatic(m, none, forced) ==> m.blocksize <= m.offset
      ensures AnyTls(mods + [m]) <==> AnyTls(mods) || m.blocksize > 0
      ensures ClearAll(was, mods + [m], gen) ==
              if m.blocksize > 0 then Clear(ClearAll(was, mods, gen), m.modid, gen) else ClearAll(was, mods, gen)
      ensures forall x | x in mods + [m] && IsStatic(x, none, forced) :: x.blocksize <= x.offset
      ensures AreaAfter(mods + [m], used) ==
              if !IsStatic(m, none, forced) then AreaAfter(mods, used)
              else TlsReclaim.Free(AreaAfter(mods, used), Block(m.offset, m.blocksize), none)
      ensures m.blocksize == 0 ==> !IsStatic(m, none, forced)
    {
      var more := mods + [m];
      assert more[..|more|-1] == mods && more[|more|-1] == m && m in more;
      AreaStep(mods, m, used);
      assert forall x | x in mods :: x in more;
    }

    lemma UnloadEnd(mods: seq<TlsModule>, used: nat)
      requires forall x | x in mods && IsStatic(x, none, forced) :: x.blocksize <= x.offset
      ensures Reclaim(used, StaticBlocks(mods, none, forced), none) == Finish(AreaAfter(mods, used)).used
      ensures !AnyTls(mods) ==> AreaAfter(mods, used).used == used
      ensures AnyTls(mods) <==> exists m :: m in mods && m.blocksize > 0
      ensures !AnyTls(mods) ==> Finish(AreaAfter(mods, used)).used == used
    {
      if !AnyTls(mods) {
        NoStaticBlocks(mods, none, forced);
      }
    }
  }

  ghost function ClearAll(s: seq<Slot>, mods: seq<TlsModule>, gen: nat): (r: seq<Slot>)
    ensures |r| == |s|
  {
    if mods == [] then s
    else
      var init, last := mods[..|mods|-1], mods[|mods|-1];
      if last.blocksize > 0 then Clear(ClearAll(s, init, gen), last.modid, gen) else ClearAll(s, init, gen)
  }

  lemma {:induction false} ClearAllFits(s: seq<Slot>, mods: seq<TlsModule>, gen: nat, m: TlsModule, nelem: nat)
    requires Fits(m, nelem, s)
    ensures Fits(m, nelem, ClearAll(s, mods, gen))
  {
    if mods != [] {
      ClearAllFits(s, mods[..|mods|-1], gen, m, nelem);
    }
  }

  lemma ClearAllStrays(s: seq<Slot>, mods: seq<TlsModule>, gen: nat, m: TlsModule)
    ensures Strays(m, ClearAll(s, mods, gen)) <==> Strays(m, s)
  {
  }

  /** Exactly the slots of the unloaded modules with thread-local storage are cleared. */
  lemma {:induction false} ClearAllAt(s: seq<Slot>, mods: seq<TlsModule>, gen: nat, i: nat)
    requires i < |s|
    ensures ClearAll(s, mods, gen)[i] ==
      if s[i].Taken? && (exists m :: m in mods && m.blocksize > 0 && m.modid == i) then Slot.Free(gen) else s[i]
  {
    if mods != [] {
      var init, last := mods[..|mods|-1], mods[|mods|-1];
      assert mods == init + [last];
      ClearAllAt(s, init, gen, i);
      assert last in mods;
      assert forall m | m in init :: m in mods;
    }
  }

  lemma {:induction false} StaticBlocksMembers(mods: seq<TlsModule>, none: nat, forced: nat)
    requires forall m | m in mods && IsStatic(m, none, forced) :: m.blocksize <= m.offset
    ensures forall b | b in StaticBlocks(mods, none, forced) ::
              exists m :: m in mods && IsStatic(m, none, forced) && b == Block(m.offset, m.blocksize)
  {
    if mods != [] {
      var init, last := mods[..|mods|-1], mods[|mods|-1];
      assert mods == init + [last] && last in mods;
      assert forall m | m in init :: m in mods;
      StaticBlocksMembers(init, none, forced);
    }
  }

  ghost predicate BlocksApart(a: TlsModule, b: TlsModule) {
    a.offset <= b.offset - b.blocksize || b.offset <= a.offset - a.blocksize
  }

  lemma {:induction false} StaticBlocksNoDup(mods: seq<TlsModule>, none: nat, forced: nat)
    requires forall m | m in mods && IsStatic(m, none, forced) :: m.blocksize <= m.offset
    requires NoDup(mods)
    requires forall a, b | a in mods && b in mods && a != b && IsStatic(a, none, forced) && IsStatic(b, none, forced) ::
               BlocksApart(a, b)
    ensures NoDup(StaticBlocks(mods, none, forced))
  {
    if mods != [] {
      var init, last := mods[..|mods|-1], mods[|mods|-1];
      assert mods == init + [last] && last in mods;
      assert forall m | m in init :: m in mods && m != last;
      StaticBlocksNoDup(init, none, forced);
      StaticBlocksMembers(init, none, forced);
      var blocks := StaticBlocks(init, none, forced);
      forall k | 0 <= k < |blocks| && IsStatic(last, none, forced) ensures blocks[k] != Block(last.offset, last.blocksize) {
        var b := blocks[k];
        assert b in blocks;
        var m :| m in init && IsStatic(m, none, forced) && b == Block(m.offset, m.blocksize);
        assert BlocksApart(m, last);
      }
    }
  }

  /** Unloading any of the modules, in any order, leaves the blocks of the others below the mark, unless two
      blocks lie below a row of blocks that reaches from NO_TLS_OFFSET up to the mark. */
  lemma LiveBlocksStay(used: nat, all: seq<TlsModule>, mods: seq<TlsModule>, live: TlsModule, none: nat, forced: nat)
    requires forall m | m in all && IsStatic(m, none, forced) :: m.blocksize <= m.offset <= used
    requires forall a, b | a in all && b in all && a != b && IsStatic(a, none, forced) && IsStatic(b, none, forced) ::
               BlocksApart(a, b)
    requires none == 0 || !TwoBelowBridge(Elems(StaticBlocks(all, none, forced)), used, none)
    requires Elems(mods) <= Elems(all) && NoDup(mods)
    requires live in all && live !in mods && IsStatic(live, none, forced)
    ensures forall m | m in mods && IsStatic(m, none, forced) :: m.blocksize <= m.offset
    ensures live.offset <= Reclaim(used, StaticBlocks(mods, none, forced), none) <= used
  {
    forall m | m in mods ensures m in all {
      assert m in Elems(mods);
      assert m in Elems(all);
    }
    var mine: Block := Block(live.offset, live.blocksize);
    var blocks := StaticBlocks(mods, none, forced);
    var there: set<Block> := Elems(StaticBlocks(all, none, forced));
    StaticBlocksNoDup(mods, none, forced);
    StaticBlocksMembers(mods, none, forced);
    StaticBlocksMembers(all, none, forced);
    LayoutOf(all, used, none, forced);
    forall b | b in blocks ensures b != mine && b in there {
      var x :| x in mods && IsStatic(x, none, forced) && b == Block(x.offset, x.blocksize);
      assert BlocksApart(x, live);
      HasStaticBlock(all, x, none, forced);
    }
    HasStaticBlock(all, live, none, forced);
    if none == 0 {
      NoBridge(there, used, none);
    }
    ReclaimIsSafe(used, there, blocks, none);
    assert mine in there - Elems(blocks);
  }

  lemma {:induction false} HasStaticBlock(mods: seq<TlsModule>, m: TlsModule, none: nat, forced: nat)
    requires forall x | x in mods && IsStatic(x, none, forced) :: x.blocksize <= x.offset
    requires m in mods && IsStatic(m, none, forced)
    ensures Block(m.offset, m.blocksize) in StaticBlocks(mods, none, forced)
  {
    var init, last := mods[..|mods|-1], mods[|mods|-1];
    assert mods == init + [last];
    if m != last {
      HasStaticBlock(init, m, none, forced);
    }
  }

  /** The static blocks of modules that are apart form a layout. */
  lemma LayoutOf(mods: seq<TlsModule>, used: nat, none: nat, forced: nat)
    requires forall m | m in mods && IsStatic(m, none, forced) :: m.blocksize <= m.offset <= used
    requires forall a, b | a in mods && b in mods && a != b && IsStatic(a, none, forced) && IsStatic(b, none, forced) ::
               BlocksApart(a, b)
    ensures IsLayout(Elems(StaticBlocks(mods, none, forced)), used, none)
  {
    var s: set<Block> := Elems(StaticBlocks(mods, none, forced));
    StaticBlocksMembers(mods, none, forced);
    forall a, b | a in s && b in s && a != b ensures a.offset <= b.offset - b.size || b.offset <= a.offset - a.size {
      var x :| x in mods && IsStatic(x, none, forced) && a == Block(x.offset, x.blocksize);
      var y :| y in mods && IsStatic(y, none, forced) && b == Block(y.offset, y.blocksize);
      assert BlocksApart(x, y);
    }
  }
}
