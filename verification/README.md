# Model of a collective loader

This project models the parts of a collective file-loading system that decide what a parallel program
gets to see when thousands of processes load the same shared objects and modules: the patched dynamic
linker, the collective file layer below it, and the module finders above it.  It proves the following
main results.

* **Closing objects** (`Reachability`, `CloseTheory`, `DlCloseMark`, `DlCloseState`, `DlCloseSteps`,
  `DlClose`, `LinkMaps`, `SearchLists`, `Filtering`): dlclose is a garbage collector.  For every graph of
  dependencies and any nesting of dlclose calls from destructors, the collection terminates, no survivor refers
  to an unloaded object, and what is left loaded is exactly what is reachable from objects still open, NODELETE,
  or not loaded by dlopen.  The outcome does not depend on the order in which destructors run.
* **Thread-local storage of unloaded objects** (`TlsReclaim`, `TlsUnload`): slots, highest index and static
  mark, for any order of unloading.
* **Mapping segments** (`Paging`, `SegmentMapper`, `CollfsLoading`): the mapping loop, run directly or on top
  of the collective mmap, gives the image that the System V gABI describes; all processes that load a
  collectively opened object see the same bytes, and their mappings are a run of the protocol below.
* **The collective file layer** (`CollfsFiles`, `CollfsProtocol`, `CollfsReading`, `CollfsSessions`): processes
  that make matching calls stay in step; an open gives everybody a fresh copy, and a close undoes it; reads and
  seeks on copies agree with rank 0's kernel exactly when they are harmless.
* **Module locations** (`ModuleTree`, `ModuleCache`, `SimpleFinder`): the incrementally kept cache against a
  rebuild and against plain probing.
* **ZIP directories** (`ByteSequences`, `ZipFormat`, `ZipDirectory`, `ZipRoundTrip`): the reader is inverse to
  a writer.
* **Search paths** (`SearchPath`, `PathSearch`): interning of directories, and transparency of the remembered
  directory statuses.

Where the code and what it is meant to do part, the code is modelled and the difference is stated exactly:
`CollfsReading.RunAgreesIff`, `ModuleCache.PrependIsExactIff`, `PathSearch.StatusIsTruthfulIff`,
`PathSearch.AnswersAgreeIff`, `TlsUnload.TlsTables.RemoveSlotinfo`,
`TlsReclaim.ChunkStaysIff` and `TlsReclaim.SafeInAnyOrderIff`, `CollfsLoading.LoadEndsIff`,
`CollfsFiles.CopyStaysInsideIff`, `CollfsProtocol.OpenSharesBytes`.  `SearchLists.CompactedIsFilterIff` says what the
compaction of the search list depends on, and `DlCloseSteps.UnloadGlobalFits` that a namespace provides it.

Kernel, MPI and malloc appear as small operations with stated effects.  Where they may refuse a request,
the refusal is a nondeterministic choice that the model records (`refused` in `SegmentMapper`), and results
say what holds when nothing was refused.  A collective operation ends when all processes have reached it
(`CollfsProtocol.Run`).  The value of NO_TLS_OFFSET and the page size are parameters.

`dafny verify dfyconfig.toml` checks the whole project.

## Model

| member | source | states |
|---|---|---|
| Reachability.ReachIsClosed | glibc-2.12.2-bgq-patches/elf/dl-close.c:184-246 | what is reachable from the roots is closed under dependency |
| Reachability.ReachIsLeast | glibc-2.12.2-bgq-patches/elf/dl-close.c:184-246 | it is the least such set: every set that holds the roots and is closed contains it |
| Reachability.PathStaysInside | glibc-2.12.2-bgq-patches/elf/dl-close.c:184-246 | a path that starts in a closed set ends in it, for any graph, cycles included |
| DlCloseMark.MarkUsed | glibc-2.12.2-bgq-patches/elf/dl-close.c:180-246 | the mark loop, whose cursor jumps back to the lowest newly used index, terminates, and ends with used = done = "l_idx is IDX_STILL_USED" = reachable from the roots over init/fini and relocation dependencies |
| DlCloseMark.HandleObject | glibc-2.12.2-bgq-patches/elf/dl-close.c:201-245 | handling one object marks exactly its dependencies and never lets the cursor pass an unhandled used one |
| DlCloseMark.SettledMarkIsReach | glibc-2.12.2-bgq-patches/elf/dl-close.c:184-246 | a mark state in which nothing used is left unhandled is exactly the reachable set |
| DlCloseMark.HandlingKeepsInv | glibc-2.12.2-bgq-patches/elf/dl-close.c:201-245 | handling an object keeps: everything used is reachable, everything handled has its dependencies used |
| DlClose.Namespace.AssignIndexes | glibc-2.12.2-bgq-patches/elf/dl-close.c:164-178 | the walk over the linked list enters every object once, each with its index in l_idx |
| CloseTheory.PassIsSound | glibc-2.12.2-bgq-patches/elf/dl-close.c:186-328 | unloading what a pass finds to be garbage keeps the survivors closed and holding all roots, and unloads nothing that any order of passes could have kept |
| CloseTheory.LastPassIsLeast | glibc-2.12.2-bgq-patches/elf/dl-close.c:773-777 | a pass that dropped no count to zero ends the collection at the least fixed point |
| CloseTheory.LeastDeadIsUnique | glibc-2.12.2-bgq-patches/elf/dl-close.c:141-161 | the set of unloaded objects does not depend on the order in which passes and destructors ran |
| CloseTheory.GarbageIsMonotone | glibc-2.12.2-bgq-patches/elf/dl-close.c:266-328 | the more objects have died, the more is garbage: destructors only close |
| CloseTheory.MarkOnSurvivors | glibc-2.12.2-bgq-patches/elf/dl-close.c:184-246 | a mark over the objects still loaded finds what a mark over all objects would find |
| CloseTheory.CloseCountAddsOne | glibc-2.12.2-bgq-patches/elf/dl-close.c:271-298 | one more dead object adds exactly the dlclose calls of its own destructors |
| DlCloseState.RerunMakesProgress | glibc-2.12.2-bgq-patches/elf/dl-close.c:773-777 | a pass that asks for a rerun has unloaded something and left something, which is why the retry loop ends |
| DlClose.Namespace.constructor | glibc-2.12.2-bgq-patches/elf/dl-close.c:132-142 | a namespace as start-up and dlopen leave it is valid |
| DlClose.Namespace.DropReference | glibc-2.12.2-bgq-patches/elf/dl-close.c:135-155 | one direct use less; the caller collects exactly when no collection is pending and nothing keeps the object; a nested close of a last use asks for a rerun |
| DlClose.Namespace.CloseFromDestructor | glibc-2.12.2-bgq-patches/elf/dl-close.c:135-155 | dlclose called by a destructor: counts down or reports "not open", and asks for a rerun exactly when a root is lost |
| DlClose.Namespace.RunFinalizers | glibc-2.12.2-bgq-patches/elf/dl-close.c:271-298 | the destructors of one object count down exactly what they close; the state asks for a rerun exactly when some root was lost |
| DlClose.Namespace.FinalizeOne | glibc-2.12.2-bgq-patches/elf/dl-close.c:266-298 | seen over the whole collection, the counts are those left by the closes of the objects finalized so far |
| DlClose.Namespace.RescopeOne | glibc-2.12.2-bgq-patches/elf/dl-close.c:330-453 | a used object gets the rebuilt scope, its own search list if it lacked one, and loses a loader that is going away |
| DlClose.Namespace.Sweep | glibc-2.12.2-bgq-patches/elf/dl-close.c:255-459 | after the sweep survivors are rebuilt, the unused ones are marked removed and finalized, the counts of unloaded objects and of global ones are exact, and no unused object precedes first_loaded |
| DlCloseState.SweptRefersToSurvivors | glibc-2.12.2-bgq-patches/elf/dl-close.c:330-453 | scope entries and the loader of a swept survivor belong to survivors |
| DlCloseState.SweptIsSane | glibc-2.12.2-bgq-patches/elf/dl-close.c:255-459 | after a sweep no survivor refers to an unloaded object in its dependencies, relocation dependencies, search list, scope or loader, and no two survivors share a scope array |
| DlCloseState.SweptViewMeans | glibc-2.12.2-bgq-patches/elf/dl-close.c:330-453 | what a sweep makes of a survivor: only one loaded by dlopen is changed; its loader goes if it is dead; its scope loses the dead entries, and if it had no search list it gets its own, at the place of the first of them |
| DlCloseState.DeadAreApart | glibc-2.12.2-bgq-patches/elf/dl-close.c:266-270 | only objects loaded by dlopen and not NODELETE are unloaded, and no survivor depends on one of them |
| DlCloseState.MarkFindsGarbage | glibc-2.12.2-bgq-patches/elf/dl-close.c:184-246 | the mark of a later pass finds the garbage of the collection as a whole |
| DlClose.Namespace.SortFini | glibc-2.12.2-bgq-patches/elf/dl-close.c:248-249 | any joint permutation of the maps and their used flags keeps what the flags say |
| DlClose.Namespace.CompactGlobal | glibc-2.12.2-bgq-patches/elf/dl-close.c:498-521 | the main search list becomes the filter of the survivors, in order |
| DlCloseSteps.UnloadGlobalFits | glibc-2.12.2-bgq-patches/elf/dl-close.c:319-323 | the number of unloaded global objects is the number of entries that the search list loses |
| DlClose.Namespace.Unlink | glibc-2.12.2-bgq-patches/elf/dl-close.c:644-657 | taking one object out of the doubly linked list keeps it well formed, in order, with its length in _ns_nloaded |
| DlClose.Namespace.UnlinkUnused | glibc-2.12.2-bgq-patches/elf/dl-close.c:547-701 | the list is left with exactly the survivors, in order; starting at first_loaded misses nothing |
| DlClose.Namespace.Pass | glibc-2.12.2-bgq-patches/elf/dl-close.c:160-704 | one pass unloads exactly the garbage, keeps every invariant of the namespace, and asks for another one exactly when a root was lost |
| DlClose.Namespace.Passes | glibc-2.12.2-bgq-patches/elf/dl-close.c:160-777 | the passes of one collection terminate and unload the least set closed under "becomes garbage" |
| DlClose.Namespace.Collect | glibc-2.12.2-bgq-patches/elf/dl-close.c:160-777 | when a collection ends, the loaded objects are exactly those reachable from what is still open, NODELETE or not loaded by dlopen; list and main search list are the old ones without the unloaded objects; every count is the old one less the closes that the destructors of unloaded objects made of it |
| DlClose.Namespace.Close | glibc-2.12.2-bgq-patches/elf/dl-close.c:782-803 | dlclose: counts down, or collects when the last use goes; nothing is unloaded if it was not the last use, or the object was not loaded by dlopen or is NODELETE; the counts afterwards; everything the namespace must be, it still is |
| DlClose.Namespace.CloseEach | glibc-2.12.2-bgq-patches/elf/dl-close.c:782-803 | any run of dlclose calls keeps the namespace valid, in order, and free of unreachable objects |
| DlClose.Namespace.NothingDangles | glibc-2.12.2-bgq-patches/elf/dl-close.c:330-453 | in a valid namespace, hence after every dlclose, no loaded object depends on, was loaded by or searches in one that is not loaded |
| DlClose.Namespace.AllAreNeeded | glibc-2.12.2-bgq-patches/elf/dl-close.c:180-246 | after a collection, every set that holds what keeps itself loaded, and with each object what it depends on, holds all loaded objects |
| DlCloseState.FixedPointIsCollected | glibc-2.12.2-bgq-patches/elf/dl-close.c:773-777 | a fixed point of the passes is a namespace in which everything loaded is reachable |
| DlCloseState.PassKeepsInv | glibc-2.12.2-bgq-patches/elf/dl-close.c:160-704 | one pass as a step between states keeps what holds between passes |
| DlClose.Namespace.OpenIsLoaded | glibc-2.12.2-bgq-patches/elf/dl-close.c:793-794 | an object with a nonzero open count is loaded |
| LinkMaps.LinkMap.RebuildScope | glibc-2.12.2-bgq-patches/elf/dl-close.c:330-447 | the scope becomes the old one filtered to survivors, with the own list where the first dead entry stood; the inline array is used exactly when the source says |
| LinkMaps.LinkMap.CountScope | glibc-2.12.2-bgq-patches/elf/dl-close.c:354-375 | the counting pass: one per surviving entry, one for the terminator, one for a new own list; reports whether anything goes |
| LinkMaps.LinkMap.CopyScope | glibc-2.12.2-bgq-patches/elf/dl-close.c:377-447 | the counting pass predicts what the copying pass writes, and the result with its terminator fits the chosen array |
| LinkMaps.RebuiltAt | glibc-2.12.2-bgq-patches/elf/dl-close.c:405-430 | read forwards: the entries before the first dead one, the own list, the survivors of the rest |
| LinkMaps.RebuiltMembers | glibc-2.12.2-bgq-patches/elf/dl-close.c:405-430 | every entry of the rebuilt scope is an old survivor or the own list; its length |
| LinkMaps.KeptMembers | glibc-2.12.2-bgq-patches/elf/dl-close.c:405-430 | what is kept are exactly the entries whose map survives |
| SearchLists.SearchListStruct.Compact | glibc-2.12.2-bgq-patches/elf/dl-close.c:498-521 | 2.12, told any number of unloaded objects: what the fast path or the copying path leaves |
| SearchLists.SearchListStruct.CutTrailing | glibc-2.12.2-bgq-patches/elf/dl-close.c:506-507 | the loop finds how much is left when the removed entries at the end are cut off |
| SearchLists.SearchListStruct.MoveKept | glibc-2.12.2-bgq-patches/elf/dl-close.c:512-519 | the copying path |
| SearchLists.CutIsFilter | glibc-2.12.2-bgq-patches/elf/dl-close.c:506-507 | cutting off the trailing removed entries does not change the filter |
| SearchLists.CompactedIsFilterIff | glibc-2.12.2-bgq-patches/elf/dl-close.c:509-519 | the compaction is the order-preserving filter exactly when the fast path is not taken or no entry before the trailing run is removed; it is if the number it is told is that of the removed entries |
| SearchLists.WrongCountLeavesRemoved | glibc-2.12.2-bgq-patches/elf/dl-close.c:509-511 | a list and a wrong number for which a removed entry stays behind |
| SearchLists.SearchListStruct.RemoveOne | glibc-2.4-bgp-patches/elf/dl-close.c:443-457 | 2.4: find from the end and shift removes one object that occurs once |
| SearchLists.SearchListStruct.RemoveAll | glibc-2.4-bgp-patches/elf/dl-close.c:432-457 | 2.4, object by object in any order, reaches the same list as 2.12 |
| Filtering.WithoutTwice | glibc-2.4-bgp-patches/elf/dl-close.c:441-457 | filtering twice is filtering by the union |
| TlsReclaim.FreeFromWhole | glibc-2.12.2-bgq-patches/elf/dl-close.c:577-615 | one more freed block, while the chunk is what it should be: it remains a range of freed bytes exactly when it does not start at NO_TLS_OFFSET; in either case the mark stays above every block in use |
| TlsReclaim.FreeKeepsSafe | glibc-2.12.2-bgq-patches/elf/dl-close.c:577-615 | one more freed block, in any state of the chunk: the mark stays above every block in use |
| TlsReclaim.ChunkStaysIff | glibc-2.12.2-bgq-patches/elf/dl-close.c:577-615 | over a whole run the chunk is a range of freed bytes throughout exactly when no block but the last leaves it starting at NO_TLS_OFFSET |
| TlsReclaim.ReclaimIsSafe | glibc-2.12.2-bgq-patches/elf/dl-close.c:538-615 | for any order of unloading, the mark never rises and never falls below the end of a block in use, and everything above it was freed; conditions only on layouts with blocks below a row that reaches from NO_TLS_OFFSET to the mark, hence none if that is 0 |
| TlsReclaim.SafeInAnyOrderIff | glibc-2.12.2-bgq-patches/elf/dl-close.c:577-713 | a layout can be unloaded in any order without the mark falling below a block in use exactly when no two blocks lie below such a row |
| TlsReclaim.RestIsLayout | glibc-2.12.2-bgq-patches/elf/dl-close.c:538-713 | what a run of unloading leaves is such a layout again, below the new mark |
| TlsReclaim.RunsAreSafe | glibc-2.12.2-bgq-patches/elf/dl-close.c:538-713 | over any sequence of runs, those of reruns and of later calls, the mark never rises and never falls below a block in use |
| TlsReclaim.GivesBackFreedIff | glibc-2.12.2-bgq-patches/elf/dl-close.c:577-713 | it can be without a byte being given back that was not freed exactly when no block lies below such a row |
| TlsReclaim.NoBridge | glibc-2.12.2-bgq-patches/elf/dl-close.c:538-539 | there is nothing below such a row if NO_TLS_OFFSET is 0 or no block starts there |
| TlsReclaim.MarkFallsBelowLive | glibc-2.12.2-bgq-patches/elf/dl-close.c:577-713 | a layout and an order for which the mark falls below a block in use |
| TlsReclaim.RunIsReclaimedIff | glibc-2.12.2-bgq-patches/elf/dl-close.c:572-591 | adjoining blocks, unloaded in either direction, are given back whole exactly when they end at the mark and no block but the last starts at NO_TLS_OFFSET |
| TlsReclaim.StackedRunsAreReclaimed | glibc-2.12.2-bgq-patches/elf/dl-close.c:572-615 | runs that lie one below the other, the first ending at the mark, each built up downwards or upwards and none touching NO_TLS_OFFSET, are given back whole |
| TlsReclaim.StackedRunsInTurn | glibc-2.12.2-bgq-patches/elf/dl-close.c:538-713 | the same if each run is unloaded by a dlclose of its own |
| TlsReclaim.StackAboveRunIsReclaimed | glibc-2.12.2-bgq-patches/elf/dl-close.c:596-602 | blocks that each end at the mark when they are unloaded are given back at once, and a run unloaded before, below them, is kept and given back when the rest that joins it to the mark is unloaded |
| TlsReclaim.LaterRunIsReclaimed | glibc-2.12.2-bgq-patches/elf/dl-close.c:604-615 | a run that ends at the mark is given back whole after one that does not adjoin it, which is then lost |
| TlsReclaim.BlocksBelowRunAreLost | glibc-2.12.2-bgq-patches/elf/dl-close.c:604-615 | blocks that lie apart below the current run are not given back, and disturb nothing |
| TlsReclaim.OrderMatters | glibc-2.12.2-bgq-patches/elf/dl-close.c:593-615 | without adjacency the outcome depends on the order; one block may be leaked |
| TlsReclaim.StartAtNoneBreaksChunk | glibc-2.12.2-bgq-patches/elf/dl-close.c:577-585 | two blocks after which the chunk is no range |
| TlsUnload.TlsTables.SearchDown | glibc-2.12.2-bgq-patches/elf/dl-close.c:114-128 | the search from the end of a chunk finds its highest taken index |
| TlsUnload.TlsTables.RemoveSlotinfo | glibc-2.12.2-bgq-patches/elf/dl-close.c:69-129 | over any chain of chunks: the search reads behind its chunk exactly when the index is more than one past the last slot; otherwise exactly the given slot is cleared, and the result and dl_tls_max_dtv_idx say where the highest index left is |
| TlsUnload.TlsTables.RemoveModule | glibc-2.12.2-bgq-patches/elf/dl-close.c:557-567 | with its caller: dl_tls_max_dtv_idx changes only if it was the module's index, and then to the highest taken index left above the static ones, or dl_tls_static_nelem; so it stays the highest taken one |
| TlsUnload.TopAfterClear | glibc-2.12.2-bgq-patches/elf/dl-close.c:101-128 | clearing a slot changes the highest index only if it was that slot's |
| TlsUnload.TopConcat | glibc-2.12.2-bgq-patches/elf/dl-close.c:83-92 | the highest index over a chain is that of the later chunks, if they have one |
| TlsUnload.TlsTables.Unload | glibc-2.12.2-bgq-patches/elf/dl-close.c:547-713 | unloading any modules: a search reads behind its chunk exactly when one of them has an index more than one past the last slot; otherwise exactly their slots are cleared with the generation that becomes current, and the static mark is that of freeing their blocks in order |
| TlsUnload.ClearAllAt | glibc-2.12.2-bgq-patches/elf/dl-close.c:101-103 | a slot is cleared exactly when its index belongs to an unloaded module with thread-local storage |
| TlsUnload.LiveBlocksStay | glibc-2.12.2-bgq-patches/elf/dl-close.c:538-615 | the static block of a module that stays loaded lies below the mark, whatever is unloaded in whatever order, if NO_TLS_OFFSET is 0 or no two blocks lie below a row from there to the mark |
| TlsUnload.StaticBlocksOfOne | glibc-2.12.2-bgq-patches/elf/dl-close.c:569-572 | the blocks that unloading frees are those of the modules with thread-local storage whose offset is neither NO_TLS_OFFSET nor FORCED_DYNAMIC_TLS_OFFSET, in order |
| Paging.ChecksForceCongruence | glibc-2.12.2-bgq-patches/elf/dl-load.c:1107-1122 | any p_align that passes both checks, zero and non-powers of two included, makes address and offset congruent modulo the page size |
| Paging.AndKeepsLowBits | glibc-2.12.2-bgq-patches/elf/dl-load.c:1116-1122 | masking with a word one below a multiple of 2^k can only give zero if the low k bits are zero |
| Paging.MaskIsRoundDown | glibc-2.12.2-bgq-patches/elf/dl-load.c:1125-1130 | masking with the complement of page size minus one rounds down to a page |
| SegmentMapper.CmdFacts | glibc-2.12.2-bgq-patches/elf/dl-load.c:1124-1130 | a load command of a segment inside the file: page-aligned, mapstart - mapoff = vaddr - offset, and its file range stays below the file length rounded up to pages |
| SegmentMapper.Collect | glibc-2.12.2-bgq-patches/elf/dl-load.c:1092-1155 | reading the program headers gives the load commands in order, or the first complaint; has_holes says whether two neighbours do not adjoin |
| SegmentMapper.ChecksPassed | glibc-2.12.2-bgq-patches/elf/dl-load.c:1107-1122 | headers that pass the checks have congruent addresses and offsets |
| SegmentMapper.CheckMeans | glibc-2.12.2-bgq-patches/elf/dl-load.c:1107-1122 | for an alignment that is a power of two, whatever its size: a loadable segment is refused exactly if the alignment is less than a page, or address and offset are not congruent modulo it |
| SegmentMapper.CheckOfNoAlignment | glibc-2.12.2-bgq-patches/elf/dl-load.c:1107-1122 | for an alignment of 0: it passes exactly if address and offset are equal |
| SegmentMapper.FirstErrorIff | glibc-2.12.2-bgq-patches/elf/dl-load.c:1092-1122 | a list of headers passes exactly if each does, and otherwise is refused with the complaint about the first that does not |
| SegmentMapper.LoadsConcat | glibc-2.12.2-bgq-patches/elf/dl-load.c:1092-1155 | the loadable segments come in the order of their headers |
| SegmentMapper.Process.ZeroInPage | glibc-2.12.2-bgq-patches/elf/dl-load.c:1362-1379 | zeroing the rest of the last file page writes only there, and restores the protection it lifted |
| SegmentMapper.Process.ZeroFill | glibc-2.12.2-bgq-patches/elf/dl-load.c:1346-1396 | after the file part is mapped, the segment has file bytes, then zeros up to memsz, with its protection, and nothing outside its pages changes |
| SegmentMapper.Process.MapSegment | glibc-2.12.2-bgq-patches/elf/dl-load.c:1323-1399 | one load command at its address makes the gABI image of its segment |
| SegmentMapper.Process.Reserve | glibc-2.12.2-bgq-patches/elf/dl-load.c:1255-1288 | the first mapping of a shared object takes free pages for all segments and shows the file part of the first; nothing else changes, even if it fails |
| SegmentMapper.Process.CloseHoles | glibc-2.12.2-bgq-patches/elf/dl-load.c:1290-1298 | unless the kernel refuses, no page between the first segment's file part and the last segment that belongs to no segment can be accessed |
| SegmentMapper.Process.MapFirst | glibc-2.12.2-bgq-patches/elf/dl-load.c:1290-1302 | as Reserve, and the holes are closed unless something is refused, without touching the first segment's file part or anything outside the reservation |
| SegmentMapper.Process.MapFrom | glibc-2.12.2-bgq-patches/elf/dl-load.c:1323-1399 | the loop leaves the image of every segment, as later segments do not touch earlier ones, and the holes closed |
| SegmentMapper.Process.MapObject | glibc-2.12.2-bgq-patches/elf/dl-load.c:1092-1399 | the whole: the first complaint of the checks, or the bytes of every segment as the gABI describes them, with the protection too when nothing is refused, and in a shared object then no access to a page between the segments; succeed or fail, a shared object changes nothing but a range of free pages of the extent of its segments, and an executable, which is loaded at 0, nothing but the pages that its headers name; a failure means that something was refused (or nothing was to be mapped), so no check of the file layer fails; the requests put to the file layer depend on the headers alone |
| SegmentMapper.RequestsArePrivate | glibc-2.12.2-bgq-patches/elf/dl-load.c:1255-1344 | whatever the headers, all requests of a load are private mappings of the file, at a fixed address but for the first of a shared object |
| CollfsLoading.LoadEverywhere | collfs.c:551-644 | all processes left by one collective open load the object: any two that succeed, rank 0 or not, see the same bytes at corresponding addresses, the file's and then zeros, and between the segments of a shared object nothing unless something was refused; whether a load succeeds or fails, it spares what the process had mapped; each has put the requests that the headers prescribe, up to its end |
| CollfsLoading.LoadedInStep | collfs.c:551-644 | what the processes have asked of the layer while loading is a legal run of the protocol with the answers they got: nobody waits in vain, one conjunction for each request, and all succeed everywhere if all loaded |
| CollfsLoading.LoadRuns | collfs.c:551-644 | however the kernels answer, a request succeeds everywhere exactly if everybody had found memory for it |
| CollfsLoading.RequestsPass | collfs.c:547-557 | no request of a load is refused by the layer itself, the check off + len <= totallen included |
| CollfsLoading.MmapAsProgram | collfs.c:524-650 | the mapping of one process is its program in the protocol: same flag to the conjunction, same list and same result after the same answer |
| CollfsLoading.TogetherOrNot | collfs.c:566-574 | if no process fails by itself between two mappings, all load or all fail at the same request |
| CollfsLoading.LoadEndsIff | glibc-2.12.2-bgq-patches/elf/dl-load.c:1262-1396 | a process that fails by itself, which the loader does not tell the others, leaves them waiting: a whole load ends everywhere exactly when to each request before which all were granted either every process comes or none |
| CollfsLoading.LeftWaiting | glibc-2.12.2-bgq-patches/elf/dl-load.c:1362-1396 | two processes, one of which waits for ever |
| CollfsLoading.OpenServesMapper | collfs.c:331-403 | after a collective open every process that found memory can be mapped from, if the first segment starts at the beginning of the file and is not writable |
| SegmentMapper.Process.Remap | collfs.c:551-589 | MAP_FIXED on a collective file shows the same bytes on rank 0 (file mapping) and elsewhere (copy of the broadcast bytes), with the protection asked for |
| SegmentMapper.Process.Extend | collfs.c:590-644 | a mapping without MAP_FIXED does too, up to the end of the file's last page, and counts one more use of the file |
| SegmentMapper.Process.Mmap | collfs.c:524-650 | the whole of collfs_mmap for this file and for anonymous memory; a request that passes the checks fails only when something is refused |
| SegmentMapper.CopyAgreesIff | collfs.c:551-644 | rank 0's mapping of the file and the pages that another process fills from its copy show the same at an address exactly if it lies before the end of the file's last page; behind, rank 0 faults and the others read zeros |
| SegmentMapper.Process.CopiedShows | collfs.c:576-580 | copying into fresh pages and protecting them shows the file |
| CollfsFiles.CopyStaysInsideIff | collfs.c:617-629 | the copy for a mapping without MAP_FIXED stays inside the process's memory exactly when it starts at offset 0 or ends inside the file's pages |
| CollfsFiles.CopyRunsPastTheEnd | collfs.c:617-629 | a request for which it does not |
| CollfsProtocol.CallInStep | collfs.c:229-650 | if all processes make the same call on corresponding descriptors, none waits in vain, all make the same collective operations, the lists stay alike (name, len, totallen, refct) with unique descriptors, and a collective call succeeds or fails everywhere |
| CollfsProtocol.RunInStep | collfs.c:229-650 | the same over any sequence of calls |
| CollfsProtocol.CorrespondenceStays | collfs.c:387-403 | descriptors that stand at the same place of every list before a call do so after it, or are gone from all |
| CollfsProtocol.OpenedCorrespond | collfs.c:387-403 | the descriptors returned by a collective open correspond |
| CollfsProtocol.OpenSucceeds | collfs.c:331-403 | a collective open makes one broadcast of two ints, one conjunction and one broadcast of the length announced by rank 0; it succeeds whether or not every process found memory |
| CollfsProtocol.OpenFails | collfs.c:331-352 | if rank 0 cannot open the file, everybody fails with its error after one broadcast |
| CollfsProtocol.OpenSharesBytes | collfs.c:353-403 | a process that found memory holds the bytes of rank 0 with zeros behind them; a failed mmap is noticed by nobody |
| CollfsProtocol.CloseInStep | collfs.c:410-452 | close: every count goes down and no collective operation is made, or everybody takes the entry out and makes one broadcast |
| CollfsProtocol.MmapInStep | collfs.c:524-650 | mmap: a refusal comes everywhere and before any collective operation; otherwise one conjunction is made, all succeed if everybody found memory, and a new mapping counts as one more use |
| CollfsProtocol.StatEnds | collfs.c:229-299 | both stat calls make two broadcasts and return 0 whatever rank 0 got |
| CollfsProtocol.FxstatEndsIff | collfs.c:239-266 | fxstat ends exactly when the descriptor is on all lists or on none |
| CollfsProtocol.PlacesFollow | collfs.c:400-443 | what a change of the list does to the place of a descriptor |
| CollfsSessions.OpenGives | collfs.c:331-403 | what a collective open gives: to every process a new head of its list, with the path as name, count 1, offset 0, the length of the file, and the bytes of the file and zeros if it found memory; the old list behind it; the descriptor of the kernel on rank 0 and a synthetic one elsewhere; and three collective operations |
| CollfsSessions.OpenFailsIff | collfs.c:331-352 | a collective open fails everywhere, leaving all lists, exactly if rank 0 cannot open or stat the file, or its size is negative as an int |
| CollfsSessions.FreshAgreesIff | collfs.c:387-517 | from the open on, a run of reads and seeks on another rank agrees with rank 0's kernel exactly when it is harmless |
| CollfsSessions.OpenThenClose | collfs.c:331-452 | an open followed by one close gives back every old list, and makes the operations of the open and one broadcast |
| CollfsSessions.MapThenClose | collfs.c:410-644 | a new private mapping of an open file followed by one close gives back every list, with one conjunction |
| CollfsSessions.MmapRefusals | collfs.c:547-595 | which mappings of a collective file are refused everywhere, with which error and no collective operation: negative offset, writable or shared without MAP_FIXED, fixed and reaching behind the file's last page; any other makes one conjunction |
| CollfsReading.CopiedFile.ReadInto | collfs.c:455-483 | read on another rank, with its size_t arithmetic |
| CollfsReading.CopiedFile.SeekTo | collfs.c:485-517 | lseek on another rank, for valid and invalid whence |
| CollfsReading.StepAgreesIff | collfs.c:455-517 | one read or lseek agrees with rank 0's kernel, in reply and position, exactly when it is harmless: a valid whence and a target the file system admits; a read of nothing or at a position not behind the end |
| CollfsReading.RunAgreesIff | collfs.c:455-517 | a whole run agrees at every step exactly when every step is harmless where rank 0 stands |
| CollfsReading.SeeksInsideAgree | collfs.c:455-517 | if all seek targets lie in [0, len], the run agrees throughout |
| CollfsReading.ReadsAreConsecutive | collfs.c:455-483 | consecutive reads on rank 0 deliver consecutive bytes, as many as asked for or left |
| CollfsReading.CopiedReadsAreConsecutive | collfs.c:455-483 | on every rank that follows rank 0 the same reads deliver the same bytes |
| CollfsReading.SeekMeans | collfs.c:485-517 | whence 0, 1 and 2 count from the beginning, the position and the end, on rank 0 and elsewhere |
| CollfsReading.RefusedSeeks | collfs.c:485-517 | what rank 0's kernel refuses with -1 is taken elsewhere: an unknown whence reports the position, any other target becomes the position, a negative one as a size_t |
| CollfsReading.ReadBehindTheEndDiffers | collfs.c:474-476 | a concrete run that differs: a seek behind the end, then a read |
| CollfsReading.CopiedFile.Perform | collfs.c:455-517 | a run of calls on the updated-in-place file is the run of the step function |
| ModuleCache.Finder.ProcessSuffix | tests/cached_import.py:222-230 | a suffix binds the stems of its files, in any order of the listing |
| ModuleCache.Finder.ProcessFiles | tests/cached_import.py:220-230 | the first suffix wins, whether the suffixes run forwards without overwriting or backwards with it |
| ModuleCache.Finder.ProcessSubdirs | tests/cached_import.py:215-218 | each package subdirectory binds what it holds, in any order of the listing |
| ModuleCache.Finder.ProcessDir | tests/cached_import.py:152-237 | a directory with __init__.py binds its name and everything below, unless the name is bound and not to be overwritten; any other directory binds nothing |
| ModuleCache.Finder.ProcessTop | tests/cached_import.py:152-237 | a directory of the search path |
| ModuleCache.Finder.BuildCache | tests/cached_import.py:76-81 | the built cache binds every name to what the first directory does that binds its first component |
| ModuleCache.Finder.Update | tests/cached_import.py:92-115 | all branches leave a cache that fits the new search path, and say name by name what it holds: the old cache if nothing changed; overlaid by the directories put in front; extended by those put at the end; rebuilt if the path is not longer or otherwise changed |
| ModuleCache.Finder.FindModule | tests/cached_import.py:83-123 | find_module answers from a cache updated in this way, for dotted names too |
| ModuleCache.Finder.FindEach | tests/cached_import.py:83-123 | over any sequence of edits of sys.path, each followed by find_module, the answer for an undotted name is that of probing the current search path, None exactly if no directory in it has a package or a file of that name; a dotted name is found if a rebuilt cache has it, and only if probing finds its first component |
| ModuleCache.AppendFits | tests/cached_import.py:105-107 | a directory put at the end: first bindings win; an exact cache stays exact |
| ModuleCache.PrependFits | tests/cached_import.py:101-103 | a directory put in front: undotted names as rebuilt, every rebuilt binding present, anything else lies below a bound name |
| ModuleCache.PrependIsExactIff | tests/cached_import.py:101-103 | prepending to a built cache gives the rebuilt one exactly when nothing bound before lies below a component that the new directory binds without having it |
| ModuleCache.OverlaidIsFirst | tests/cached_import.py:101-103 | a name overlaid by directories in front is what the first of them binds that has the name itself, and what it was if none has |
| ModuleCache.StaleExample | tests/cached_import.py:101-103 | two directories for which it does not |
| ModuleCache.UndottedIsProbed | tests/cached_import.py:117-122 | what a fitting cache binds an undotted string to is what probing finds |
| SimpleFinder.CacheRefinesProbing | tests/cached_import.py:286-307 | a built cache binds a top-level name, and pkg.sub at any depth, to what simple_finder's probing finds |
| SimpleFinder.Prober.Search | tests/cached_import.py:286-307 | _search: the first directory that has the module, in it a package before the suffixes in order, from a cached listing |
| SimpleFinder.Prober.FindModule | tests/cached_import.py:337-358 | simple_finder.find_module: the first directory that has the module, in it a package before the suffixes in order; the undefined result of an empty list of directories included |
| ModuleTree.RebuiltIsProbe | tests/cached_import.py:76-81 | for one component building and probing come to the same |
| ModuleTree.ProbeIsChosen | tests/cached_import.py:286-307 | probing finds the module in the first directory that has it, as a package if there is one, else as the file with the first suffix, and nothing exactly if all directories lack it |
| ModuleTree.RebuiltLast | tests/cached_import.py:152-237 | below a package they come to the same, too |
| ModuleTree.RebuiltAppend | tests/cached_import.py:105-107 | one more directory at the end is asked last |
| ModuleTree.ResolveLast | tests/cached_import.py:215-218 | a name is bound below a package to what the package's directory binds its last component to |
| ModuleTree.UndottedIff | tests/cached_import.py:117-122 | a string without a dot is exactly a name of one component |
| ModuleTree.JoinIsInjective | tests/cached_import.py:217-217 | different names of dot-free components are different strings |
| ZipDirectory.GetLong | collective_zipimport.c:669-681 | four bytes, least significant first, sign-extended |
| ZipDirectory.ArchiveFile.ReadName | collective_zipimport.c:781-791 | the name loop: at most MAXPATHLEN bytes, the string ends at the first zero byte |
| ZipDirectory.ArchiveFile.ReadEntry | collective_zipimport.c:760-805 | one pass of the loop over the central directory |
| ZipDirectory.ArchiveFile.ReadDirectory | collective_zipimport.c:704-813 | read_directory with its error cases, on any bytes, failing seeks and reads behind the end included |
| ZipDirectory.ArchiveFile.GetData | collective_zipimport.c:849-930 | get_data with its error cases, up to the call of zlib |
| ZipFormat.LocalReads | collective_zipimport.c:876-889 | what get_data reads from a local header laid out as in section 4.3.7 of APPNOTE.TXT |
| ZipFormat.CentralReads | collective_zipimport.c:764-780 | what read_directory reads from a central header laid out as in section 4.3.12 |
| ZipFormat.EndReads | collective_zipimport.c:732-749 | what it reads from the end record of section 4.3.16 |
| ZipRoundTrip.ScanAll | collective_zipimport.c:760-805 | the loop over headers laid out by a writer enters all entries, in order, and stops at the end record |
| ZipRoundTrip.DirectoryIs | collective_zipimport.c:732-805 | behind any prefix, the directory is found and its offsets are corrected by the length of the prefix |
| ZipRoundTrip.RoundTrip | collective_zipimport.c:732-930 | for any prefix and any distinctly named members, of any compression method and any two sizes, read_directory returns exactly their names with method, sizes and corrected offsets, and get_data returns the bytes of the stored ones, and hands over those of the others with the extra byte for zlib |
| ZipRoundTrip.EnteredAt | collective_zipimport.c:796-800 | with distinct names every entry is found under its name |
| ZipRoundTrip.DirectoryFailsIff | collective_zipimport.c:721-760 | read_directory fails exactly if the name of the archive is too long, the file has no 22 bytes, or these do not begin with PK 05 06 |
| ZipRoundTrip.NoHeaderNoEntries | collective_zipimport.c:760-763 | where no header begins with PK 01 02 the directory ends |
| ZipRoundTrip.NameIsCut | collective_zipimport.c:781-791 | a name in the directory is cut to MAXPATHLEN bytes and at its first zero byte |
| ZipRoundTrip.DataFailsIff | collective_zipimport.c:876-918 | get_data fails exactly if no local header begins with PK 03 04 at the offset of the entry, or the data that it leads to reach behind the file |
| ByteSequences.SignedIs | collective_zipimport.c:669-681 | the numbers read are the two's complement of what is in the file |
| SearchPath.PiecesStep | glibc-2.12.2-bgq-patches/elf/dl-load.c:463-463 | one step of strsep cuts off the first piece |
| SearchPath.CanonIff | glibc-2.12.2-bgq-patches/elf/dl-load.c:468-482 | two entries share a directory exactly when they differ in trailing slashes only; the stored name is canonical |
| SearchPath.PathTable.Intern | glibc-2.12.2-bgq-patches/elf/dl-load.c:513-571 | a directory is entered once; a new one starts as unknown if named from the root, else as existing |
| SearchPath.PathTable.FillinRpath | glibc-2.12.2-bgq-patches/elf/dl-load.c:456-578 | the result has each wanted name once, in order of first occurrence, from a table that never holds a name twice and only grows at its head; a name is in it exactly if it is the canonical name of some piece, which, if a list of trusted directories is given, begins with a slash and has its canonical name in that list |
| SearchPath.WantedAre | glibc-2.12.2-bgq-patches/elf/dl-load.c:456-510 | what is wanted are the canonical names of the pieces, with a list of trusted directories only those that are in it and begin with a slash |
| SearchPath.OnceInOrder | glibc-2.12.2-bgq-patches/elf/dl-load.c:517-571 | names come in the order of their first occurrences |
| SearchPath.OnceHasNoDup | glibc-2.12.2-bgq-patches/elf/dl-load.c:517-571 | no name comes twice |
| SearchPath.AtMostSeparatorsPlusOne | glibc-2.12.2-bgq-patches/elf/dl-load.c:463-575 | a path has at most one directory more than the string has separators |
| PathSearch.Searcher.TryDirectory | glibc-2.12.2-bgq-patches/elf/dl-load.c:1932-2000 | one directory: the first capability string under which the file opens; every status up to that one takes in the name, the others are left alone; a status of nonexisting stays truthful |
| PathSearch.Searcher.OpenPath | glibc-2.12.2-bgq-patches/elf/dl-load.c:1896-2042 | the search with remembered statuses finds the file under the first pair of directory and capability string, in lexicographic order, under which it opens, and nothing exactly if it opens under none; a list is given up exactly if all its directories are remembered as missing, and then nothing can ever be found through it |
| PathSearch.Searcher.SearchEach | glibc-2.12.2-bgq-patches/elf/dl-load.c:1896-2042 | the same, the first pair of directory and capability string, for any sequence of searches through lists that share elements, lists given up not being searched again |
| PathSearch.FirstIsUnique | glibc-2.12.2-bgq-patches/elf/dl-load.c:1915-2025 | there is only one such result |
| PathSearch.FindIsFirst | glibc-2.12.2-bgq-patches/elf/dl-load.c:1915-2025 | a search without memory finds the first pair of directory and capability string under which the file opens |
| PathSearch.TestedIsMissing | glibc-2.12.2-bgq-patches/elf/dl-load.c:1960-1973 | what the test for a directory finds missing holds no files |
| PathSearch.StatusIsTruthfulIff | glibc-2.12.2-bgq-patches/elf/dl-load.c:1960-1973 | after a name that is not found, the status remembered for a directory is true exactly when the directory is not the root, or the root is tested as one or holds nothing |
| PathSearch.AnswersAgreeIff | glibc-2.12.2-bgq-patches/elf/dl-load.c:1932-2000 | over any sequence of names looked for in a directory, its remembered status changes no answer exactly when it can be tested so, or the first name is found, or none is |
| PathSearch.RememberedMissingIff | glibc-2.12.2-bgq-patches/elf/dl-load.c:1944-1973 | a directory is remembered as missing exactly if the first name was not found in it and it could not be tested as a directory |
| PathSearch.RootIsForgotten | glibc-2.12.2-bgq-patches/elf/dl-load.c:1963-1970 | a file system whose root directory is forgotten after the first miss |
| PathSearch.NewElementFits | glibc-2.12.2-bgq-patches/elf/dl-load.c:551-556 | a new element of the table starts with a truthful status, the root's too where that can be tested |

## Left out

- Auditing hooks, debugger events, locking, threads (scope_mem_left, _dl_scope_free, THREAD_GSCOPE_WAIT) and debug output in the dynamic linker.
- The order in which `_dl_sort_fini` sorts: it is not shown in the repository; all that is used is that it permutes the maps and their used flags together.
- Destructors do nothing but call dlclose on a fixed list of handles of the same namespace; dlopen from a destructor, other namespaces, and the assertion that the base namespace is never emptied.
- A handle whose object has been unloaded is treated as one with an open count of zero, which dlclose rejects; the freed memory itself is not modelled.
- malloc failures in the scope rebuild; freeing of the unloaded object's strings, arrays and mappings.
- DlClose.Namespace.constructor: takes a namespace over with the invariants of DlCloseState.ValidState; that start-up and dlopen establish them is not shown, as neither is modelled.
- DlClose.Namespace.Pass: leaves out the slot table and the static TLS area, which the same loop of the source updates; they share no state with the lists and are modelled in TlsUnload.
- TLS_DTV_AT_TP: its extend step subtracts the block size, so that the chunk is no range of freed bytes.
- TlsUnload.TlsTables.RemoveSlotinfo: says when the search of the source reads behind its chunk, but not what it then finds there.
- Wrap-around of the generation counter (the source stops the program) and of sizes and addresses near 2^64 in the mapper, where the source does not check either.
- Other program headers than PT_LOAD, l_phdr, l_text_end, relocation and everything after the mapping loop; ELF_PREFERRED_ADDRESS is a mere hint.
- SegmentMapper.Process.Mmap: models the collective file and anonymous memory, not other files; a process's own copy of the file is a value, so an executable mapped over that copy is not modelled.
- SegmentMapper.Process.MapObject: promises the protection of the segments, and the closing of the holes, only when nothing was refused, because the source ignores the results of some mprotect calls.
- `collfs_munmap` and the later life of `MMapRegions`: a node is freed without being unlinked, and the fixed branch never sets its link.
- SegmentMapper.Process.Extend: asks for an offset and a length for which the source's copy stays inside the process's memory; CollfsFiles.CopyStaysInsideIff says which those are.
- For a mapping without MAP_FIXED rank 0 first unmaps its own view of the file; that view is no part of the address space modelled here.
- The communicator stack: one communicator stays pushed; MPI errors, initialisation, profiling and error handlers.
- In the protocol, processes are values and their calls resumable programs, so that any number of them can be run against one another; the update of list nodes in place is modelled where one process reads (CollfsReading.CopiedFile) or maps (SegmentMapper.Process).
- CollfsProtocol.OpenSharesBytes: a process whose mmap failed holds no bytes in the model; in the source it would go on to broadcast into an invalid address.
- Several openings of the same kernel descriptor value on rank 0 while an old entry is still counted: the kernel is taken not to hand out a descriptor that is open.
- Symbolic links (and with them the `visited` list), dots in directory names and in stems of module files, unreadable files, and `__init__.py` that is no regular file (for simple_finder).
- Python's dictionary and listing orders are arbitrary here; load_module, the MPI variants of the finder and sys.modules beyond membership.
- Directory-status caching with a collective stat: `collfs_xstat64` reports success whatever rank 0 got. The secure (set-user-ID) branch of open_path and the class check of open_verify are left out.
- `_dl_dst_substitute` and the decomposition of capability strings; a path list is taken as given.
- The `__file__` string of a toc entry, SEP other than '/', archive comments, decompression itself (a compressed entry ends where its bytes go to zlib), and .pyc handling.
- ZipDirectory.ArchiveFile.ReadDirectory: carries a bound on the number of headers, because on malformed headers the loop of the source can go on forever; the bound does not limit the round trip.
- ZipDirectory.ArchiveFile.GetData: a negative size is an error here for compressed entries, too, where the source would read with a size converted to unsigned.
- `importer.c`, `mpiopen.c`, `fmemopen.c`, `buffered_zipimport.c`, `enchilada_import.py`, the SLES copies and the 2.4 `dl-load.c`: near duplicates or plumbing.
