# A verified model of the Objective Caml runtime

This project models the hardest parts of the C runtime of Objective Caml, and of its lexer and parser generators, and
proves what they promise. `dafny verify dfyconfig.toml` checks the whole project.

Code that updates memory in place is modelled by methods on arrays and by classes whose fields are the C globals;
each is proved against a specification, and what the runtime promises is proved of that specification for all inputs
or all runs.

* **Compaction** (`HeapWords`, `Compact*`). The heap is one array of words. The four passes of `compact_heap` encode
  the headers, thread every pointer through the inverted list of its target (with separate lists for infix headers
  inside closures), place the live blocks, revert the lists, and move. Main theorems: every path of fields leads from
  every root to the same place of the same block, moved; a block survives exactly when something leads to it.
* **Major collector** (`Gc*`, `MajorGc`). An incremental tricolour collector with a bounded gray stack, weak arrays,
  finalised values and forwarding blocks, interleaved with a mutator. Main theorems: nothing reachable is ever
  freed, and no step of the collector changes what the program reads, in any run; the sweep starts with no gray block;
  marking ends; an uninterrupted cycle keeps exactly the reachable blocks, erases exactly the weak pointers to others,
  and schedules exactly the unreachable finalisable values.
* **Minor collector** (`Minor*`). Copying with the to-do list threaded through half-copied blocks. Main theorems:
  reading any path gives the same before and after, sharing is kept, and in every run the reference table is
  complete.
* **Free list and sweep** (`Free*`). Next-fit allocation, coalescing, and their interleaving. Main theorems: a sweep
  with any requests served between its steps refines a one-shot sweep; words are conserved.
* **Marshalling** (`Marshal*`, `ExternTable`). The writer with its hash table of shared blocks, the reader, the format
  byte by byte, and the round trip on every graph, cyclic ones included.
* **Lexers** (`LexTables`, `Lexing`). The packing of an automaton into tables, and the engine that reads them through a
  buffer. Main theorem: the token is the longest that the automaton recognises.
* **Finalisation table** (`Finalise`, `FinalCalls`), **global roots** (`SkipList`, `Congruential`), **structural
  comparison** (`Compare*`), **application of functions in the bytecode interpreter** (`Interp*`), **64-bit integers
  on 32-bit words** (`Int64*`), **channels** (`Channel*`), **LR(0) closure in the parser generator** (`Warshall`,
  `Closure`).

Where a promise fails, the model keeps the code, states exactly when the promise holds, and reaches a state where it
does not, through the operations of the model:

| promise | holds if and only if | fails in |
|---|---|---|
| the compactor searches inside its chunks | `CompactPlace.PastEndIff`, `CompactMove.CompactHeap` | `CompactFull.ReachPastEnd` |
| a chunk added during a sweep keeps the free list in order | `FreeList.Allocator.AddBlock` | `FreeRuns.ReachDisorder` |
| the level of a global root fits the skip list | `SkipList.GlobalRoots.Register` | `SkipList.ReachStray` |
| registering a finaliser stays inside the table | `Finalise.FinalTable.Register` | `Finalise.ReachStray` |
| marshalling leaves the object table empty | `Marshal.Externer.ExternValue`, `MarshalWalk.EndsHow` | `Marshal.ReachStale` |
| a format stays inside its string | `Int64Format.StraysIff` | `Int64Format.StrayExample` |
| a format keeps its conversion | `Int64Round.WidthHidesConversion` | `Int64Round.WidthExample` |
| what is printed can be read back | `Int64Round.LegibleIff` | `Int64Round.IllegibleExample` |
| a channel knows its position | `ChannelIn.InChannel.SeekIn`, `ChannelOut.OutChannel.Perform` | `ChannelIn.ReachMisplaced` |

System calls are nondeterministic choices: a read or a write takes any number of bytes that the system may give, and
a proof holds for every choice; a channel counts the calls that fail, and an operation fails exactly when one does.
The amount of work that the collector is given and the heap that a collector runs on are parameters.

## Model

| member | source | states |
|---|---|---|
| CompactMove.CompactHeap | byterun/compact.c:147-342 | Whole compaction: gives a heap compacted as `CompactPaths` describes it, word by word, and tells exactly when the search for room leaves the chunks |
| CompactPaths.RootsRead | byterun/compact.c:147-342 | From every root, every path of fields, through blocks of every tag below 251 and at infix offsets, is followed alike before and after; a word that is no pointer into the heap is the same, and a pointer leads to the same place of its block, which has moved whole, with its header |
| CompactPaths.DataKept | byterun/compact.c:319-342 | Blocks of tag 251 and above keep all their words |
| CompactPaths.WeakKept | byterun/compact.c:224-242 | The weak list leads to the same arrays, all of which survive, and their words lead to the same places |
| CompactPaths.SharingKept | byterun/compact.c:147-342 | Two pointers, in roots, fields or weak arrays, are equal after the compaction if and only if they were before |
| CompactPaths.SurvivesIff | byterun/compact.c:147-342 | A block survives if and only if a pointer in a root, in a field of a white block of tag below 251, or in a weak array leads to it or into it |
| CompactInvert.InvertPointerAt | byterun/compact.c:56-108 | Inverting one pointer adds it to the list of its target and keeps every other list, whatever was inverted before; a first pointer to an infix header starts a list chained to the others of its closure |
| CompactInvert.OriginalHeader | byterun/compact.c:258-277 | The encoded header is found behind all the lists that hang from a block, with the first infix list |
| CompactThread.EncodeHeaders | byterun/compact.c:157-180 | After pass 1 memory is the threaded form with no pointer inverted |
| CompactThread.ThreadHeap | byterun/compact.c:157-243 | After passes 1 and 2 memory is the threaded form with exactly the cells that `CompactPaths.SurvivesIff` speaks of inverted, each once |
| CompactPlace.Allocator.Allocate | byterun/compact.c:127-145 | Hands out the address and state of the allocation function that passes 3 and 4 share, and tells exactly when the search reads past the last chunk |
| CompactPlace.AllocStaysBehind | byterun/compact.c:127-145 | The chunk search stops at or before the block's own chunk, at or below its address |
| CompactPlace.SlidesDown | byterun/compact.c:246-342 | Every block's new place exists, lies inside a chunk that is not after its own, and is not above it |
| CompactPlace.Disjoint | byterun/compact.c:246-342 | New places of live blocks do not overlap |
| CompactPlace.NoOverwrite | byterun/compact.c:319-342 | Moving a block overwrites no block after it |
| CompactPlace.SkipReadsPastEndIff | byterun/compact.c:132-137 | The loop that skips full chunks reads past the last chunk if and only if all chunks from the search start on are full |
| CompactPlace.PastEndIff | byterun/compact.c:127-145 | A compaction reads past the last chunk if and only if all chunks left are full when some live block is placed |
| CompactFull.ReachPastEnd | byterun/compact.c:147-342 | Compacting a well-formed heap of one full chunk, of any size, does so |
| CompactRevert.RecentIsLatest | byterun/compact.c:76-104 | The infix list reached first is the one started last, which is why the chain of infix lists unwinds |
| CompactRevert.RevertInfix | byterun/compact.c:287-303 | All infix lists of a closure are reverted to the new address and the infix headers rebuilt |
| CompactRevertHeap.RevertHeap | byterun/compact.c:246-316 | After pass 3 every inverted pointer is a pointer to the new address, and every header is decoded |
| CompactMove.MoveHeap | byterun/compact.c:319-342 | Pass 4 copies every live block, unchanged, to the address that pass 3 gave it |
| GcRuns.SnapshotSafety | byterun/major_gc.c:84-274 | In every run of every interleaving, a block that the mutator can reach is allocated and the next step does not free it |
| GcPaths.PathSafety | byterun/major_gc.c:84-274 | The same, of blocks at the end of a path of fields, read in memory, from what the program holds |
| GcPaths.StepReads | byterun/major_gc.c:96-274 | A step of the collector changes nothing that the program can read: from every root every path, forwarding blocks skipped, leads to the same value before and after, and to a block of the same tag, size and data |
| GcPaths.SegmentReads | byterun/major_gc.c:96-274 | The same of any number of steps, over any number of cycles |
| GcContents.StepContents | byterun/major_gc.c:96-274 | A step of the collector keeps the tag and size of every block left; a field changes only if it pointed to a forwarding block, and then to a value behind it; data are the same; a weak pointer, followed to the end of its forwarding blocks, is erased if and only if its header is white or infix |
| GcContents.SegmentContents | byterun/major_gc.c:96-274 | The same of any number of steps: a weak pointer is erased only when the header that it leads to is white or infix |
| GcCycle.CycleStep | byterun/major_gc.c:110-274 | Each step of an uninterrupted cycle keeps the account of weak arrays: when it ends, those reachable are still on the list, and a pointer in them is erased if and only if what it leads to is unreachable, or an infix header |
| GcStores.ProgramDid | byterun/memory.h:85-99 | Each operation of the program does to the contents of memory, the roots and the lists what it says, and no more: a store changes one field, an allocation makes one block |
| GcStores.ReadsLastStored | byterun/memory.h:85-99 | In every run a field of a block that stays reachable reads the value last stored in it, unless that points to a forwarding block |
| GcRuns.StepInv | byterun/major_gc.c:84-274 | Each step of the marker, the sweeper, `Modify`, allocation, weak arrays and finalisation keeps the invariant |
| GcRuns.RunInv | byterun/major_gc.c:42-43 | In every reachable state a gray block is on the stack without duplicates, or beyond the rescan pointer, or the heap is marked impure |
| GcRuns.FreesOnlyUnkept | byterun/major_gc.c:231-274 | Only the sweep frees a block, and only one that is white and unreachable |
| GcRuns.NoDanglingWeak | byterun/weak.c:27-75 | In every run a weak pointer on the weak list, and every finalisable value, leads to an allocated block |
| GcRuns.SweepStarts | byterun/major_gc.c:172-226 | When the sweep starts no block is gray; reachable, weakly named, finalisable and finalising blocks are black |
| GcSafety.ModifyInv | byterun/memory.h:85-99 | `Modify` keeps the invariant although it overwrites a pointer during marking |
| GcSafety.AddBlockInv | byterun/memory.c:231-284 | Allocation with its phase-dependent colour keeps the invariant |
| GcProgress.MarkProgress | byterun/major_gc.c:110-229 | Each iteration of marking decreases a lexicographic measure, stack overflows and rescans included |
| GcProgress.SweepProgress | byterun/major_gc.c:231-274 | Each iteration of the sweep decreases its measure |
| GcExact.MarkIterExact | byterun/major_gc.c:110-229 | Without a mutator, marking darkens only blocks reachable from the roots of the cycle |
| GcExact.SweepExact | byterun/major_gc.c:231-274 | Sweeping then keeps exactly the marked blocks |
| GcFinal.MarkedDivides | byterun/major_gc.c:110-229 | When marking is complete, the white blocks are those that the roots at the start of the cycle do not reach |
| GcFinal.MarkIterSchedule | byterun/major_gc.c:110-229 | Without a mutator, each iteration of marking keeps the account of which values have been scheduled and will be |
| GcPaths.FinalsAre | byterun/finalise.c:41-67 | A finalisable value stays if a path leads to it, and is scheduled if none does, after following the forwarding blocks that no path leads to |
| MajorGc.Collector.ReallocGrayVals | byterun/major_gc.c:58-82 | The full stack grows, or loses its top and records that it did |
| MajorGc.Collector.DarkenValue | byterun/major_gc.c:84-94 | Is the darkening step of the state machine |
| MajorGc.Collector.StartMarking | byterun/major_gc.c:96-108 | Is the start of a cycle, and keeps the invariant |
| MajorGc.Collector.ScanBlock | byterun/major_gc.c:119-150 | Pops a gray block, blackens it, skips forwarding blocks in its fields and darkens its children: the marking step, which keeps contents as `GcContents.StepContents` says |
| MajorGc.Collector.RescanOne | byterun/major_gc.c:151-171 | Is the rescan step after a stack overflow |
| MajorGc.Collector.CleanWeak | byterun/major_gc.c:177-206 | Cleans or unlinks one weak array: the weak step; a pointer to a white header, or to any infix header, is erased |
| MajorGc.Collector.UpdateFinals | byterun/finalise.c:41-67 | Moves white finalisable values to the finalising set and darkens them: the finalisation step |
| MajorGc.Collector.MarkStep | byterun/major_gc.c:110-229 | One iteration of the marking loop keeps the invariant and, field by field, the contents of every block |
| MajorGc.Collector.MarkSlice | byterun/major_gc.c:110-229 | Any amount of work keeps the invariant and makes progress; it ends; the program reads the same as before along every path |
| MajorGc.Collector.SweepSlice | byterun/major_gc.c:231-274 | Any amount of work keeps the invariant and makes progress; it ends; the program reads the same as before along every path |
| MajorGc.Collector.MajorCollectionSlice | byterun/major_gc.c:280-351 | A slice of any size keeps the invariant, and the program reads the same as before along every path |
| MajorGc.Collector.FinishMajorCycle | byterun/major_gc.c:360-369 | Ends idle; the program reads the same as before along every path; from an idle state, the blocks left are exactly those that a path leads to from what the program holds, in reachable weak arrays the pointers erased are exactly those to other blocks and to infix headers, and the values scheduled for finalisation exactly those that no path led to |
| MinorGc.MinorCollector.EmptyMinorHeap | byterun/minor_gc.c:162-192 | The major heap, weak arrays included, and the roots are the old ones redirected along an injective map of exactly the young blocks in use; the minor heap, the to-do list and the table are empty |
| MinorGc.MinorCollector.OldifyOne | byterun/minor_gc.c:75-127 | Moves what a value leads to, through infix headers and forwarding blocks, and redirects the cell, keeping the threaded to-do list intact |
| MinorGc.MinorCollector.OldifyMopup | byterun/minor_gc.c:133-157 | Completes every half-copied block; terminates |
| MinorGc.MinorCollector.OldifyRefs | byterun/minor_gc.c:170-172 | Every cell in the reference table is redirected |
| MinorGc.MinorCollector.Initialize | byterun/memory.c:316-325 | The field holds the value, and no other word changes; the reference table gains the field if the value is young, and stays complete |
| MinorGc.MinorCollector.Modify | byterun/memory.h:85-99 | The field holds the value, and no other word changes; the table gains the field if the value is young and the old one was not, and stays complete, also for a weak array |
| MinorSpec.PathsAgree | byterun/minor_gc.c:75-192 | Following any path of fields is stuck both before and after, or gives corresponding values |
| MinorPaths.SameReads | byterun/minor_gc.c:75-192 | From every root and every major block, every path of fields, read in memory, leads to the same immediate value, or to a block of the same tag and contents, before and after |
| MinorPaths.RootsShare | byterun/minor_gc.c:75-192 | Two paths from roots meet in the same place after the collection if and only if they did before |
| MinorSpec.SharingKept | byterun/minor_gc.c:75-192 | Two values are the same block after the collection if and only if they were before, up to forwarding blocks |
| MinorSpec.NothingYoung | byterun/minor_gc.c:162-192 | No root, no major field and no weak pointer leads to the minor heap |
| MinorSpec.UsedMoved | byterun/minor_gc.c:75-192 | Every young block in use has moved |
| MinorRuns.RunShape | byterun/memory.h:85-99 | In every state of every run of allocations, stores, root changes and collections, each major field holding a young pointer, weak arrays included, is in the reference table |
| MinorRuns.ReadsLastStored | byterun/memory.h:85-99 | In any run without a collection, a field reads the value last stored in it |
| MinorRuns.ShapeReady | byterun/minor_gc.c:162-192 | The collector can start from any such state whose forwarding blocks form no cycle |
| FreeList.Allocator.Allocate | byterun/freelist.c:118-147 | Returns NULL if and only if no free block is large enough; otherwise splits the first that is, by address, from the place of the last allocation on and then from the start, in any phase of a sweep; the next search starts at the block before it |
| FreeList.Allocator.AllocateBlock | byterun/freelist.c:90-112 | The block is cut from the end of a node; a rest of one word becomes a fragment, the list and the sweep stay right, and `fl_prev` is the node before |
| FreeList.Allocator.MergeBlock | byterun/freelist.c:171-240 | The white block joins its free neighbours and a fragment before it; list, sum of sizes and `fl_merge` stay right |
| FreeList.Allocator.SweepStep | byterun/major_gc.c:231-274 | One step of the sweep keeps the list ordered and complete and advances; at the end the heap is swept |
| FreeList.Allocator.AddBlock | byterun/freelist.c:249-284 | The chunk becomes one free block and the sum of free sizes grows by it; list and sweep stay right if and only if the chunk is not appended behind the sweep |
| FreeAlloc.SplitSweep | byterun/freelist.c:90-112 | Allocation in the middle of a sweep leaves `fl_merge` on the last free block before the sweep |
| FreeAdd.AppendLast | byterun/freelist.c:263-265 | The appending branch of `fl_add_block` leaves `fl_merge` right if and only if the new block is not before the sweep |
| FreeRuns.AddThenMerge | byterun/freelist.c:171-284 | After a chunk has been appended behind the sweep, the next white block makes the list disordered |
| FreeRuns.ReachDisorder | byterun/freelist.c:171-284 | A run of allocations, sweep steps and a new chunk, from the empty heap and with chunks of any size, that ends there |
| FreeExact.SweepAll | byterun/freelist.c:151-240 | A whole uninterrupted sweep refines: black blocks become white, unused words form maximal free runs, lone words stay fragments |
| FreeShared.SweepShared | byterun/memory.c:231-284 | With any allocations and new chunks between its steps, a sweep ends with no two free blocks side by side and with exactly the blocks in use that were black and those allocated since; it fails to if and only if a chunk is appended behind it |
| FreeShared.StepUse | byterun/major_gc.c:231-274 | Each step of the sweep leaves exactly the same blocks, of the same sizes, in use |
| FreeExact.StepHalf | byterun/major_gc.c:231-274 | Each step extends that account to the part swept |
| FreeExact.Conservation | byterun/gc_ctrl.c:139-201 | In every chunk live, free and fragment words add up to its size |
| FreeTotals.WordsConserved | byterun/gc_ctrl.c:139-201 | In every state, `fl_cur_size` is the number of free words of the heap, and live, free and fragment words add up to the heap size |
| MarshalRound.RoundTrip | byterun/intern.c:112-372 | Reading the bytes written for any value, with anything after them, succeeds, stops right after them, and gives an isomorphic graph packed in exactly the words announced; no forwarding block is among them |
| MarshalPaths.Restored | byterun/intern.c:112-372 | From the value read back, every path of fields leads where it led from the value written: to the same immediate value, atom or code pointer, or to a block of the same tag and size, or the same bytes or numbers |
| MarshalPaths.SharingRestored | byterun/extern.c:262-284 | Two paths lead to one block in the value read back if and only if they did in the value written |
| MarshalPaths.PlacesApart | byterun/intern.c:112-372 | The blocks read back lie in the space announced, each in words that hold its header and its contents, and no two overlap |
| MarshalFormat.Formatted | byterun/extern.c:223-376 | The bytes written are the format, code by code: the prefixes and codes as numbers, lengths, offsets and integers with the most significant byte first and in the fewest bytes that the format has for them |
| MarshalFormat.Decoded | byterun/intern.c:112-312 | What is read at any bytes is what their first byte and the bytes after it stand for in the format, whether or not a writer would choose them |
| MarshalFormat.WordsFit | byterun/extern.c:285-360 | The words counted for a block hold its header and its fields, its bytes with at least one and at most four of padding, or its numbers |
| MarshalFormat.Apart | byterun/intern.c:112-372 | In a packed memory no two blocks overlap |
| MarshalFormat.Filled | byterun/intern.c:112-372 | In a packed memory there are no gaps |
| MarshalRound.FollowsAny | byterun/extern.c:223-376 | The reader follows the writer item by item, with the two object tables in step |
| MarshalRound.FollowsShared | byterun/extern.c:262-284 | A shared block's offset is in range and leads to the copy made first |
| MarshalRound.ExternSucceeds | byterun/extern.c:223-376 | Every graph of supported blocks, cyclic or not, can be written, if its forwarding blocks form no cycle |
| Marshal.Externer.ExternRec | byterun/extern.c:223-376 | Writes what the specification says, in the format of `MarshalFormat.Formatted`, with sizes and counters, or fails as it does; a failure by `failwith` leaves the block at fault in the table |
| Marshal.Externer.ExternValue | byterun/extern.c:381-428 | The same for a whole value; the table is ready for the next call if and only if a walk from the value does not stop at a custom block without serializer |
| MarshalWalk.EndsHow | byterun/extern.c:335-341 | A call is abandoned if and only if the walk stops at a custom block without serializer; it succeeds if and only if no block that it cannot write is reachable; if nothing else is wrong, it is abandoned if and only if such a custom block is reachable |
| Marshal.NextCall | byterun/extern.c:262-284 | After an abandoned call, whether the table had grown or not, the next one takes its first block for one that it has written, with an offset outside its own numbering, if and only if the block is in a slot that the search reaches in the first slots; it searches for ever if and only if those are all taken by others |
| ExternTable.StaleMeets | byterun/extern.c:262-284 | In the first slots of a table left behind, a block is found if and only if it is in one of them and the slots from its hash up to it are taken, and then with its old number; all of them, if the table had not grown |
| Marshal.ReachStale | byterun/extern.c:335-341 | An environment where that happens: the second call writes a reference that no reader can follow |
| Marshal.Interner.InternRec | byterun/intern.c:112-312 | Reads what the specification reads, or fails as it does, on any bytes |
| Marshal.WriteAndRead | byterun/extern.c:381-428 | Writing, then reading, with the hash table in place, gives a copy as `MarshalPaths.Restored` describes it, unless the value cannot be written |
| ExternTable.ObjectTable.Record | byterun/extern.c:262-284 | Refines lookup and insertion in a finite map from block to index, through probing, generation stamps and doubling; in a table of any contents, tells what is found, what is recorded, and when the search has no end |
| ExternTable.ObjectTable.Resize | byterun/extern.c:68-93 | Doubling keeps the map |
| ExternTable.ObjectTable.Begin | byterun/extern.c:389-397 | A call starts with the empty map if the last one cleaned up, and with the first slots of the table left otherwise |
| ExternTable.ObjectTable.Finish | byterun/extern.c:98-105 | A call ended normally, or by `extern_invalid_argument`, leaves no live entry, and stamps do not wrap |
| ExternTable.ProbeEnds | byterun/extern.c:264-279 | A probe meets a free slot |
| ExternTable.ProbeMisses | byterun/extern.c:264-279 | A probe that stops at a free slot has not missed the block |
| ExternTable.InsertStands | byterun/extern.c:280-283 | Recording in the slot where the probe stopped extends the map |
| Finalise.FinalTable.Update | byterun/finalise.c:41-67 | No pair is lost or duplicated, up to forwarding blocks; what stays is not white, what moves is, and is at the end of its forwarding blocks; the finalising set only gains in front, and the values to darken are those moved |
| Finalise.SiftKeepsAll | byterun/finalise.c:48-64 | The same of the loop, for every table |
| Finalise.FinalTable.Register | byterun/finalise.c:145-180 | Adds one pair to the recent set and keeps the others, also when the table grows; reads outside the table if and only if it must grow while all of it is the finalising set |
| Finalise.FinalTable.Grow | byterun/finalise.c:163-170 | Growth keeps the three sets if and only if the free space does not start at 0 |
| Finalise.FinalTable.EmptyYoung | byterun/finalise.c:139-142 | The recent set joins the finalisable set |
| FinalCalls.DoCalls | byterun/finalise.c:69-85 | Is reentrant: whatever the functions called do (register values, let collectors run, come back here, raise), every function in the table or registered since is called or still there, as many times, none is left to finalise at the end, and without a major collection the calls are in order |
| FinalCalls.AccountsMore | byterun/finalise.c:69-85 | Accounts of successive parts of such a run add up |
| FinalCalls.SiftedCount | byterun/finalise.c:41-67 | An update of the table loses no function and doubles none, through forwarding blocks |
| Finalise.ReachStray | byterun/finalise.c:166-168 | A sequence of calls that reaches the read outside the table |
| SkipList.GlobalRoots.Register | byterun/globroots.c:58-94 | The list is again well linked and its roots are the old ones and the new one, at the level drawn, with the others at theirs; or the level strays out of the arrays: if and only if the root is new and the number drawn is at least 0xFFFFFFFC |
| SkipList.GlobalRoots.Insert | byterun/globroots.c:78-94 | Linking a node at any level in bounds keeps the list well linked and the other nodes at their levels, and `level` is the highest non-empty level or 0 |
| SkipList.GlobalRoots.Remove | byterun/globroots.c:98-129 | The same for removal, of a root that is there or not |
| SkipList.GlobalRoots.Search | byterun/globroots.c:67-76 | Finds the last node below the root at every level in use |
| SkipList.Levels | byterun/globroots.c:58-129 | Each level is part of the level below, and the lowest holds all the roots |
| SkipList.WalkSorted | byterun/globroots.c:58-129 | A level is strictly increasing |
| SkipList.WalkMeets | byterun/globroots.c:58-129 | Walking a level meets all its nodes |
| SkipList.RandomLevel | byterun/globroots.c:36-50 | The level drawn is the number of pairs of ones that the number drawn starts with; it is below `MAX_LEVEL` if and only if that number is below 0xFFFFFFFC |
| Congruential.EveryWordDrawn | byterun/globroots.c:36-50 | The generator has full period: from any seed every 32-bit word is drawn |
| SkipList.ReachStray | byterun/globroots.c:34-129 | Registering and removing any one root in turn, from the seed at the start of the program, ends in a level out of bounds |
| Warshall.TransitiveClosure | yacc/warshall.c:19-68 | Bit i, j is set if and only if there is a path |
| Warshall.ReflexiveTransitiveClosure | yacc/warshall.c:70-96 | The same, and the diagonal |
| Closure.SetEff | yacc/closure.c:32-65 | Bit i, j is set if and only if variable j can come first from variable i |
| Closure.SetFirstDerives | yacc/closure.c:68-122 | Bit i, r is set if and only if variable i leads to rule r |
| Closure.Closure | yacc/closure.c:125-194 | The item list is strictly increasing and holds exactly the closure of the nucleus |
| Closure.LeastClosed | yacc/closure.c:125-194 | That closure is the least closed set of items that contains the nucleus |
| Interp.AnySplit | byterun/interp.c:352-500 | However arguments are split over applications, the body is entered with the same arguments in order, environment and surplus, over an untouched stack |
| Interp.OneCall | byterun/interp.c:352-500 | In particular in one application |
| Interp.TooFewArguments | byterun/interp.c:482-500 | Too few arguments give a closure holding them all, and the caller goes on as it was |
| Interp.EnoughArguments | byterun/interp.c:472-500 | With enough, held ones included, the body is entered |
| Interp.ApplyCalls | byterun/interp.c:360-365 | `APPLY` over a return frame is a call from the caller of that frame |
| Interp.PushThenApply | byterun/interp.c:352-365 | `PUSH_RETADDR` and later `APPLY` are a call that returns to the address pushed, with the registers and the stack of the first |
| Interp.ApplyFramedCalls | byterun/interp.c:366-407 | `APPLY1` to `APPLY3` are calls that return to the next instruction |
| Interp.TailCall | byterun/interp.c:409-455 | A tail call from a body with surplus arguments is a call, from the body's own caller, with all of them |
| Interp.ReturnLeaves | byterun/interp.c:457-470 | `RETURN` without surplus arguments gives the result to the caller, whose registers and stack are as before |
| Interp.ReturnApplies | byterun/interp.c:457-470 | `RETURN` with surplus arguments calls the result, from the body's own caller, with them |
| InterpCalls.Evaluation | byterun/interp.c:352-500 | A call with surplus arguments comes, through any tail calls and any results that take arguments in turn, to the call of its result with them from the same caller; without surplus, to the caller, as it was but for the result |
| InterpCalls.OverApplication | byterun/interp.c:352-500 | Applying a function to more arguments than it takes is applying it to those it takes and then, from the same caller, its result to the others, whether bodies end in `RETURN` or in tail calls |
| InterpCalls.PartialTail | byterun/interp.c:409-500 | When the body ends in a tail call with too few arguments, the function of the tail call is entered with the same arguments, environment, surplus and stack, whether the surplus is given at once or to the closure that comes back |
| InterpCalls.CallInCode | byterun/interp.c:352-500 | From `PUSH_RETADDR` over `APPLY` to the return: the result, at the address pushed, with the registers and the stack as they were |
| InterpCalls.IdentityApplies | byterun/interp.c:274-275 | An instance, with the body `ACC0`, `RETURN 1`: the identity applied to a function and to arguments calls that function with them |
| Interp.Interpreter.DoRestart | byterun/interp.c:472-481 | Is the step of the machine for `RESTART` |
| Interp.Interpreter.DoGrab | byterun/interp.c:482-500 | Is the step of the machine for `GRAB` |
| Interp.Interpreter.DoReturn | byterun/interp.c:457-470 | Is the step of the machine for `RETURN` |
| Interp.Interpreter.DoAppterm | byterun/interp.c:409-423 | Is the step of the machine for `APPTERM`: sliding the arguments, last one first, overwrites none before it is copied |
| Compare.CompareVal | byterun/compare.c:42-200 | The result is negative, null or positive exactly as the first value precedes the second, is equal to it, or follows it, in an order defined by itself (`CompareOrder`); the stack overflows if and only if more pairs of blocks wait, at some point of the walk, than it may grow to, and then the first value is nested at least that deep |
| CompareOrder.Trichotomy | byterun/compare.c:80-200 | Integers precede blocks and go by their numbers; blocks go by tag, then by number of fields, then by the first field that differs; strings by the first byte that differs: that order is the comparison, both ways, and equality is equality |
| CompareOrder.TreeReads | byterun/compare.c:80-200 | The tree compared is what is read in memory along any path, forwarding blocks skipped |
| CompareOrder.EqualReads | byterun/compare.c:80-200 | Two values are equal if and only if every path reads the same in both |
| Compare.PeakLow | byterun/compare.c:80-200 | No more pairs of blocks wait than the first value is high |
| Compare.CompareOne | byterun/compare.c:87-192 | One turn of the loop decides, or reduces the question to smaller ones with the same answer |
| Compare.SameValue | byterun/compare.c:87-87 | The shortcut on physical equality never changes the answer |
| Compare.CompareBytes | byterun/compare.c:118-131 | Negative if and only if the first string is a proper prefix of the second or has the smaller byte where they first differ; positive if and only if the second is so of the first |
| CompareSpec.Flip | byterun/compare.c:80-200 | The order is antisymmetric and total |
| CompareSpec.Zero | byterun/compare.c:80-200 | Only equal values compare equal |
| CompareSpec.Trans | byterun/compare.c:80-200 | The order is transitive |
| Int64.UDivMod | byterun/int64_emul.h:167-191 | Exact quotient and remainder for every divisor but zero |
| Int64.MulMeans | byterun/int64_emul.h:72-85 | Multiplication modulo 2^64, through four 16-bit products and two carries |
| Int64.AddMeans | byterun/int64_emul.h:52-59 | Addition modulo 2^64 |
| Int64.SubMeans | byterun/int64_emul.h:62-69 | Subtraction modulo 2^64 |
| Int64.NegMeans | byterun/int64_emul.h:42-49 | Negation modulo 2^64 |
| Int64.Div | byterun/int64_emul.h:193-204 | Truncating division modulo 2^64, exact but for the least integer divided by -1 |
| Int64.Mod | byterun/int64_emul.h:206-217 | The exact truncating remainder |
| Int64Format.Format | byterun/int64_format.h:19-102 | The text of a number for any format, as `Int64Layout.TextIs` lays it out, unless the scan strays |
| Int64Format.FillDigits | byterun/int64_format.h:70-76 | The digits of any number in base 8, 10 or 16 fit the 24-byte buffer |
| Int64Format.ScanFormat | byterun/int64_format.h:30-65 | The flags that a format sets; tells exactly when the scan steps past the end |
| Int64Format.StraysIff | byterun/int64_format.h:49-53 | The scan of a C string steps past its end if and only if the string ends in a width |
| Int64Format.StrayExample | byterun/int64_format.h:49-53 | The format %5 does |
| Int64Layout.LettersMean | byterun/int64_format.h:30-65 | What each letter of a format without a width asks for: o means base 8, x and X 16, the others 10; d and i, and no others, are signed; flags count in any order, and of sign styles the last |
| Int64Layout.WidthMeans | byterun/int64_format.h:49-53 | A width counts as the decimal number that it is, and takes the place of the character after it |
| Int64Layout.TextIs | byterun/int64_format.h:66-101 | The text has the width asked for, or just room for its parts: the sign, the mark of the base and the digits in this order, with spaces before or after them or zeros before the digits |
| Int64Parse.OfString | byterun/ints.c:449-469 | Fails if and only if the text is no numeral; otherwise gives the number that it denotes, modulo 2^64 |
| Int64Parse.SignAndBase | byterun/ints.c:26-47 | Reads the sign and the base |
| Int64Round.TextDenotes | byterun/int64_format.h:66-101 | The text printed in a legible format denotes the number printed |
| Int64Round.LegibleIff | byterun/ints.c:449-469 | Printing and reading back is the identity on all 2^64 values if and only if the format is legible, a property of its flags alone |
| Int64Round.IllegibleExample | byterun/int64_format.h:19-102 | 16 printed with %x is read as 10 |
| Int64Round.FormatAndRead | byterun/ints.c:449-469 | Printing in any format that does not stray and is legible, and reading back, gives the same number |
| Int64Round.PlainLegible | byterun/int64_format.h:30-65 | %d, %u, %#x and %#X are legible |
| Int64Round.WidthHidesConversion | byterun/int64_format.h:49-53 | A format of flags, an optional width and a conversion letter loses its conversion and prints nothing if and only if it has a width |
| Int64Round.WidthExample | byterun/int64_format.h:49-53 | %5d prints nothing |
| LexTables.LexToken | lex/compact.ml:97-126 | From automaton to token: the tables built for any automaton, read by the engine through the buffer, give the longest prefix that the automaton itself recognises, with its action, or nothing if it recognises none |
| LexTables.CompactTables | lex/compact.ml:97-126 | In the packed tables the engine finds exactly the moves, actions and backtrack points of the automaton, for every state and symbol |
| LexTables.Packer.PackMoves | lex/compact.ml:62-86 | A row goes to slots that are free, without disturbing the rows of other states, whose lookups stay the same |
| LexTables.Packer.PackFrom | lex/compact.ml:72-79 | Finds the first place where all the moves of a row fall on free slots |
| LexTables.MostFrequent | lex/compact.ml:21-35 | Gives an element that occurs at least as often as any other |
| LexTables.RunIs | byterun/lexing.c:86-90 | After any number of symbols the tables are in the state of the automaton, and recognise what it does |
| LexTables.MatchIs | byterun/lexing.c:64-104 | The longest match in the tables is that of the automaton |
| Lexing.LexBuffer.NextToken | lex/output.ml:84-98 | However reads split the input, the token is the longest match of the automaton on the whole input, the position is after it, and the buffer holds its text; an empty token means that nothing matches, and a failure that the token does not fit the largest buffer |
| Lexing.LexBuffer.Engine | byterun/lexing.c:50-106 | A call, first or after a refill, resumes the automaton where it was, and returns the longest match, asks for a refill, or fails |
| Lexing.LexBuffer.Refill | stdlib/lexing.ml:38-89 | Shifting or growing the buffer keeps it a window on the input and every position on the same byte |
| Lexing.LastIsLongest | byterun/lexing.c:68-97 | The last backtrack point is the longest match |
| Lexing.FinalIsLongest | byterun/lexing.c:66-67 | A final state is the longest match |
| ChannelOut.OutChannel.Perform | byterun/io.c:183-258 | Any run of puts, flushes and seeks gives the file and position of an unbuffered cursor, wherever the descriptor was at first and whatever each write accepts; the channel's own idea of its position is right once it has sought, and before that if and only if the descriptor was at its start |
| ChannelOut.OutChannel.FlushPartial | byterun/io.c:183-197 | Bytes written plus bytes buffered stay the same, also when a write fails |
| ChannelOut.OutChannel.Flush | byterun/io.c:201-204 | Ends with an empty buffer and the file complete |
| ChannelOut.OutChannel.PutBlock | byterun/io.c:218-241 | Takes a prefix of the bytes, as an unbuffered write of it; none, if a write fails |
| ChannelOut.OutChannel.ReallyPutBlock | byterun/io.c:243-251 | Takes all the bytes, or a prefix if a write fails; terminates |
| ChannelOut.OutChannel.SeekOut | byterun/io.c:253-258 | Moves the cursor and keeps the file |
| ChannelOut.OutChannel.PosOut | byterun/io.c:260-263 | The position told is that of the cursor if and only if the descriptor has no lead over the channel |
| ChannelOut.WriteTwice | byterun/io.c:183-241 | Two writes in a row are one |
| ChannelOut.WriteKeeps | byterun/io.c:183-241 | A write puts its bytes in their place, keeps all the others, and fills a gap with zeros |
| ChannelIn.InChannel.GetChar | byterun/io.c:287-297 | The byte under the cursor, or the end of the file exactly there |
| ChannelIn.InChannel.GetBlock | byterun/io.c:313-336 | Bytes of the file from the cursor on, at least one unless at the end |
| ChannelIn.InChannel.ReallyGetBlock | byterun/io.c:338-348 | All the bytes asked for, or all that are left |
| ChannelIn.InChannel.SeekIn | byterun/io.c:350-360 | The cursor moves to the place asked for, also past the end, if and only if the channel knows its position or the place is outside the buffer |
| ChannelIn.InChannel.ScanLine | byterun/io.c:367-405 | The length of the line up to its first newline, or how many bytes there are without one, independently of what the buffer held; the cursor stays |
| ChannelIn.LineLengthIs | byterun/io.c:367-405 | That length ends at the first newline; without one, it is a buffer full or reaches the end of the file |
| ChannelIn.InChannel.Perform | byterun/io.c:287-405 | Any run of reads, line scans, seeks and position queries gets the replies of an unbuffered cursor, whatever each read returns, if the channel was opened at the start of its file or the run neither seeks nor asks for the position; otherwise the replies of a cursor that misses each place sought inside the buffer by the distance at which the channel was opened, until the first seek outside it |
| ChannelIn.NoLead | byterun/io.c:350-365 | For a channel opened at the start, it makes no difference which seeks stay inside the buffer |
| ChannelIn.InChannel.PosIn | byterun/io.c:362-365 | The position told is that of the cursor if and only if the descriptor has no lead over the channel |
| ChannelIn.ReachMisplaced | byterun/io.c:64-80 | A channel opened anywhere in its file reads a byte and seeks to 0: it lands where it was opened, which is 0 only if that was the start |

## Left out

- Compaction: shrinking the heap and rebuilding the free list after the fourth pass; both follow the moves proved here.
- Compaction: an infix header is taken to have a word of its closure after it, as the code pointer that it stands before.
- CompactPlace.Allocator.Allocate: takes what the search finds past the last chunk not to be a full chunk; tells when it looks there.
- Major collector: allocation and initialisation of a block are one step, and the chunks of the heap are not visible to the marker.
- MajorGc.Collector.MajorCollectionSlice: does not decide whether to compact at the end of a cycle, which is a heuristic in floating point.
- Major collector: the recent finalisable values count as finalisable at once, custom finalisers in the sweep, and the pacing in floating point; the work of a slice is arbitrary.
- `weak_get_copy`, `obj_dup`, `obj_truncate`: they bypass the barrier, so the run invariant does not cover them. Weak arrays reached only from finalised values are off the weak list.
- GcStores.ReadsLastStored: says nothing of a pointer to a forwarding block, which the collector may replace by what is behind it.
- Minor collector: pointers outside both heaps behave like integers.
- MajorGc.Collector.MarkSlice: termination assumes that forwarding blocks form no cycle and that those before a finalised value end in a block, as the runtime builds them.
- MinorGc.MinorCollector.EmptyMinorHeap: assumes that young forwarding blocks form no cycle.
- Free list: links and headers are maps and sequences instead of words in memory, so that the model does not show where a link is stored.
- Marshalling: headers of 64-bit sizes, `size_64`, 64-bit integers outside custom blocks, the flag that turns sharing off, and the growth of the output buffer.
- Marshalling: `serialize_float_8` and user-written serializers; custom blocks are the int32, int64 and nativeint ones, and those without a serializer.
- Marshal.Interner.InternRec: a shared offset out of range, or bytes that run out, give an error, where `byterun/intern.c` only has an assertion, or nothing, and reads on.
- ExternTable.ObjectTable.Record: fewer than the number of objects that a 32-bit heap can hold, so that stamps fit a word.
- FinalCalls.DoCalls: with a major collection in between, counts the calls of each function but does not fix their order or the values, which collections may replace along forwarding blocks; what follows a registration that leaves the table is not described.
- SkipList.GlobalRoots.Register: does not describe memory after a level out of bounds.
- Global roots: nodes are a map from address to links instead of linked records.
- Parser generator: the packing of bit matrices into machine words; rows are rows of booleans.
- Interpreter: what the other instructions do; each may be any function on the registers, the stack and the closures of the machine.
- InterpCalls.OverApplication: describes a body by what it computes, whatever lies under its arguments; a tail call with too few arguments is in `InterpCalls.PartialTail`, which does not compare the heaps or the accumulator: only one of the two ways builds the closure.
- Comparison: floats, closures, objects, abstract and custom blocks, values outside the heap.
- 64-bit integers: shifts by more than one, conversion from and to floats.
- Int64Format.ScanFormat: widths are unbounded numbers, and what lies past the end of a format is not known.
- LexTables.CompactTables: numbers in the tables are unbounded, where `lex/output.ml` writes them in 16 bits and refuses more than 32768 slots; the automaton is given, not made from regular expressions.
- Lexing.LexBuffer.NextToken: does not describe the state after the buffer could not grow, and assumes an automaton that stops; where it does not, the engine does not either.
- Channels: mutexes, closed channels, `channel_size`, descriptors in append mode, and files that change while they are read.
- ChannelIn.InChannel.Perform: which seeks stay inside the buffer depends on how much each read returned; says only how far they can go.
- Signals, system calls, dynamic linking, the debugger, hashing, MD5, stacks and the native-code frame tables.
