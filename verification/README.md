# SAIOS kernel model

A Dafny model of the state machines at the core of the SAIOS kernel, with proofs about every input and every
reachable state. Each module follows one component; where the source updates fields and buffers in place, the
model is a class with the same fields and loops, specified by a simple form (a set of pages, a list of ranges, a
tree of inodes, a language of strings) whose laws are proved as lemmas.

| file | component | main results |
|---|---|---|
| `Machine.dfy` | machine words, options and results | - |
| `PhysMem.dfy` | physical page allocator | bits and counter refine the set of free pages; allocation is sound, complete and first fit |
| `Heap.dfy` | kernel heap | all blocks ever handed out are disjoint, aligned and on held pages; growth terminates and conserves pages |
| `PageTable.dfy`, `Paging.dfy` | four-level page tables | mapping, unmapping, trimming and rollback change exactly the translations they should |
| `Vmm.dfy` | virtual memory manager | the page walk refines the list of mappings over a base translation; failures leave no trace |
| `Regex.dfy` | shell pattern matcher | the backtracking matcher decides the language of the pattern |
| `Scheduler.dfy` | round-robin scheduler | invariant over all runs; bounded waiting, to the exact step |
| `Services.dfy` | service start-up | the Running set is the least fixpoint, in dependency order, whatever the registration order |
| `Line.dfy` | line drawing | the error term bounds the distance from the ideal line; the fast paths paint the same pixels |
| `Paths.dfy` | path splitting and normalising | normal forms, shared by the three file layers |
| `Mounts.dfy` | mount namespace | every path resolves to its unique longest mount; unmount undoes mount |
| `TmpFs.dfy`, `MemFs.dfy` | in-memory file system | the inode graph stays a tree; paths and inodes are inverse to each other |
| `Descriptors.dfy` | descriptor table | descriptors name live files; chunked reads are one read |
| `StorageCodec.dfy` | on-disk tree format | round trip, exactly when lengths fit |
| `StorageTree.dfy`, `MountedTree.dfy` | storage tree | unique, normalised, parent-closed paths; what rename moves |
| `BlockDevices.dfy`, `StorageVolume.dfy` | sectors, saving and loading | a saved tree loads as itself; nothing outside the partition changes |

`dafny verify dfyconfig.toml` checks the whole project.

## Reading the model

- Each call of an operation is one atomic step; the source takes a spin lock around it.
- A class keeps its `Valid()` (or its invariant function) from one operation to the next, so what `Valid()` says
  holds after every run of operations. The scheduler also has explicit runs, for statements about the order of steps.
- Integers are unbounded; 64-bit saturation, wrap-around and truncation are written out where the source relies on
  them. A debug build of the source stops at an overflow or at a misaligned page-table entry; the model follows a
  release build.
- Strings are byte sequences, as in the source; that they are UTF-8 matters only to the storage format.
- Page tables are a map from frames to 512 entries. Frames are the source's own frames; the recursive slot of the
  top table is what lets the source reach a table by its frame. Addresses covered by bootstrap huge pages or by the
  recursive slot are the set `blocked`, and operations are stated for the other pages (`Plain`).
- A service's two callbacks answer the same whenever they are called; that start-up does not depend on the
  registration order rests on this.
- Recorded ranges are canonical after every run of operations whose user ranges are; kernel ranges always are.
- The paging format is four-level long-mode translation (section 5.3 of AMD64 Architecture Programmer's Manual
  Volume 2).

## Where the code does not do what it promises

Each of these has a theorem with the exact condition under which the promise holds, and a failing input.

- `alloc_pages_below` says its range stays below the byte bound; with an unaligned bound the last page can cross it
  (`PhysMem.BoundIsRespectedExactlyWhen`, `PhysMem.BoundIsCrossed`).
- `reserve` rounds the end of its range up with wrap-around and then reserves nothing
  (`PhysMem.ReserveCoversExactlyWhen`, `PhysMem.ReservedPageIsAllocated`).
- `init` of the page allocator rounds the end of memory up the same way and then tracks nothing
  (`PhysMem.InitTracksExactlyWhen`, `PhysMem.LastPageHidesMemory`).
- The heap grows by the size of a large request, in pieces of 4 MiB that are never joined, so a request above 4 MiB
  is refused however much memory there is; while the heap can grow by a whole step, requests aligned to at most a page
  are served exactly up to 4 MiB (`KernelHeap.Heap.Alloc`, `KernelHeap.LargeFitsNowhere`).
- A physical target at or above 2^52 loses its high bits in a page-table entry (`VirtMem.TargetExactlyWhen`,
  `VirtMem.HighTargetIsLost`).
- Unmapping unlinks empty tables to keep their number bounded, but does not give their frames back: frames are lost
  exactly when the page was the last one of its table (`Paging.Mmu.UnmapPageHw`, `VirtMem.TrimmedTablesAreLost`).
- `alloc_and_map` loses its frames when the manager is not started or the range overflows
  (`VirtMem.Vmm.AllocAndMap`, `VirtMem.UnstartedManagerLosesPage`).
- The scheduler's self-test expects exactly one Running thread; idle stays Running after it is switched away from
  (`Scheduling.ExactlyOneRunningWhen`, `Scheduling.SelfTestFails`).
- A horizontal line that starts past the right edge panics (`LineDrawing.Surface.DrawLine`,
  `LineDrawing.LineBeyondRightEdge`).
- Neither rename refuses to move a directory into itself; the in-memory one also accepts a file as the new parent,
  and the storage one accepts the volume's root as the source (`TmpFs.MoveKeepsTreeExactlyWhen`,
  `TmpFs.MoveIntoItself`, `StorageTree.RenameKeepsTreeExactlyWhen`, `StorageTree.RenameIntoItself`).
- Seeking from the start to 2^63 or beyond goes to the beginning (`Descriptors.SeekStartExactlyWhen`,
  `Descriptors.FarSeekGoesBack`).
- The storage format truncates lengths silently; a save of a path of 64 KiB or more succeeds and loads as something
  else (`StorageCodec.RoundTripExactlyWhen`, `StorageVolume.LongPathIsLost`).
- A save without room notices it only after overwriting the partition: the new tree is in memory, the stored one is
  gone, and loading gives the default tree (`StorageVolume.SaveAgreesExactlyWhen`,
  `StorageVolume.FullPartitionLosesTree`).

Two more remarks where code and documentation differ: a failed mapping in `alloc_and_map` gives its frames back but
keeps the kernel range used up, and the heap's header speaks of mapping pages into virtual space and of a target of a
quarter of memory, while the code uses the physical addresses themselves and the maximum as its target.

## Model

| member | source | states |
|---|---|---|
| PhysMem.SetBitExact | seed/saios/src/driver/memory.rs:43-47 | setting a bit of a bitmap word changes that bit and no other |
| PhysMem.ClearBitExact | seed/saios/src/driver/memory.rs:49-53 | clearing a bit of a bitmap word changes that bit and no other |
| PhysMem.PageBitmap.constructor | seed/saios/src/driver/memory.rs:19-27 | a bitmap with every page used |
| PhysMem.PageBitmap.IsUsed | seed/saios/src/driver/memory.rs:37-41 | the bit of a page says whether it is outside the set of free pages |
| PhysMem.PageBitmap.SetUsed | seed/saios/src/driver/memory.rs:43-47 | takes exactly one page out of the set of free pages that the bits stand for |
| PhysMem.PageBitmap.SetFree | seed/saios/src/driver/memory.rs:49-53 | adds exactly one page to the set of free pages that the bits stand for |
| PhysMem.PageBitmap.Fill | seed/saios/src/driver/memory.rs:29-35 | all ones means no page is free |
| PhysMem.Pmm.Reset | seed/saios/src/driver/memory.rs:29-35 | from any counted state: nothing tracked, nothing free, hint at page 1 |
| PhysMem.Pmm.Init | seed/saios/src/driver/memory.rs:67-104 | the free pages are exactly the tracked pages from 1 up that lie wholly in a usable region; the counter equals their number |
| PhysMem.Pmm.FindHighest | seed/saios/src/driver/memory.rs:71-77 | the loop finds the end of the highest region |
| PhysMem.InitTracksExactlyWhen | seed/saios/src/driver/memory.rs:71-80 | all usable memory below 64 GiB is tracked exactly when rounding the highest end up does not wrap, or there is none |
| PhysMem.LastPageHidesMemory | seed/saios/src/driver/memory.rs:71-80 | a region ending in the last page of the address range leaves nothing to allocate |
| PhysMem.ScanVisits | seed/saios/src/driver/memory.rs:147-165 | the modular scan reaches every possible start page |
| PhysMem.Pmm.FindRun | seed/saios/src/driver/memory.rs:147-176 | the scan finds the first free run in circular order from the hint, or there is none at all |
| PhysMem.Pmm.AllocPagesBelow | seed/saios/src/driver/memory.rs:122-179 | sound (the run was wholly free, inside [1, bound), and exactly it is taken), complete (None exactly when no free run of that length exists below the bound) and first fit from the hint; the run lies below the byte bound when that is page aligned or above tracked memory |
| PhysMem.BoundIsRespectedExactlyWhen | seed/saios/src/driver/memory.rs:121-145 | the page bound the scan uses stays below the byte bound exactly when that is page aligned or above all tracked memory |
| PhysMem.BoundIsCrossed | seed/saios/src/driver/memory.rs:121-145 | for every unaligned bound within the page limit there is a state in which the page returned crosses it |
| PhysMem.Pmm.AllocPages | seed/saios/src/driver/memory.rs:117-119 | the same without a bound |
| PhysMem.Pmm.AllocPage | seed/saios/src/driver/memory.rs:107-109 | fails exactly when no page is free, otherwise takes one free page |
| PhysMem.Pmm.FreePage | seed/saios/src/driver/memory.rs:182-204 | accepts exactly aligned, tracked, held pages other than page 0, frees just that page, lowers the hint; the counter never drifts |
| PhysMem.FreeEachIs | seed/saios/src/pmm.rs:58-73 | freeing page by page with a saturating cursor frees the tracked pages of the range, and succeeds exactly when all of them were held |
| PhysMem.Pmm.FreePagesRange | seed/saios/src/pmm.rs:58-73 | the loop frees exactly those pages and reports success exactly then |
| PhysMem.Pmm.Reserve | seed/saios/src/driver/memory.rs:207-223 | takes exactly the pages between the rounded ends out of the pool |
| PhysMem.ReserveCoversExactlyWhen | seed/saios/src/driver/memory.rs:207-223 | every page touching the byte range is reserved exactly when rounding its end up does not wrap, or the range lies above tracked memory |
| PhysMem.ReservedPageIsAllocated | seed/saios/src/driver/memory.rs:207-223 | reserving everything from page 1 up wraps around, and page 1 is still handed out |
| PhysMem.Pmm.Stats | seed/saios/src/driver/memory.rs:226-265 | free plus used pages is the total, with no underflow |
| KernelHeap.ClearLowRounds | seed/saios/src/heap.rs:90-93 | masking off the low bits rounds down to a multiple of the power of two |
| KernelHeap.AlignUpIsLeast | seed/saios/src/heap.rs:90-93 | align_up gives the least multiple of the alignment not below the value |
| KernelHeap.RequestFitsBudget | seed/saios/src/heap.rs:95-99 | rounding a growth request up to pages stays within the heap maximum, so add_chunk never cuts a chunk short |
| KernelHeap.Heap.TakePages | seed/saios/src/heap.rs:112-127 | the halving search takes a free run of the first halved size that has one: no larger attempt had; it fails exactly when nothing is asked for or not even one page is to be had |
| KernelHeap.Heap.AddChunk | seed/saios/src/heap.rs:129-153 | appends one chunk cut to the remaining budget, or changes nothing |
| KernelHeap.FreshRunApart | seed/saios/src/heap.rs:155-171 | a run that was free shares no byte with any chunk in use |
| KernelHeap.GrowKeepsHeap | seed/saios/src/heap.rs:155-171 | adding a run as a chunk keeps chunks disjoint, on held pages, and the committed counter exact |
| KernelHeap.Heap.Grow | seed/saios/src/heap.rs:155-171 | terminates; stops only at the wanted size, at 512 chunks or without a page; committed bytes plus free pages is conserved; new chunks are unused runs of the old pool, and the first is a whole step when one can be taken |
| KernelHeap.CutKeepsHeap | seed/saios/src/heap.rs:185-191 | cutting a block at the bump pointer keeps all blocks disjoint, aligned, non-null and inside their chunk |
| KernelHeap.AllVisited | seed/saios/src/heap.rs:178-180 | the circular chunk search tries every chunk |
| KernelHeap.Heap.TryAlloc | seed/saios/src/heap.rs:173-195 | fails exactly when the request fits no chunk; otherwise cuts it from the first fitting chunk in circular order |
| KernelHeap.Heap.Alloc | seed/saios/src/heap.rs:210-249 | all blocks ever returned stay disjoint, aligned and on held pages; null means no chunk fits and growth stopped for cause; page accounting is conserved; while a whole growth step can be taken, a request aligned to at most a page is served exactly up to 4 MiB; above 4 MiB always null; nothing is served by growing without a free run of its own size |
| KernelHeap.LargeFitsNowhere | seed/saios/src/heap.rs:230-240 | chunks come from growth steps of at most 4 MiB and are never joined, so a larger request fits in none |
| KernelHeap.UnusedServesExactlyWhen | seed/saios/src/heap.rs:185-191 | an unused chunk serves a request aligned to at most a page exactly up to its own size |
| KernelHeap.ServedFromRun | seed/saios/src/heap.rs:155-191 | a request that fits a chunk taken from the pool had a free run of its own size there |
| KernelHeap.Heap.GrowOnce | seed/saios/src/heap.rs:158-169 | one turn of the growth loop adds one unused chunk exactly when a page is to be had, and a whole step when one can be taken |
| KernelHeap.Heap.GrowAndRetry | seed/saios/src/heap.rs:230-247 | after growing by a whole step the second attempt serves every request up to 4 MiB that is aligned to at most a page, and none above |
| KernelHeap.BlocksAreHeld | seed/saios/src/heap.rs:210-249 | no byte of a returned block lies on a page the page allocator has free |
| KernelHeap.HeapBounds | seed/saios/src/heap.rs:197-204 | used <= committed <= maximum in every reachable state |
| KernelHeap.Heap.ComputeUsedBytes | seed/saios/src/heap.rs:197-204 | the sum never saturates and equals the bytes below the bump pointers |
| KernelHeap.Heap.Init | seed/saios/src/heap.rs:258-293 | sets the maximum from tracked memory and mode; its assertion fails only without budget or without a page |
| PageTable.AddressKeptExactlyWhen | hal/src/arch/x86_64/paging.rs:36-60 | an entry gives its address back exactly when the address is page aligned and below 2^52 |
| PageTable.IndicesRebuildAddress | seed/saios/src/vmm.rs:191-198 | the four indices and the offset rebuild the low 48 bits of an address |
| PageTable.AddTable | seed/saios/src/vmm.rs:293-314 | hanging a cleared table into an empty slot keeps the tables a tree and every translation |
| PageTable.WriteLeaf | seed/saios/src/vmm.rs:314-319 | writing a leaf entry changes the translation of that page only |
| PageTable.TrimTable | seed/saios/src/vmm.rs:350-359 | unlinking a table without present entries keeps the tables a tree and every translation |
| Paging.Mmu.constructor | seed/saios/src/vmm.rs:508-549 | starts from given well-formed tables whose frames are held |
| Paging.Mmu.EnsureTable | seed/saios/src/vmm.rs:293-314 | a missing table is made from one free page, exactly when there is one; no translation changes |
| Paging.Mmu.EnsurePath | seed/saios/src/vmm.rs:290-314 | walks or builds three levels; fails exactly when there are fewer free pages than missing tables; no translation changes |
| Paging.Mmu.MapPageHw | seed/saios/src/vmm.rs:290-322 | maps one page, or fails as already mapped exactly when it was present, or out of tables exactly when there are fewer free pages than missing tables; failures change no translation |
| Paging.Mmu.FindLeafTable | seed/saios/src/vmm.rs:324-341 | walks to the leaf table exactly when it exists |
| Paging.Mmu.TranslateHw | seed/saios/src/vmm.rs:364-387 | the walk gives the leaf entry address plus the offset, or nothing |
| Paging.Mmu.TrimIfEmpty | seed/saios/src/vmm.rs:350-359 | unlinks a table exactly when it has no entries; trimming changes no translation |
| Paging.Mmu.UnmapPageHw | seed/saios/src/vmm.rs:324-362 | empties one page, reports not mapped exactly when it was absent, and unlinks exactly the tables left without entries; their frames do not come back, so mapping the page again needs that many new ones |
| Paging.Mmu.UnmapPages | seed/saios/src/vmm.rs:750-755 | the unmapping loop clears exactly the pages of the range |
| Paging.ClearUndoesWrite | seed/saios/src/vmm.rs:617-629 | clearing the pages a mapping loop wrote restores every translation |
| Paging.Mmu.Rollback | seed/saios/src/vmm.rs:621-626 | rollback restores the translation from before the call |
| Paging.Mmu.MapPages | seed/saios/src/vmm.rs:617-629 | all pages are mapped, or every translation is as before; which it is, and why, is decided by the tables and the number of free pages before the call |
| Paging.NeededNext | seed/saios/src/vmm.rs:293-314 | the tables a range needs are the sum of those missing for each page in turn |
| Paging.WhyStopped | seed/saios/src/vmm.rs:617-629 | the page at which the loop stops gives the error decided beforehand |
| Paging.Mmu.TrimPath | seed/saios/src/vmm.rs:350-359 | drops the leaf table exactly when the page was alone in it, and each table above exactly when what was dropped below was alone |
| Paging.RemapNeeds | seed/saios/src/vmm.rs:350-359 | mapping a page again needs a new frame for every table dropped from its path |
| VirtMem.AddressSpace | seed/saios/src/vmm.rs:582-774 | main theorem, which Translate carries to every reachable state: an address in a recorded mapping translates to phys + (v - virt) exactly when that frame is below 2^52; with canonical ranges every other canonical address translates as before the manager started |
| VirtMem.TargetExactlyWhen | hal/src/arch/x86_64/paging.rs:40-59 | a mapped page reaches its physical target exactly when that lies below 2^52 |
| VirtMem.HighTargetIsLost | hal/src/arch/x86_64/paging.rs:40-59 | a page mapped to 2^52 translates to 0 |
| VirtMem.CanonicalInjective | seed/saios/src/vmm.rs:183-198 | canonical addresses with the same table indices are on the same page |
| VirtMem.RecordKeepsRefinement | seed/saios/src/vmm.rs:617-639 | recording a mapped range keeps the page walk equal to the list of mappings |
| VirtMem.DropKeepsRefinement | seed/saios/src/vmm.rs:748-755 | dropping an unmapped range keeps the page walk equal to the list of mappings |
| VirtMem.Vmm.constructor | seed/saios/src/vmm.rs:98-107 | an empty list of mappings refines the given tables |
| VirtMem.Vmm.Init | seed/saios/src/vmm.rs:564-579 | idempotent; the kernel range starts at its base |
| VirtMem.Vmm.FindOverlap | seed/saios/src/vmm.rs:610-615 | finds an overlap exactly when some recorded range overlaps |
| VirtMem.Vmm.Map | seed/saios/src/vmm.rs:582-642 | records the range and maps all of it, or leaves mappings and translations as they were; the answer (the refusal, a taken page, too few frames for tables, or success) is decided by the state before the call; keeps ranges canonical when user ranges are |
| VirtMem.Vmm.MapOwned | seed/saios/src/vmm.rs:646-664 | the same, with ownership of the frames passing to the manager |
| VirtMem.Vmm.ReserveRange | seed/saios/src/vmm.rs:674-682 | takes the next kernel range, or refuses without a change |
| VirtMem.Vmm.AllocAndMap | seed/saios/src/vmm.rs:667-690 | success maps a fresh run at the next kernel range; failure changes no mapping and no translation; the answer is decided by the state before the call; frames taken come back after a failure exactly when the manager is started and the range does not overflow |
| VirtMem.UnstartedManagerLosesPage | seed/saios/src/vmm.rs:667-690 | a manager that was not started takes the only free page and maps nothing |
| VirtMem.Vmm.MapOrGiveBack | seed/saios/src/vmm.rs:684-687 | a failed mapping returns its frames to the pool; the answer is decided by the state before the call |
| VirtMem.PoolRestored | seed/saios/src/vmm.rs:684-687 | after giving back, the pool differs from before only by frames that became tables |
| VirtMem.Vmm.MapPhysicalAnywhere | seed/saios/src/vmm.rs:693-729 | success maps at the next kernel range; any failure restores mappings, translations and the next range; the answer is decided by the state before the call |
| VirtMem.Vmm.FindMapping | seed/saios/src/vmm.rs:742-746 | the first mapping that starts at the address |
| VirtMem.Vmm.Unmap | seed/saios/src/vmm.rs:732-763 | removes that mapping, restores the base translation of its pages, frees exactly its owned frames; each refusal is exact and changes nothing |
| VirtMem.TrimmedTablesAreLost | seed/saios/src/vmm.rs:290-362 | with just the frames for its three tables a page is mapped and unmapped, and then cannot be mapped again |
| VirtMem.OwnedDrop | seed/saios/src/vmm.rs:757-759 | frames freed by an unmap belong to no other owned mapping and to no table |
| VirtMem.Vmm.Translate | seed/saios/src/vmm.rs:766-774 | in every reachable state: phys + (virt - start) for an address in a recorded range, exactly when that frame is below 2^52; the base translation for every other canonical address |
| Regex.ParsedClass | seed/saios/src/shell/regex.rs:152-192 | a parsed class is the bracketed text itself, with a non-empty body of whole characters |
| Regex.WholeBodyIsRead | seed/saios/src/shell/regex.rs:209-244 | reading such a body never fails, so class_contains never takes its failure branch |
| Regex.ParsedClassesAreWhole | seed/saios/src/shell/regex.rs:32-63 | every class in an accepted pattern has such a body |
| Regex.ParseClassAt | seed/saios/src/shell/regex.rs:152-192 | the index loop computes the class parse |
| Regex.ClassContains | seed/saios/src/shell/regex.rs:209-235 | true exactly when some listed character or range has the byte |
| Regex.AtomMatches | seed/saios/src/shell/regex.rs:198-207 | true exactly when the atom accepts the byte |
| Regex.ParseAtomAt | seed/saios/src/shell/regex.rs:135-150 | the atom parse |
| Regex.PeelItem | seed/saios/src/shell/regex.rs:65-104 | the language of a pattern unfolds at its first item |
| Regex.MatchRepeat | seed/saios/src/shell/regex.rs:106-133 | the greedy loop with backtracking finds a repetition count exactly when one fits |
| Regex.MatchOptional | seed/saios/src/shell/regex.rs:86-94 | zero or one occurrence |
| Regex.MatchHere | seed/saios/src/shell/regex.rs:65-104 | true exactly when a prefix of the text is in the language of the pattern |
| Regex.ValidatePattern | seed/saios/src/shell/regex.rs:32-63 | accepts exactly the patterns the parser accepts, with the same error |
| Regex.IsMatch | seed/saios/src/shell/regex.rs:8-30 | for every accepted pattern: true exactly when some substring (a prefix after ^, a suffix before a final $) is in the language |
| Regex.Somewhere | seed/saios/src/shell/regex.rs:19-29 | searching every start is the existence of a match |
| Scheduling.PickTakesFirst | seed/saios/src/scheduler.rs:204-231 | the popping loop returns the first waiting thread other than idle, idle only when there is none, and leaves the rest in order |
| Scheduling.SpawnKeepsInv | seed/saios/src/scheduler.rs:113-143 | a spawned thread joins the end of the line; the invariant is kept |
| Scheduling.ExitKeepsInv | seed/saios/src/scheduler.rs:194-197 | an exit keeps the invariant |
| Scheduling.ScheduleKeepsInv | seed/saios/src/scheduler.rs:233-265 | a scheduling step keeps the invariant |
| Scheduling.ScheduleIsRoundRobin | seed/saios/src/scheduler.rs:233-265 | the head of the line runs next, a running thread goes to its end, idle runs only when the line is empty |
| Scheduling.StepKeepsInv | seed/saios/src/scheduler.rs:113-265 | every step keeps: queue distinct and in range, every live non-idle thread current or queued once, only the current non-idle thread Running, no Dead thread dispatched |
| Scheduling.InitialInv | seed/saios/src/scheduler.rs:268-301 | the invariant holds after init |
| Scheduling.LineMoves | seed/saios/src/scheduler.rs:204-265 | each step moves a waiting thread up by one place exactly when it schedules |
| Scheduling.StaysInLine | seed/saios/src/scheduler.rs:204-265 | before its turn a waiting thread keeps its place over every run |
| Scheduling.BoundedWaiting | seed/saios/src/scheduler.rs:204-265 | a thread with k others ahead runs at exactly the (k+1)-th scheduling step of every run |
| Scheduling.ExactlyOneRunningWhen | seed/saios/src/scheduler.rs:366-390 | the self-test of one Running thread holds exactly when idle is current, or both or neither hold of: the current thread is Dead, idle is marked Running |
| Scheduling.SelfTestFails | seed/saios/src/scheduler.rs:376-390 | after two scheduling steps from the start two threads are Running |
| Scheduling.IdsUniqueExactlyWhen | seed/saios/src/scheduler.rs:107-111 | after every run from the start thread ids are unique exactly while no more than 2^64 threads exist |
| Scheduling.Scheduler.constructor | seed/saios/src/scheduler.rs:268-301 | init builds the initial state |
| Scheduling.Scheduler.SpawnThread | seed/saios/src/scheduler.rs:113-143 | takes the spawn step and returns the new id |
| Scheduling.Scheduler.OnTimerTick | seed/saios/src/scheduler.rs:312-324 | takes the tick step |
| Scheduling.Scheduler.ExitCurrent | seed/saios/src/scheduler.rs:194-197 | takes the exit step |
| Scheduling.Scheduler.PickNext | seed/saios/src/scheduler.rs:204-231 | the loop computes the pick |
| Scheduling.Scheduler.DoSchedule | seed/saios/src/scheduler.rs:233-265 | takes the scheduling step |
| Services.LeastClosedIgnoresOrder | seed/saios/src/ksf.rs:215-244 | the least set does not depend on registration order |
| Services.ReadyMeansRunning | seed/saios/src/ksf.rs:142-149 | dependencies are ready exactly when each is Running |
| Services.StartKeepsInv | seed/saios/src/ksf.rs:182-212 | starting a ready service keeps: running services are justified, callbacks run at most once and after their dependencies |
| Services.QuietMeansLeast | seed/saios/src/ksf.rs:215-244 | when no service can start, the Running set is the least fixpoint |
| Services.ServiceManager.Register | seed/saios/src/ksf.rs:126-134 | adds a service unless its id is taken |
| Services.ServiceManager.InitAt | seed/saios/src/ksf.rs:151-179 | runs the initialise callback once, with its outcome |
| Services.ServiceManager.StartAt | seed/saios/src/ksf.rs:182-212 | initialises and starts when ready, with its outcome |
| Services.ServiceManager.Sweep | seed/saios/src/ksf.rs:219-228 | one pass keeps the invariant; without progress nothing can start |
| Services.ServiceManager.StartAll | seed/saios/src/ksf.rs:215-244 | terminates; from all-Registered the Running set is the least fixpoint, callbacks run at most once and in dependency order; Ok exactly when all run |
| LineDrawing.ErrorMeansDistance | seed/saios/src/graphics/surface.rs:206-239 | the error term is the signed distance from the ideal line |
| LineDrawing.DeviationBound | seed/saios/src/graphics/surface.rs:206-239 | every visited point is within half a step of the ideal line |
| LineDrawing.ReachesEnd | seed/saios/src/graphics/surface.rs:206-239 | never overshoots and is at the end after exactly as many steps as the longer side |
| LineDrawing.NothingSaturates | seed/saios/src/graphics/surface.rs:206-239 | doubling the error never saturates for coordinates below 2^60 |
| LineDrawing.NextPoint | seed/saios/src/graphics/surface.rs:229-238 | one iteration moves the point and the error term as the doubled error term decides |
| LineDrawing.EndTest | seed/saios/src/graphics/surface.rs:226-228 | the loop test is met at the last step only |
| LineDrawing.HorizontalPoints | seed/saios/src/graphics/surface.rs:165-182 | the line of a horizontal segment is its row |
| LineDrawing.VerticalPoints | seed/saios/src/graphics/surface.rs:185-204 | the line of a vertical segment is its column |
| LineDrawing.Surface.FillRow | seed/saios/src/graphics/surface.rs:165-182 | the horizontal fast path paints the clipped line |
| LineDrawing.Surface.FillColumn | seed/saios/src/graphics/surface.rs:185-204 | the vertical fast path paints the clipped line |
| LineDrawing.Surface.Plot | seed/saios/src/graphics/surface.rs:206-239 | the general loop paints the clipped line and terminates |
| LineDrawing.Surface.DrawLine | seed/saios/src/graphics/surface.rs:163-240 | paints exactly the clipped line, except that a horizontal line in range that starts beyond the right edge by more than a pixel panics |
| LineDrawing.LineBeyondRightEdge | seed/saios/src/graphics/surface.rs:165-182 | a line just beyond the right edge of a one-pixel surface panics |
| Paths.ReducePieces | seed/saios/src/saifs.rs:296-330 | the normalising loop shared by the three path normalisers |
| Paths.PartsOfAbsolute | seed/saios/src/vfs.rs:198-200 | the parts of a rendered path are its names |
| Paths.NamesArePlain | seed/saios/src/driver/storage.rs:375-397 | a normalised path has only plain names |
| Paths.NormalIdempotent | seed/saios/src/saifs.rs:296-330 | normalisation is idempotent |
| Paths.AbsoluteInjective | seed/saios/src/driver/storage.rs:375-397 | different lists of names have different paths |
| Paths.ExtendsMeansPrefix | seed/saios/src/driver/storage.rs:399-405 | the byte test for containment is the prefix order on names |
| Mounts.Canonicalize | seed/saios/src/saifs.rs:296-330 | rejects exactly paths with a NUL byte, otherwise normalises |
| Mounts.InMountMeansPrefix | seed/saios/src/saifs.rs:332-336 | a path is in a mount exactly when the mount names are a prefix of its names |
| Mounts.ProviderPathMeansRest | seed/saios/src/saifs.rs:338-353 | the provider path is the path of the remaining names |
| Mounts.RejoinRebuilds | seed/saios/src/saifs.rs:338-353 | mount path and provider path joined rebuild the canonical path |
| Mounts.BestIsUnique | seed/saios/src/saifs.rs:450-470 | the longest covering mount is unique and below every other covering mount |
| Mounts.RootCovers | seed/saios/src/saifs.rs:740-764 | the root mount always covers |
| Mounts.MountActsBelow | seed/saios/src/saifs.rs:713-738 | a new mount changes resolution only for paths below it |
| Mounts.UnmountUndoesMount | seed/saios/src/saifs.rs:740-764 | mount then unmount restores the table, hence every resolution |
| Mounts.Namespace.constructor | seed/saios/src/saifs.rs:859-885 | starts with the root mount |
| Mounts.Namespace.ResolveMount | seed/saios/src/saifs.rs:450-470 | the loop finds the longest covering mount, none exactly when nothing covers |
| Mounts.Namespace.ResolvePath | seed/saios/src/saifs.rs:476-489 | every NUL-free path resolves, to its longest mount prefix, with parts that rejoin to the canonical path |
| Mounts.Namespace.Mount | seed/saios/src/saifs.rs:713-738 | adds exactly one mount with its event, or refuses with the exact error |
| Mounts.Namespace.Unmount | seed/saios/src/saifs.rs:740-764 | removes exactly the mount with its event; the root is refused |
| TmpFs.LookupIsExact | seed/saios/src/vfs.rs:202-216 | a lookup finds a node exactly when it is a live child of that name |
| TmpFs.WalkOwnPath | seed/saios/src/vfs.rs:218-248 | walking the names above an inode reaches it |
| TmpFs.ResolveOwnPath | seed/saios/src/vfs.rs:340-362 | resolving the path of a live inode gives the inode |
| TmpFs.PathsDiffer | seed/saios/src/vfs.rs:340-362 | different live inodes have different paths |
| TmpFs.NormalizedResolvesAlike | seed/saios/src/vfs.rs:364-390 | when a path resolves, its lexical normal form resolves to the same inode |
| TmpFs.NormalizedIdempotent | seed/saios/src/vfs.rs:364-390 | normalisation is idempotent |
| TmpFs.InsertKeepsTree | seed/saios/src/vfs.rs:280-307 | inserting under a directory keeps the inode graph a tree |
| TmpFs.EraseKeepsTree | seed/saios/src/vfs.rs:309-334 | removing a childless node keeps the inode graph a tree |
| TmpFs.MoveKeepsTreeExactlyWhen | seed/saios/src/vfs.rs:392-417 | rename keeps the tree exactly when the new parent is a directory outside the moved subtree |
| TmpFs.MoveIntoItself | seed/saios/src/vfs.rs:392-417 | a directory moved into itself breaks the tree |
| MemFs.CreatedResolves | seed/saios/src/vfs.rs:280-307 | a node created at a path is what the path then resolves to |
| MemFs.PartsOfJoin | seed/saios/src/vfs.rs:261-269 | joining and re-splitting the parent path changes nothing |
| MemFs.TmpFileSystem.constructor | seed/saios/src/vfs.rs:156-172 | a lone root directory is a tree |
| MemFs.TmpFileSystem.LookupChild | seed/saios/src/vfs.rs:202-216 | the loop computes the lookup |
| MemFs.TmpFileSystem.ResolvePath | seed/saios/src/vfs.rs:218-252 | the loop computes the walk; a result is live |
| MemFs.TmpFileSystem.ResolveParentAndName | seed/saios/src/vfs.rs:254-278 | parent and last name, with its exact errors |
| MemFs.TmpFileSystem.InsertNode | seed/saios/src/vfs.rs:280-307 | adds one node with a fresh inode, or refuses exactly |
| MemFs.TmpFileSystem.CreateNode | seed/saios/src/vfs.rs:476-480 | create and mkdir: success exactly under a directory with a free name; the path then resolves to the new inode |
| MemFs.TmpFileSystem.RemoveInode | seed/saios/src/vfs.rs:309-334 | refuses the root and non-empty directories, otherwise removes just that node |
| MemFs.TmpFileSystem.Remove | seed/saios/src/vfs.rs:512-515 | the same by path, with its exact failures |
| MemFs.TmpFileSystem.PathForInode | seed/saios/src/vfs.rs:340-362 | the climbing loop terminates and renders the path of a live inode |
| MemFs.TmpFileSystem.NormalizedPath | seed/saios/src/vfs.rs:364-390 | computes the lexical normal form from the current directory |
| MemFs.TmpFileSystem.RenamePath | seed/saios/src/vfs.rs:392-417 | moves one node and keeps kinds and data; the result is a tree exactly when the move is safe; refusals are exact |
| MemFs.TmpFileSystem.ChangeDirectory | seed/saios/src/vfs.rs:1017-1027 | moves to the resolved directory, or refuses exactly and stays |
| Descriptors.WriteIsExact | seed/saios/src/vfs.rs:437-455 | a write replaces exactly its slice and zero-fills a gap |
| Descriptors.ReadAfterWrite | seed/saios/src/vfs.rs:419-455 | reading back a written slice gives the written bytes |
| Descriptors.ReadsJoin | seed/saios/src/vfs.rs:419-435 | two consecutive reads are one longer read |
| Descriptors.ChunksAreOneRead | seed/saios/src/vfs.rs:848-864 | any sequence of chunk sizes reads what one read would |
| Descriptors.ReadUntilEmpty | seed/saios/src/vfs.rs:848-864 | reading until empty yields the file from the offset on |
| Descriptors.SeekStartExactlyWhen | seed/saios/src/vfs.rs:890-915 | seeking from the start clamps to the length exactly when the position is below 2^63 or the file is empty |
| Descriptors.FarSeekGoesBack | seed/saios/src/vfs.rs:890-915 | seeking a one-byte file to 2^63 goes to its start |
| Descriptors.TableStays | seed/saios/src/vfs.rs:606-614 | descriptors stay valid while files stay live |
| Descriptors.TableShrinks | seed/saios/src/vfs.rs:606-614 | invalidating a removed inode keeps every remaining descriptor on a live file |
| Descriptors.NothingToInvalidate | seed/saios/src/vfs.rs:978-995 | an unlink that will be refused has no descriptors to close |
| Descriptors.VfsState.constructor | seed/saios/src/vfs.rs:551-563 | no descriptor is open |
| Descriptors.VfsState.AllocFd | seed/saios/src/vfs.rs:565-578 | the lowest closed descriptor is used |
| Descriptors.VfsState.Close | seed/saios/src/vfs.rs:594-604 | closes exactly an open descriptor |
| Descriptors.VfsState.Read | seed/saios/src/vfs.rs:848-864 | returns the bytes at the offset and advances by their number |
| Descriptors.VfsState.Write | seed/saios/src/vfs.rs:868-887 | writes at the offset or the end, changes only that file, advances the offset |
| Descriptors.VfsState.Seek | seed/saios/src/vfs.rs:890-915 | sets the offset to the clamped target |
| Descriptors.VfsState.Open | seed/saios/src/vfs.rs:796-840 | succeeds exactly when allowed and the path is or becomes a file; the new descriptor was closed, names that file at the right offset, and others are untouched; a failed open leaves a new file behind only when asked to create and truncate without write access |
| Descriptors.PreparedResolves | seed/saios/src/vfs.rs:809-811 | opening a missing path with create reaches the new empty file |
| Descriptors.VfsState.Unlink | seed/saios/src/vfs.rs:978-995 | removes a childless node and closes exactly its descriptors, or changes nothing |
| Descriptors.VfsState.Mkdir | seed/saios/src/vfs.rs:713-728 | creates a directory exactly when possible |
| Descriptors.VfsState.Rename | seed/saios/src/vfs.rs:998-1014 | the exact condition for success and the moved node; descriptors keep naming live files whatever the move; the tree is kept exactly when the move is safe |
| Descriptors.VfsState.InvalidateInode | seed/saios/src/vfs.rs:606-614 | closes exactly the descriptors of one inode |
| StorageCodec.Le16RoundTrip | seed/saios/src/driver/storage.rs:258-260 | a 16-bit length reads back modulo 2^16 |
| StorageCodec.Le32RoundTrip | seed/saios/src/driver/storage.rs:262-269 | a 32-bit length reads back modulo 2^32 |
| StorageCodec.NodeRoundTrip | seed/saios/src/driver/storage.rs:552-562 | one record reads back, with the bytes after it untouched |
| StorageCodec.RoundTripExactlyWhen | seed/saios/src/driver/storage.rs:546-611 | a serialised tree followed by any bytes deserialises to itself exactly when every length fits its field |
| StorageCodec.CutTreeFails | seed/saios/src/driver/storage.rs:567-611 | a proper prefix of a serialised tree whose lengths fit never deserialises |
| StorageCodec.Serialize | seed/saios/src/driver/storage.rs:546-565 | the loop computes the serial form |
| StorageCodec.Deserialize | seed/saios/src/driver/storage.rs:567-611 | the cursor loop computes the parse, failing on the same inputs |
| StorageTree.NormalizePath | seed/saios/src/driver/storage.rs:375-397 | computes the normal form |
| StorageTree.IsChildMeansPrefix | seed/saios/src/driver/storage.rs:399-405 | containment is the prefix order on names |
| StorageTree.SplitParentMeansAbove | seed/saios/src/driver/storage.rs:407-420 | the parent is the path of all names but the last |
| StorageTree.ParentCheckMeans | seed/saios/src/driver/storage.rs:535-544 | the parent check passes exactly when the directory above is present |
| StorageTree.TreeMeans | seed/saios/src/driver/storage.rs:525-544 | being a tree is: unique paths, a root directory, and a passing parent check for every other node |
| StorageTree.CreateKeepsTree | seed/saios/src/driver/storage.rs:1275-1283 | adding a checked node keeps the tree |
| StorageTree.DeleteKeepsTree | seed/saios/src/driver/storage.rs:1354-1370 | removing a file or an empty directory keeps the tree |
| StorageTree.RenameMoves | seed/saios/src/driver/storage.rs:1409-1422 | a safe rename moves every node at old+s to new+s with the same kind and data and touches nothing else |
| StorageTree.RenameKeepsTreeExactlyWhen | seed/saios/src/driver/storage.rs:1404-1422 | a rename that passes the checks keeps the tree exactly when the source is not the root and does not contain the destination |
| StorageTree.RenameIntoItself | seed/saios/src/driver/storage.rs:1379-1431 | /a renamed to /a/b passes every check and breaks the tree |
| MountedTree.MountedFs.Create | seed/saios/src/driver/storage.rs:1256-1331 | create and mkdir: one node appended, or the exact refusal; keeps the tree |
| MountedTree.MountedFs.Write | seed/saios/src/driver/storage.rs:1476-1492 | replaces one file, creating it when missing, or the exact refusal; keeps the tree |
| MountedTree.WrittenIsFound | seed/saios/src/driver/storage.rs:1476-1492 | after a write the path has a file with exactly that data, and every other path has what it had |
| MountedTree.MountedFs.AnyBelow | seed/saios/src/driver/storage.rs:1361-1368 | the search finds a node below a directory exactly when there is one |
| MountedTree.MountedFs.Delete | seed/saios/src/driver/storage.rs:1332-1370 | removes one node, or the exact refusal; keeps the tree |
| MountedTree.MountedFs.RelabelAll | seed/saios/src/driver/storage.rs:1416-1422 | the loop relabels every node below the source |
| MountedTree.MountedFs.Rename | seed/saios/src/driver/storage.rs:1404-1422 | the exact refusals, the relabelled list, and when it is still a tree |
| BlockDevices.BlockDevice.ReadSector | seed/saios/src/driver/storage.rs:135-151 | the bytes of a sector, with exact bounds |
| BlockDevices.BlockDevice.WriteSector | seed/saios/src/driver/storage.rs:153-170 | changes exactly the bytes of one sector, or nothing |
| BlockDevices.BlockDevice.ReadPartition | seed/saios/src/driver/storage.rs:644-658 | all bytes of the partition, exactly when it lies in the device; otherwise the exact fault |
| BlockDevices.BlockDevice.WritePartition | seed/saios/src/driver/storage.rs:613-642 | succeeds exactly when the partition lies in the device and the data fits; then it holds the data and zeros; data that is too long has replaced the whole partition by its first bytes; no byte outside ever changes |
| BlockDevices.FaultAt | seed/saios/src/driver/storage.rs:135-170 | the first sector that cannot be reached decides the error of both loops |
| StorageVolume.ResolveVolumeOwner | seed/saios/src/driver/storage.rs:685-697 | the first partition of that name, ignoring ASCII case |
| StorageVolume.FindVolume | seed/saios/src/driver/storage.rs:699-710 | with disk names that differ: succeeds exactly when some partition has the name, and gives the first such partition on its own disk |
| StorageVolume.LocateFinds | seed/saios/src/driver/storage.rs:685-710 | the lookup by the names of the owner never misses the disk, and with disk names that differ finds the owner itself |
| StorageVolume.DefaultIsTree | seed/saios/src/driver/storage.rs:422-465 | the default volume is a tree |
| StorageVolume.SavedLoads | seed/saios/src/driver/storage.rs:660-714 | a saved tree, padded with zeros, loads as itself exactly when its lengths fit |
| StorageVolume.StorageState.Load | seed/saios/src/driver/storage.rs:699-714 | the tree stored in the partition, or the default when it does not parse; the exact error otherwise |
| StorageVolume.StorageState.Save | seed/saios/src/driver/storage.rs:660-683 | answers Ok exactly when the volume is mounted, found, in its device and the serialised tree has room, the exact error otherwise; what the partition then holds; no byte outside it changes |
| StorageVolume.SaveLoadsExactlyWhen | seed/saios/src/driver/storage.rs:660-714 | a save with room loads as the saved tree exactly when its lengths fit |
| StorageVolume.LongPathIsLost | seed/saios/src/driver/storage.rs:557-559 | a file with a path of 65536 bytes can be created in a volume with just its root, is stored, and does not come back |
| StorageVolume.SaveAgreesExactlyWhen | seed/saios/src/driver/storage.rs:613-714 | memory and disk agree after a save exactly when the tree has room or is the default tree; without room loading gives the default tree |
| StorageVolume.FullPartitionLosesTree | seed/saios/src/driver/storage.rs:613-642 | in every partition below 4 GiB that stores just the root: writing /a with as many bytes as the partition holds answers out of space, and loading then gives the default tree |
| StorageVolume.OtherVolumeKept | seed/saios/src/driver/storage.rs:613-642 | a save leaves every volume on other bytes as it was |
| StorageVolume.CarriedMeans | seed/saios/src/driver/storage.rs:1256-1499 | an operation that passed its checks answers Ok exactly when the new tree has room, and what loading then gives |
| StorageVolume.StorageState.EnsureMounted | seed/saios/src/driver/storage.rs:998-1025 | mounts the loaded tree once, with the exact error of loading; what operations see of other volumes does not change |
| StorageVolume.StorageState.FsCreate | seed/saios/src/driver/storage.rs:1256-1331 | create and mkdir with the save: the refusal of the tree, or the new tree in memory and the exact answer of the save; keeps the tree; other bytes and other volumes are untouched |
| StorageVolume.StorageState.FsWrite | seed/saios/src/driver/storage.rs:1457-1499 | write with the save: the refusal of the tree, or the new tree in memory and the exact answer of the save; keeps the tree; other bytes and other volumes are untouched |
| StorageVolume.StorageState.FsDelete | seed/saios/src/driver/storage.rs:1332-1377 | the root is refused before the volume is looked at; otherwise delete with the save: the refusal of the tree, or the new tree in memory and the exact answer of the save; keeps the tree; other bytes and other volumes are untouched |
| StorageVolume.StorageState.FsRename | seed/saios/src/driver/storage.rs:1379-1431 | rename with the save: as the others; the tree is kept exactly when the rename is safe |

## Left out

- Boot loader, ACPI, PCI, USB, serial, timer and interrupt-controller code, CPUID and MSRs: hardware access.
- `invlpg`, CR3 loading, recursive-slot pointers and the context switch: only table contents and scheduler records are modelled.
- Spin locks and interleaving inside an operation: each operation is one step.
- Bootstrap identity and huge-page mappings: taken as the given base translation.
- Console, framebuffer, fonts, pixel formats, shell commands and their text: user interface.
- Network, DHCP, DNS, Wi-Fi, object manager, providers, events, timelines: records and strings, easy members only.
- Partition probing, MBR and GPT parsing, formatting, mount-path lookup of storage volumes, read-only volumes: the storage operations take the volume and the normalised path inside it.
- VFS dispatch to storage volumes and the contents of `/sys`: the descriptor layer is restricted to the in-memory file system, with the read-only test for `/sys` paths kept.
- Directory listings, `cat`, `touch`, `pwd` and log lines: they would only add easy members.
- Stopping and restarting services: stopping ignores dependents, so the start-up invariant is not meant to survive it.
- Trimming of the namespace's event list, subscriptions, handles and provider objects.
- Thread stacks, priorities and tick statistics other than the counters the steps read.
- The dirty flag's use by `flush`, and `dealloc` of the heap, which does nothing.
- LineDrawing.Surface.DrawLine: coordinates are taken within 2^60 of zero, because beyond that the differences and the doubled error term overflow or saturate.
- Descriptors.VfsState.Seek: takes offsets to be 64-bit and files shorter than 2^63 bytes, as the source's types guarantee.
- Descriptors.VfsState.AllocFd: does not model the cast of the slot number to 32 bits, which needs four billion open files.
- VirtMem.Vmm.Map: stated for ranges free of huge pages and of the recursive slot; the source reads such entries as tables.
- VirtMem.Vmm.MapOwned: takes from the caller that the frames are the caller's own, because the page allocator cannot tell an allocated page from a reserved one.
- KernelHeap.Heap.Alloc: other users of the page allocator are taken not to free the heap's pages.
- LineDrawing.Surface.Plot: the same limit on coordinates.
- StorageVolume.SaveLoadsExactlyWhen: the round trip is stated for UTF-8 paths, which the source's string type guarantees.
