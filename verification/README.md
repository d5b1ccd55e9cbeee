# Verified models of the vkernel core

vkernel is a UEFI microkernel written in C++. This project models the parts of it whose
correctness is hardest to see from the code, and proves what they promise for every input, every
run or every reachable state.

| modules | subsystem |
|---|---|
| SchedulerModel, SchedulerProofs, SchedulerSleep, SchedulerTasks, Scheduler | SMP scheduler: one step per section under the scheduler lock |
| PhysMemory, PhysMemoryProofs, PhysBoot, PhysCounters, PhysAllocator | first-fit physical page allocator over a pooled region list, and its page counter |
| HeapModel, HeapProofs, HeapMerging, HeapSizes, KernelHeap | kernel heap: splitting, aligned carving, coalescing, subheaps |
| PageTableModel, PageTableProofs, PageTableAccess, PageTables | four-level page tables refining a flat page map |
| ProcessModel, ProcessProofs, ProcessRuns, ProcessStray, ProcessPages, ProcessMemory | brk, mmap, munmap and mprotect bookkeeping |
| FatModel, FatProofs | FAT32 cluster allocator and chains |
| FatNames, FatDirectory, FatUpdate, FatRemove, FatCreate, FatFormat | FAT32 names and directory slots: scan, creation, rewriting, removal |
| FatSlots, FatOwners, FatFiles, FatOps, FatHistory, FatCounts, FatSpace | whole volumes: directories and files on their chains, write_file and remove_file, their runs |
| FatDisk, FatLayout, FatRuns, FatVolume | FAT32 on sectors: FAT copies, 8-sector cache, runs, descriptors |
| FatScan, FatDriver | directory walks, write_file and remove_file on the sectors |
| StreamModel, Streams | buffered streams |
| Machine, Alignment, Regions, Bytes, Wrappers | shared definitions |

Each subsystem has the same shape. A model module gives the state as a value and every operation
as a function. A proof module shows what each operation and each run keeps. A class does the work
in place, with the loops of the source, and its methods are proved equal to those functions, so
what is proved about the functions holds of the class. For FAT32 the class is FatVolume.Volume,
and FatDriver.WriteFile and FatDriver.RemoveFile are proved equal to FatHistory.Step while the
device makes no error. There is no separate table of files: which files exist, where they start
and how long they are is what the directory scan reads from the slots on the volume.

Concurrency is modelled as interleaving: a section under a lock is one step. Devices, firmware
and other subsystems appear as parameters or as free choices: a device request in range may fail
and then changes nothing (unless the volume is `reliable`), the page allocator's answer to a
process is the `Grant` of a call, the order in which CPUs act is the run itself.

Places where the obvious statement is false of the code carry the exact condition instead:

- `sleep` of a task that another CPU has terminated (SleepKeepsInvExactlyWhenAlive,
  SleepAfterTerminateWitness)
- allocate then free of physical pages (AllocThenFree, AllocThenFreeWitness)
- the page counter of the physical allocator as a count of the free memory
  (CounterRightAfterBoot, StepDrift, RunStaysRight, FreeCountWitness)
- a heap free merges with the free blocks it touches: an exactly aligned fit leaves a block whose
  back pointer names itself, kept in `orphans` by the model, and freeing it skips the backward
  merge (UnmergedWitness, FreeIsSplice, StepMerged, RunMerged)
- heap requests within 16 bytes of 2^64 (RoundedHoldsRequest), and aligned requests whose end
  wraps to an address inside the block (FindIn64, AlignedFitIsReal, HandsOutDonated)
- `munmap` of a heap record (MunmapKeepsExactly, HeapHoleWitness)
- the free of an interior address on a partial shrink (ShrinkReleasesExactly)
- a mapping that stops halfway and leaves pages behind (StepStray, RunStray, StrayWitness)
- mappings of 2^32 pages and more (MmapKeepsExactly, CutCountWitness)
- closing a stream that was opened for truncation (CloseStores, TruncatingOpenWitness)
- mixed-case and trailing-dot 8.3 names (ShortRoundTrip, ShortNameWitness), non-ASCII long names
  (LongRoundTrip, LongNameWitness)
- a failed write_file keeps the old contents (StepSucceeds, FailedWriteEmpties)
- short names that another system stored with small letters (CaseChange, MixedStoredName)
- distinct short names in a directory (CreateKeepsAliases, ClashingNames)
- files of 4 GiB and more (OverwriteContents, CreateContents)

`dafny verify dfyconfig.toml` checks the whole project.

## Model

| member | source | states |
|---|---|---|
| SchedulerProofs.NoTaskOnTwoCpus | src/core/scheduler.cpp:616-706 | In every interleaving of create, start, preempt, yield, sleep of a task that is not terminated, terminate, exit and detach from boot: no task is current on two CPUs, the per-CPU table and current_cpu agree both ways, a live on-CPU task has that CPU as its affinity, and the slot the next create would reuse is on no CPU |
| SchedulerProofs.StepKeepsInv | src/core/scheduler.cpp:521-1013 | Each locked section keeps the invariant behind that statement |
| SchedulerProofs.RunKeepsInv | src/core/scheduler.cpp:521-1013 | So does every run of them |
| SchedulerProofs.SleepKeepsInvExactlyWhenAlive | src/core/scheduler.cpp:910-927 | sleep ignores the task state: it keeps the invariant if and only if the current task has not been terminated by another CPU |
| SchedulerProofs.SleepAfterTerminateDuplicates | src/core/scheduler.cpp:910-927 | For a terminated caller, one sleep and one boot-CPU tick put the same task on both CPUs |
| SchedulerProofs.SleepAfterTerminateWitness | src/core/scheduler.cpp:910-927 | A run of five steps from boot reaches a state in which that happens |
| SchedulerProofs.ScanFindsNearest | src/core/scheduler.cpp:399-427 | The cyclic scan returns the runnable task at the smallest cyclic distance |
| SchedulerProofs.PreemptApproaches | src/core/scheduler.cpp:616-706 | A preemption dispatches a waiting ready task or strictly lowers its cyclic distance |
| SchedulerProofs.ReadyTaskIsDispatched | src/core/scheduler.cpp:377-427 | A task that stays ready and eligible for a CPU is dispatched there within as many preemptions of that CPU as its distance, whatever other CPUs do |
| SchedulerProofs.DispatchedWithinOneRound | src/core/scheduler.cpp:377-427 | With n tasks, n - 1 preemptions are always enough |
| SchedulerProofs.StepConservesTicks | src/core/scheduler.cpp:280-293 | If task 0 neither blocks nor exits, the boot CPU always has a current task, and each step moves ticks from the running slice to the account of the outgoing task |
| SchedulerProofs.TicksAreConserved | src/core/scheduler.cpp:616-706 | Over every run, charged boot-CPU ticks plus the running slice equal the ticks that went by |
| SchedulerProofs.TicksSinceStart | src/core/scheduler.cpp:717-749 | The same counted from start(), where the slice is empty |
| SchedulerSleep.SleepLasts | src/core/scheduler.cpp:910-927 | A task that calls sleep(n) at tick t is blocked, neither ready nor running, before tick t + n in every run, whatever the other steps are, unless it is ended; and once its CPU was preempted it is current on none |
| SchedulerSleep.SleepEndsOnTime | src/core/scheduler.cpp:369-375 | The preemption of any CPU that finds tick t + n reached makes it ready, or dispatches it |
| SchedulerSleep.WakesExactly | src/core/scheduler.cpp:369-375 | A preemption wakes a sleeper if and only if its tick has come, and takes it off the CPU it slept on |
| SchedulerSleep.EndedForGood | src/core/scheduler.cpp:948-1013 | A task that has ended never becomes ready or running again under its id, in any run |
| SchedulerSleep.TerminateEnds | src/core/scheduler.cpp:948-986 | terminate_task ends exactly the task with that id and changes no other; task 0 it leaves alone |
| SchedulerSleep.ExitEnds | src/core/scheduler.cpp:988-1013 | exit and detach end exactly the current task of the CPU |
| SchedulerSleep.EndedLeavesCpu | src/core/scheduler.cpp:616-706 | The next preemption of a CPU puts no ended task on it |
| SchedulerTasks.CreateAdds | src/core/scheduler.cpp:521-576 | create_task puts one ready task with the next id, its name and data, and no CPU into a slot that was free; only tasks created after start may use other CPUs; no other task changes |
| SchedulerTasks.PlacementHolds | src/core/scheduler.cpp:377-397 | In every run from boot task 0 is current on the boot CPU only, and another task elsewhere only if it may use other CPUs |
| SchedulerTasks.NeverMigrates | src/core/scheduler.cpp:295-299 | A task that has run on a CPU never runs on another, in any run, until it ends |
| SchedulerTasks.BootCpuStays | src/core/scheduler.cpp:492-519 | The boot CPU stays the one of init, and a started scheduler stays active |
| SchedulerTasks.ChargedExactly | src/core/scheduler.cpp:280-293 | On every CPU a preemption charges the task it takes off exactly the ticks since it was put on, or one for a timer tick of another CPU that saw none; nobody else is charged |
| SchedulerTasks.StartPicksFirst | src/core/scheduler.cpp:717-749 | start() dispatches the first ready task behind task 0, or task 0 if there is none |
| SchedulerTasks.PicksWheneverPossible | src/core/scheduler.cpp:399-427 | A CPU is given a task if and only if some task is ready and allowed there; task 0 only if no other is |
| SchedulerModel.FreeSlot | src/core/scheduler.cpp:70-83 | The first slot that is terminated and on no CPU, else a fresh one, else none |
| SchedulerModel.PickNext | src/core/scheduler.cpp:399-427 | Whatever is picked is ready and eligible for the CPU |
| Scheduler.TaskTable.constructor | src/core/scheduler.cpp:492-519 | init leaves the empty initial state |
| Scheduler.TaskTable.FindAvailableTaskSlot | src/core/scheduler.cpp:70-83 | The loop finds FreeSlot |
| Scheduler.TaskTable.WakeSleepingTasks | src/core/scheduler.cpp:369-375 | Exactly the blocked tasks whose wake tick has come become ready |
| Scheduler.TaskTable.PickNextTask | src/core/scheduler.cpp:399-427 | The in-place search is PickNext |
| Scheduler.TaskTable.CreateTask | src/core/scheduler.cpp:521-576 | Whole new state as the create step; -1 exactly when no slot is free or the name is too long, else the next id |
| Scheduler.TaskTable.Start | src/core/scheduler.cpp:717-749 | Whole new state as the start step |
| Scheduler.TaskTable.SaveCurrent | src/core/scheduler.cpp:616-706 | Accounting and taking off the outgoing task |
| Scheduler.TaskTable.SwitchTo | src/core/scheduler.cpp:616-706 | Choice and dispatch of the incoming task |
| Scheduler.TaskTable.Preempt | src/core/scheduler.cpp:616-706 | Whole new state as the preempt step |
| Scheduler.TaskTable.Sleep | src/core/scheduler.cpp:910-927 | Whole new state as the sleep step, whatever the state of the current task; the invariant is kept if and only if that task is not terminated |
| Scheduler.TaskTable.TerminateTask | src/core/scheduler.cpp:948-986 | Whole new state as the terminate step; found exactly for a live id other than task 0 |
| Scheduler.TaskTable.ExitTask | src/core/scheduler.cpp:988-999 | Whole new state as the exit step |
| Scheduler.TaskTable.DetachCurrentTask | src/core/scheduler.cpp:1001-1013 | Whole new state as the detach step, and the user data handed back |
| PhysMemoryProofs.EveryRunIsSafe | src/core/memory.cpp:182-345 | From boot and over every run of allocate and free: the region list is sorted and disjoint, live blocks are nonzero, page-aligned, inside the memory that was free at boot, and never overlap |
| PhysMemoryProofs.InitEstablishes | src/core/memory.cpp:182-236 | The list built from the memory map satisfies the invariant with nothing in use |
| PhysBoot.BootCovers | src/core/memory.cpp:182-236 | The list covers only conventional and boot-services memory of the map off page 0, and all of it unless there are more such entries than list nodes |
| PhysBoot.BootTotal | src/core/memory.cpp:182-236 | total_pages_ counts all pages of the map, whatever their kind, while list nodes last |
| PhysBoot.LiveIsUsable | src/core/memory.cpp:182-345 | Every byte ever handed out is of such an entry, and held once |
| PhysBoot.AllocExactly | src/core/memory.cpp:239-306 | allocate_pages succeeds if and only if some free region has an aligned stretch of the asked size under the ceiling, off its start only with a spare node |
| PhysMemoryProofs.AllocKeepsInv | src/core/memory.cpp:239-306 | Allocation keeps the list sorted, disjoint and inside the boot memory, with region nodes from the pool |
| PhysMemoryProofs.AllocResult | src/core/memory.cpp:239-306 | Failure if and only if no region fits; success is aligned, below the ceiling, inside one free region, and changes nothing on failure |
| PhysMemoryProofs.AllocKeepsLive | src/core/memory.cpp:239-306 | The result was not live and joins the live blocks; no other live block changes |
| PhysMemoryProofs.FreeKeepsInv | src/core/memory.cpp:309-345 | Free with merging on both sides keeps the invariant |
| PhysMemoryProofs.FreeKeepsLive | src/core/memory.cpp:309-345 | Free removes exactly the block starting at the address; an interior address is ignored |
| PhysMemoryProofs.RunKeeps | src/core/memory.cpp:182-345 | Both hold over every run |
| PhysMemoryProofs.CountersConserved | src/core/memory.cpp:230-345 | used_pages + free_pages is constant over every run as a 64-bit word |
| PhysCounters.CounterRightAfterBoot | src/core/memory.cpp:182-236 | After boot free_pages_ counts exactly the free memory of the list if and only if no free map entry of more than one page starts at page 0 |
| PhysCounters.PageZeroWitness | src/core/memory.cpp:182-236 | A map of two free pages at address 0 loads with a counter of two and one page on the list |
| PhysCounters.FreeCountWitness | src/core/memory.cpp:309-345 | A block of two pages given back with a count of one leaves a counter of one and two free pages |
| PhysCounters.RefusedTailWitness | src/core/memory.cpp:239-306 | With every list node in use, a request of one page takes a block of two |
| PhysCounters.AllocDrift | src/core/memory.cpp:239-306 | An allocation moves the counter away from the free memory by exactly the pages of a tail for which no node was left |
| PhysCounters.FreeDrift | src/core/memory.cpp:309-345 | A free moves it by exactly the difference between its page count and the size of the region |
| PhysCounters.StepDrift | src/core/memory.cpp:239-345 | A call changes the distance between counter and free memory if and only if it is one of those two |
| PhysCounters.RunStaysRight | src/core/memory.cpp:239-345 | A right counter stays right throughout a run if and only if no call of the run is one of those two |
| PhysMemoryProofs.AllocThenFree | src/core/memory.cpp:117-345 | Allocate then free restores the exact region list if and only if no tail node was refused and no free neighbour touched the piece |
| PhysMemoryProofs.AllocThenFreeWitness | src/core/memory.cpp:239-345 | Two touching free pages of the memory map are one region after allocating and freeing the first |
| PhysAllocator.Allocator.constructor | src/core/memory.cpp:182-236 | init builds that list |
| PhysAllocator.Allocator.TakeAt | src/core/memory.cpp:255-300 | Split of one region into prefix, used part and tail, with the node pool limit |
| PhysAllocator.Allocator.AllocatePages | src/core/memory.cpp:239-306 | First fit in place, equal to Alloc; aligned and below the ceiling |
| PhysAllocator.Allocator.ReleaseAt | src/core/memory.cpp:316-340 | Mark free and merge in place |
| PhysAllocator.Allocator.FreePages | src/core/memory.cpp:309-345 | Free in place, equal to Free |
| HeapProofs.EveryRunIsSafe | src/core/memory.cpp:348-694 | In every run of init, add_region, allocate, allocate_zero_aligned and free of live pointers in which no aligned fit has a wrapped end: the forward list is ascending and tiles the donated memory, sizes plus headers sum to the donated total, client bytes are donated memory, held once, and contain no header |
| HeapProofs.StepKeeps | src/core/memory.cpp:348-694 | Each operation keeps the system invariant |
| HeapProofs.RunKeeps | src/core/memory.cpp:348-694 | So does every run |
| HeapProofs.PlainKeeps | src/core/memory.cpp:506-561 | allocate: splitting keeps the tiling and adds exactly the returned block to the live ones |
| HeapProofs.AlignedKeeps | src/core/memory.cpp:571-658 | allocate_zero_aligned: prefix, used part and suffix keep the tiling |
| HeapProofs.FreeKeeps | src/core/memory.cpp:660-694 | free: coalescing keeps the tiling and removes exactly that block |
| HeapProofs.AddRegionKeeps | src/core/memory.cpp:368-429 | add_region: ordered insertion and merging keep the tiling |
| HeapProofs.RoundedHoldsRequest | src/core/memory.cpp:506-516 | Rounding to 16 bytes holds the request if and only if the 64-bit sum does not wrap |
| HeapProofs.AlignedResult | src/core/memory.cpp:571-658 | The pointer is a multiple of the alignment and blocks stay 16-byte aligned |
| HeapProofs.RunKeepsAligned16 | src/core/memory.cpp:348-694 | With 16-byte aligned donations every block, so every pointer, stays 16-byte aligned over every run |
| HeapProofs.ExpansionSuffices | src/core/memory.cpp:431-504 | After an expansion by the computed size the retried request always fits, plain or aligned, whatever the heap looked like |
| HeapProofs.HoldsIn64 | src/core/memory.cpp:60-115 | A block passes the 64-bit fit test if and only if it holds the request or the computed end wraps to an address inside it, never both |
| HeapProofs.FindIn64 | src/core/memory.cpp:60-115 | The 64-bit search finds the block and address of the unbounded one if and only if the end of what it finds does not wrap |
| HeapProofs.AlignedFitIsReal | src/core/memory.cpp:60-115 | What the search returns lies inside its block if and only if its end does not wrap |
| HeapProofs.SmallRequestsAreReal | src/core/memory.cpp:60-115 | Sizes and alignments under 2^62 never wrap |
| HeapProofs.BogusFitWitness | src/core/memory.cpp:60-115 | A request of 2^64 - 8192 bytes passes the test on a free block of 8192 |
| HeapProofs.HandsOutDonated | src/core/memory.cpp:571-658 | The bytes an aligned fit would hand out are all donated memory if and only if their end does not wrap |
| HeapMerging.FreeIsSplice | src/core/memory.cpp:660-694 | A free, on any list, joins the block with the next one if that is free and touched, and with the previous one if that is free and touched and the back pointer does not name the block itself, into one block of exactly their span |
| HeapMerging.StepMerged | src/core/memory.cpp:348-694 | On a heap without two touching free neighbours, a call leaves none if and only if it is not the free of a block whose back pointer names itself, behind a free block that it touches |
| HeapMerging.RunMerged | src/core/memory.cpp:348-694 | A heap stays merged throughout a run if and only if no free of the run is such a one |
| HeapMerging.PlainRunsStayMerged | src/core/memory.cpp:506-694 | No run without requests aligned to more than 16 bytes has such a free |
| HeapMerging.AllMemoryReturns | src/core/memory.cpp:660-694 | In a merged heap of which nothing is held, every block is free and ends on both sides exactly where the donated memory does |
| HeapMerging.RunReturnsAllMemory | src/core/memory.cpp:348-694 | So it does after every run from boot without such a free, once all blocks are given back |
| HeapMerging.UnmergedWitness | src/core/memory.cpp:590-634 | A run of five calls from boot ends with two free, touching, unmerged blocks |
| HeapSizes.PlainExactly | src/core/memory.cpp:506-561 | allocate succeeds if and only if a free block holds the rounded request and a header; the block it takes exceeds both by at most 48 bytes |
| HeapSizes.AlignedExactly | src/core/memory.cpp:571-658 | allocate_zero_aligned succeeds if and only if some free block has an aligned place at its front or behind a prefix of at least 48 bytes; the same bound |
| HeapSizes.HoldsIsPlace | src/core/memory.cpp:60-115 | The search finds the least such place |
| HeapSizes.RoundedIs | src/core/memory.cpp:506-516 | Requests are rounded up to the next multiple of 16 |
| HeapSizes.PlainTakes | src/core/memory.cpp:506-561 | The first free block that is large enough is cut exactly when more than 48 bytes would be left over |
| HeapSizes.AlignedPieces | src/core/memory.cpp:590-634 | The pieces of an aligned cut: a free prefix, the data with its header, and what is left over 48 bytes |
| HeapSizes.GrowExactly | src/core/memory.cpp:431-504 | A new subheap has twice the request with header and alignment, in whole pages, at least a megabyte; refused exactly from 2^32 pages on |
| HeapModel.FindBlock | src/core/memory.cpp:51-58 | First free block that is large enough |
| HeapModel.FindAligned | src/core/memory.cpp:60-115 | First free block with an aligned fit |
| KernelHeap.KernelHeap.FindHeapBlock | src/core/memory.cpp:51-58 | The pointer walk finds FindBlock |
| KernelHeap.KernelHeap.TakeFront | src/core/memory.cpp:518-535 | Header writes of a split |
| KernelHeap.KernelHeap.TryAllocate | src/core/memory.cpp:506-561 | Linked list in memory represents the model after allocation |
| KernelHeap.KernelHeap.MergeForward | src/core/memory.cpp:673-681 | Absorbs the next block when free and adjacent |
| KernelHeap.KernelHeap.MergeBackward | src/core/memory.cpp:683-691 | Absorbs into the block the back pointer names, which is the predecessor or the block itself |
| KernelHeap.KernelHeap.Coalesce | src/core/memory.cpp:660-694 | Both merges in order |
| KernelHeap.KernelHeap.Free | src/core/memory.cpp:660-694 | Linked list represents the model after free |
| KernelHeap.KernelHeap.AlignedCandidate | src/core/memory.cpp:60-115 | Fit test in one block, its sums modulo 2^64 |
| KernelHeap.KernelHeap.FindAlignedBlock | src/core/memory.cpp:60-115 | The pointer walk finds FindAligned64 |
| KernelHeap.KernelHeap.CutAligned | src/core/memory.cpp:590-634 | Header writes of an aligned cut, including the block whose back pointer names itself |
| KernelHeap.KernelHeap.TryAllocateAligned | src/core/memory.cpp:571-658 | Linked list represents the model after an aligned allocation |
| KernelHeap.KernelHeap.InsertBlock | src/core/memory.cpp:381-401 | Ordered insertion into the linked list |
| KernelHeap.KernelHeap.AddMemory | src/core/memory.cpp:368-429 | Insertion and merges; total_bytes_ stays the sum of all donations |
| KernelHeap.KernelHeap.Allocate | src/core/memory.cpp:506-561 | With the expansion: fails exactly when nothing fits and no memory can be added |
| PageTableProofs.RunRefines | src/core/virtual_memory.cpp:116-368 | In every run of create, map, unmap and destroy the four-level tables are exactly a flat map from (space, page) to frame, writable, user and executable, and table pages in use plus free pages are constant |
| PageTableProofs.AllPagesReturn | src/core/virtual_memory.cpp:48-174 | Once every address space is destroyed, exactly the table pages taken are free again |
| PageTableProofs.StepRefines | src/core/virtual_memory.cpp:116-368 | Each operation is its flat counterpart and neither makes nor loses a page |
| PageTableProofs.MapPageRefines | src/core/virtual_memory.cpp:267-312 | A successful map changes exactly one page of one space; a failed map changes no translation; it succeeds when table pages are granted |
| PageTableProofs.UnmapPageRefines | src/core/virtual_memory.cpp:334-368 | Unmapping clears exactly that page and frees no table |
| PageTableProofs.CreateRefines | src/core/virtual_memory.cpp:116-150 | A new space maps nothing in the user slots and disturbs no other |
| PageTableProofs.DestroyRefines | src/core/virtual_memory.cpp:152-174 | Destroy frees each table page of the space once, no leaf frame, and disturbs no other space |
| PageTableProofs.ResolveIsTranslate | src/core/virtual_memory.cpp:196-265 | debug_resolve on user addresses is the flat lookup plus the page offset |
| PageTableAccess.ProcessorSeesFlatMap | src/core/virtual_memory.cpp:61-312 | In every run from boot the processor, which needs the writable and user bits on all four levels and no execute-disable bit on any, reaches on each user page exactly the frame mapped there, with exactly the rights asked for |
| PageTableAccess.GrantsIsMeaning | src/core/virtual_memory.cpp:61-76 | The upper entries hold nothing back: the leaf entry alone decides |
| PageTableAccess.EnsureNextOpen | src/core/virtual_memory.cpp:61-76 | ensure_next_table keeps upper entries writable and executable, and opens them to the user where an entry below is |
| PageTableAccess.ResolveAfterMap | src/core/virtual_memory.cpp:196-312 | After a successful map_page every byte of the page resolves to its byte of the frame, with the asked writable, user and execute-disable bits |
| PageTableAccess.IndicesOfParts | src/core/virtual_memory.cpp:283-286 | An address put together from four indices and an offset has those indices |
| PageTableAccess.RunShares | src/core/virtual_memory.cpp:116-150 | In every run all address spaces keep the kernel's entries in all slots but the user ones |
| PageTableAccess.UserSlotsExactly | src/core/virtual_memory.cpp:20-21 | The user slots of the top level are exactly those of the user addresses |
| PageTableAccess.ResolveGigabyte | src/core/virtual_memory.cpp:196-265 | Under a present entry of the third level marked huge every address resolves to its byte of the gigabyte |
| PageTableAccess.ResolveTwoMegabytes | src/core/virtual_memory.cpp:196-265 | The same for two megabytes at the second level |
| PageTableAccess.LargePageRefused | src/core/virtual_memory.cpp:61-76 | ensure_next_table takes no step into a large page and changes nothing |
| PageTableProofs.PlaceUnique | src/core/virtual_memory.cpp:61-76 | Each place of a tree, given by space and index path, is held by one table page only |
| PageTables.PageTables.FreePageTableTree | src/core/virtual_memory.cpp:78-101 | Every table below the page is freed exactly once, no mapped frame is, and all entries are cleared |
| PageTables.PageTables.DestroyAddressSpace | src/core/virtual_memory.cpp:152-174 | In-place destroy is Destroy |
| PageTables.PageTables.AllocTablePage | src/core/virtual_memory.cpp:48-59 | A free page, zeroed, or 0 and no change |
| PageTables.PageTables.EnsureNextTable | src/core/virtual_memory.cpp:61-76 | Existing, new or refused next table |
| PageTables.PageTables.CreateAddressSpace | src/core/virtual_memory.cpp:116-150 | In-place create is Create |
| PageTables.PageTables.MapPage | src/core/virtual_memory.cpp:267-312 | Success: exactly that page changes, to an entry with the given frame and flags, and all its bytes resolve to the frame; failure: no translation changes |
| PageTables.PageTables.MapContiguous | src/core/virtual_memory.cpp:314-332 | A prefix of the range is mapped in order to consecutive frames with the flags; all of it exactly on success |
| PageTables.PageTables.LeafTable | src/core/virtual_memory.cpp:345-361 | The walk to the last-level table |
| PageTables.PageTables.UnmapRange | src/core/virtual_memory.cpp:334-368 | Exactly the pages of the range are cleared |
| ProcessRuns.EveryRunIsSafe | src/core/kernel_api.cpp:471-622 | For every run of brk, mmap, munmap (at or above the mmap base) and mprotect from a fresh process: the invariant of RunKeeps, no two tracked pages share a frame, and the frames held are exactly those of live records |
| ProcessRuns.RunKeeps | src/core/kernel_api.cpp:391-622 | Heap records tile [brk_base, brk_mapped_end), brk_mapped_end is the page-rounded break, every record is mapped page by page to its own frames, records and frame blocks are disjoint |
| ProcessRuns.StepKeeps | src/core/kernel_api.cpp:391-622 | Each call keeps that invariant, failures of every kind included |
| ProcessRuns.BrkKeeps | src/core/kernel_api.cpp:471-561 | brk is refused exactly for a break outside the heap range, never for a missing record; after success the break is the requested one; a failure changes no bookkeeping |
| ProcessProofs.ShrinkKeeps | src/core/kernel_api.cpp:506-557 | The shrink loop always finds its record and ends exactly at the desired end |
| ProcessProofs.ShrinkReleasesExactly | src/core/kernel_api.cpp:532-556 | A round of the shrink loop gives frames back if and only if it drops the whole record |
| ProcessProofs.InteriorNotHeld | src/core/kernel_api.cpp:545-556 | The address a partial shrink frees is inside a block, so nothing is released |
| ProcessRuns.HeapIsMapped | src/core/kernel_api.cpp:471-561 | Every byte below the break is mapped |
| ProcessRuns.MmapKeeps | src/core/kernel_api.cpp:581-622 | A new mapping is page-aligned, in the mmap area, below the limit and disjoint from every live record |
| ProcessRuns.MmapKeepsExactly | src/core/virtual_memory.cpp:370-419 | A successful mmap keeps the invariant if and only if it is for fewer than 2^32 pages, since the page count is cut to 32 bits |
| ProcessRuns.CutCountWitness | src/core/virtual_memory.cpp:370-419 | 2^32 + 1 pages are mapped over a block of one page |
| ProcessRuns.FindBaseIsFirst | src/core/kernel_api.cpp:597-621 | The search returns the lowest page-aligned base with an unmapped range |
| ProcessRuns.MunmapKeepsExactly | src/core/kernel_api.cpp:391-426 | A successful munmap keeps the heap tiled if and only if the address is at or above the mmap base |
| ProcessRuns.HeapHole | src/core/kernel_api.cpp:391-426 | Unmapping a heap record leaves a page of the heap that no record owns |
| ProcessRuns.HeapHoleWitness | src/core/kernel_api.cpp:391-426 | Grow by a page, munmap it, and the next shrink is refused |
| ProcessRuns.ProtectPagesChanges | src/core/kernel_api.cpp:442-469 | mprotect changes only flags, only on the pages asked for, and succeeds if and only if all are mapped |
| ProcessPages.ProtectInBytes | src/core/kernel_api.cpp:442-469 | mprotect succeeds if and only if every byte of the range lies on a mapped page; then exactly the pages with such a byte carry the flags, and all frames and other pages stay |
| ProcessPages.ProtectWrapWitness | src/core/kernel_api.cpp:450-453 | A size that wraps changes nothing and is answered with success |
| ProcessPages.StepKeepsWhole | src/core/virtual_memory.cpp:370-419 | Every call keeps that pages lead to whole frames |
| ProcessPages.MmapInBytes | src/core/kernel_api.cpp:581-622 | A successful mmap maps exactly the pages of the rounded length, to the granted frames in order, with the flags asked for |
| ProcessPages.MunmapInBytes | src/core/kernel_api.cpp:391-426 | munmap succeeds if and only if a record has that start and the rounded length, and clears exactly its pages |
| ProcessPages.MmapThenMunmap | src/core/kernel_api.cpp:391-622 | munmap with the length given to mmap gives back everything but the search position |
| ProcessPages.BrkInBytes | src/core/kernel_api.cpp:471-561 | A growing break maps exactly the new pages, writable and for the user; a shrinking one clears exactly those past the new end |
| ProcessRuns.NoSharedFrame | src/core/virtual_memory.cpp:370-419 | No two tracked pages lead to the same frame |
| ProcessStray.StepStray | src/core/kernel_api.cpp:391-622 | Without stray pages before, a call leaves pages that no record owns if and only if its mapping got frames and stopped halfway |
| ProcessStray.RunStray | src/core/kernel_api.cpp:391-622 | A run is free of stray pages throughout if and only if no mapping of it stops halfway |
| ProcessStray.GrowStray | src/core/kernel_api.cpp:484-505 | The same for a growing break |
| ProcessStray.MapAtStray | src/core/virtual_memory.cpp:370-419 | The same for one mapping at a free range |
| ProcessStray.CleanPagesAreOwned | src/core/virtual_memory.cpp:370-419 | Without stray pages every mapped page leads into a block that is held, and no two mapped pages share a frame |
| ProcessStray.StrayWitness | src/core/virtual_memory.cpp:370-419 | A break that grows by two pages of which one can be mapped answers out of memory and leaves that page mapped to a frame already given back |
| ProcessRuns.HeldIsRecorded | src/core/kernel_api.cpp:139-178 | Blocks held are exactly those of live records |
| ProcessMemory.Context.AllocateUserPages | src/core/virtual_memory.cpp:370-419 | Frames for the 32-bit page count, and the mapping, or a failed mapping whose pages stay and whose frames go back |
| ProcessMemory.Context.FindTop | src/core/kernel_api.cpp:508-526 | First record ending at the mapped end |
| ProcessMemory.Context.ShrinkTop | src/core/kernel_api.cpp:532-556 | One round: drop or cut the topmost record |
| ProcessMemory.Context.Shrink | src/core/kernel_api.cpp:506-558 | The loop terminates on every record list and is Shrink |
| ProcessMemory.Context.AdjustBrk | src/core/kernel_api.cpp:471-561 | Whole new state as Brk |
| ProcessMemory.Context.UserRangeIsUnmapped | src/core/kernel_api.cpp:563-579 | No page of the range is mapped |
| ProcessMemory.Context.FindMappingBase | src/core/kernel_api.cpp:597-621 | The search is FindBase |
| ProcessMemory.Context.Mmap | src/core/kernel_api.cpp:581-622 | Whole new state as Mmap |
| ProcessMemory.Context.Munmap | src/core/kernel_api.cpp:391-426 | Whole new state as Munmap |
| ProcessMemory.Context.Protect | src/core/kernel_api.cpp:442-469 | Whole new page map as Protect |
| StreamModel.RunRefines | src/core/fs.cpp:664-814 | Any sequence of read, write, seek and truncate behaves as on an infinite zero-filled file with a length and a position: gaps and re-extended tails are zero, append writes at the end |
| StreamModel.StepRefines | src/core/fs.cpp:664-814 | Each operation does |
| StreamModel.WriteRefines | src/core/fs.cpp:700-733 | A write changes exactly its cells; the length is the maximum of old length and end |
| StreamModel.TruncateRefines | src/core/fs.cpp:784-814 | Truncation keeps the cells below the length and zeroes the rest |
| StreamModel.ReadReturnsCells | src/core/fs.cpp:664-698 | A read returns the cells from the position, cut at the length |
| StreamModel.WriteThenRead | src/core/fs.cpp:664-733 | Writing and reading back at the same place gives the data |
| StreamModel.DirtyIffMarked | src/core/fs.cpp:700-814 | The stream is dirty if and only if a write stored bytes or a truncate changed it; a clean one has its first bytes, padded by the writes that failed |
| StreamModel.CloseStores | src/core/fs.cpp:343-366 | After close the backend holds exactly the stream bytes if and only if something was written or truncated, or what was stored is what the open found, padded by the writes that failed |
| StreamModel.OpenFinds | src/core/fs.cpp:562-595 | A truncating open, or of a new file, finds no bytes; any other the stored ones; the position is the end exactly in append mode |
| StreamModel.SessionStores | src/core/fs.cpp:343-814 | Open to close: if any write or truncate was answered with success the backend holds exactly the cells of the reference file, otherwise what it held before |
| StreamModel.TruncateWriteClose | src/core/fs.cpp:562-733 | Open with truncation, write, close stores exactly the data |
| StreamModel.AppendWriteClose | src/core/fs.cpp:562-733 | Open for appending, write, close stores the old bytes and the data |
| StreamModel.UpdateWriteClose | src/core/fs.cpp:562-733 | Open for update, write, close replaces the front |
| StreamModel.SeekReaches | src/core/fs.cpp:735-774 | Below 2^63 a seek lands where whence and offset say, and is refused exactly before the start |
| StreamModel.SignedWord | src/core/fs.cpp:735-774 | Positions are read as signed 64-bit words |
| StreamModel.WriteAnswers | src/core/fs.cpp:700-814 | write answers all bytes or none, truncate success exactly for a writable stream and a length |
| StreamModel.TruncatingOpenWitness | src/core/fs.cpp:586-593 | A file opened for truncation and closed again keeps its old bytes |
| Streams.NewCapacity | src/core/fs.cpp:222-230 | The doubling loop ends, covers the request, fits 64 bits, and stays under twice the request or at 256 |
| Streams.Stream.constructor | src/core/fs.cpp:562-595 | What a writable open finds |
| Streams.Stream.EnsureCapacity | src/core/fs.cpp:217-251 | Contents unchanged, capacity sufficient, old buffer kept on failure |
| Streams.Stream.Read | src/core/fs.cpp:664-698 | View and bytes as Read |
| Streams.Stream.PadToPosition | src/core/fs.cpp:710-717 | Zero gap up to the position |
| Streams.Stream.Store | src/core/fs.cpp:719-732 | Overlay at the position |
| Streams.Stream.Write | src/core/fs.cpp:700-733 | View and count as Write; after a refused allocation the view with the padding alone |
| Streams.Stream.Seek | src/core/fs.cpp:735-774 | View and answer as Seek |
| Streams.Stream.Truncate | src/core/fs.cpp:784-814 | View and answer as Truncate; unchanged on failure |
| Streams.Stream.Close | src/core/fs.cpp:343-366 | The backend gets exactly the bytes when dirty, nothing otherwise |
| FatHistory.RunKeepsFiles | src/fs/fat32.cpp:1943-2067 | In every run of write_file and remove_file all chains stay in range, acyclic, end-terminated and pairwise disjoint, every directory on the volume stays well-formed and its file slots fit their chains, and an entry that no operation names is still listed by the directory scan, a file with the same contents |
| FatHistory.StepKeeps | src/fs/fat32.cpp:1943-2067 | Every outcome of one operation, out of space included, keeps that invariant and every other place of every directory |
| FatHistory.OthersKept | src/fs/fat32.cpp:1943-2067 | Every entry of another name or directory is still listed after the operation, and every such file has the same contents |
| FatHistory.WriteIsFound | src/fs/fat32.cpp:1943-2041 | After a successful write_file the scan finds the name with exactly the given bytes, cut at 2^32: always when the file was there before, and for a new file whenever its name survives its slots |
| FatHistory.RemoveIsGone | src/fs/fat32.cpp:2043-2067 | After a successful remove_file nothing is listed at its place |
| FatHistory.RunsAreValid | src/fs/fat32.cpp:1943-2067 | Operations on directories of the volume can follow each other in any order |
| FatHistory.CreateKeepsAliases | src/fs/fat32.cpp:1192-1213 | A new entry keeps the eleven-byte names of a directory distinct if and only if it has a long name or no entry has its bytes yet |
| FatHistory.OverwriteKeepsAliases | src/fs/fat32.cpp:1986-2023 | Writing an existing file again changes no eleven-byte name |
| FatHistory.ClashingNames | src/fs/fat32.cpp:1192-1213 | foo.txt and FOO.TXT are two names with the same eleven bytes |
| FatOps.OverwriteKeeps | src/fs/fat32.cpp:1986-2023 | Overwriting: the scan reports the same entries with that one rewritten in place under the same name, with the new start and size, or with none when space ran out; every other chain and byte stays |
| FatOps.CreateKeeps | src/fs/fat32.cpp:1975-2033 | Creating: the old entries and exactly one new file, or the old listing on every kind of failure |
| FatOps.RemoveKeeps | src/fs/fat32.cpp:2043-2067 | Removing: the listing without exactly that entry, its chain free, everything else as before |
| FatOps.OverwriteContents | src/fs/fat32.cpp:1986-2023 | The contents of an overwritten file are the bytes cut at 2^32, so exactly the bytes if and only if there are fewer |
| FatOps.CreateContents | src/fs/fat32.cpp:1975-2033 | The same for a new file |
| FatFiles.Commit | src/fs/fat32.cpp:1943-2067 | A volume on which one place of one directory changed, with fitting start and size, and all other chains and bytes are as before, is good again and lists the same elsewhere |
| FatOwners.AllocSlotsKeeps | src/fs/fat32.cpp:1215-1276 | The search for free slots, with the clusters it appends, keeps all chains sound and disjoint, all bytes, and the directory's slots but for zeroed new ones; the run it returns is the first |
| FatSpace.StepSucceeds | src/fs/fat32.cpp:1943-2067 | write_file over an existing file succeeds if and only if the bytes fit the free clusters together with those of the old chain; under a new name, if and only if the name gets an alias and the free clusters hold the bytes and the clusters the directory must grow by; remove_file, if and only if the file is there |
| FatSpace.OverwriteSucceeds | src/fs/fat32.cpp:1986-2023 | The condition for an existing file |
| FatSpace.CreateSucceeds | src/fs/fat32.cpp:1975-2033 | The condition for a new one |
| FatSpace.AllocSlotsSpace | src/fs/fat32.cpp:1215-1276 | The slot search succeeds if and only if the clusters it has to append, computed from the run of free slots at the end, are free, and then takes exactly those |
| FatSpace.FailedWriteEmpties | src/fs/fat32.cpp:1986-2006 | A write over an existing file that fails leaves it listed and empty |
| FatCounts.RunKeepsCount | src/fs/fat32.cpp:589-682 | Over every run of write_file and remove_file an initially correct free count stays equal to the number of free clusters; Volume.Valid keeps the words of the FSInfo sector equal to that field |
| FatCounts.StepKeepsCount | src/fs/fat32.cpp:1943-2067 | Every outcome of one operation keeps it, out of space included |
| FatProofs.WriteDataOutcome | src/fs/fat32.cpp:1604-1660 | Success: a fresh chain of formerly free clusters holding the data; failure: the exact table from before |
| FatProofs.FreeWalkOfChain | src/fs/fat32.cpp:653-682 | On a well-formed chain exactly its entries become zero |
| FatProofs.FreeWalkOnlyZeroes | src/fs/fat32.cpp:653-682 | On any table, cyclic or cross-linked, entries only become zero |
| FatProofs.ChainUnique | src/fs/fat32.cpp:653-682 | A first cluster has at most one well-formed chain |
| FatProofs.AllocateCounts | src/fs/fat32.cpp:612-651 | No cluster is found if and only if none is free; otherwise one fewer is free |
| FatProofs.AllocateKeepsCount | src/fs/fat32.cpp:612-651 | A correct FSInfo count stays correct |
| FatProofs.FreeChainKeepsCount | src/fs/fat32.cpp:653-682 | A correct FSInfo count stays correct and grows by the chain length |
| FatProofs.WriteDataCounts | src/fs/fat32.cpp:1604-1660 | The write succeeds if and only if enough clusters are free; a right count stays equal to the zero entries in both cases |
| FatModel.FindFree | src/fs/fat32.cpp:612-651 | The two-pass search returns a zero entry, or there is none |
| FatModel.NonZeroUpdate | src/fs/fat32.cpp:653-682 | The measure of the freeing loop: zeroing a nonzero entry lowers the number of nonzero entries by one |
| FatLayout.EntryBytes | src/fs/fat32.cpp:532-547 | A table entry is the low 28 bits of four bytes, lowest first |
| FatLayout.PutEntryBytes | src/fs/fat32.cpp:549-587 | The four bytes written, the top nibble as it was, and no other byte |
| FatLayout.FatPlace | src/fs/fat32.cpp:499-530 | The entry of cluster c is at byte 4c of each copy of the table |
| FatLayout.ClusterPlace | src/fs/fat32.cpp:344-351 | Cluster 2 starts the data region and each cluster follows the one before |
| FatLayout.InfoBytes | src/fs/fat32.cpp:589-610 | Signatures, count and hint of the FSInfo sector, byte by byte |
| FatLayout.EndMarks | src/fs/fat32.cpp:653-671 | Chain values from 0x0FFFFFF8 on end a chain |
| FatLayout.FirstFromHint | src/fs/fat32.cpp:612-651 | The next cluster is the first free one from the hint on, or else the first free one; the hint moves behind it |
| FatLayout.HintMoves | src/fs/fat32.cpp:653-682 | A hint outside the clusters means the start; freeing moves it down to the chain, never up |
| FatLayout.SfnCharacters | src/fs/fat32.cpp:933-957 | The characters of an 8.3 name |
| FatLayout.AliasCharacters | src/fs/fat32.cpp:1054-1067 | The characters an alias keeps |
| FatLayout.AliasPlaces | src/fs/fat32.cpp:1104-1150 | Each of the eleven places of an alias: what fits of the base, the tilde, the number, the extension |
| FatLayout.NamelessAlias | src/fs/fat32.cpp:1113-1119 | A base name of spaces and dots gives aliases of FILE |
| FatLayout.UpdatedBytes | src/fs/fat32.cpp:2007-2016 | The bytes of its slot that rewriting a file changes, and their values |
| FatLayout.UpdatedAttributes | src/fs/fat32.cpp:2010-2010 | The archive bit is set, the directory and label bits cleared, the others kept |
| FatLayout.EmptiedBytes | src/fs/fat32.cpp:1997-2003 | A failed rewrite clears start and size and nothing else |
| FatDisk.PutEntryChangesOne | src/fs/fat32.cpp:549-587 | Only the low 28 bits of one entry of a sector change |
| FatDisk.PutCopiesAt | src/fs/fat32.cpp:549-587 | In every copy exactly one sector changes |
| FatDisk.PutCopiesView | src/fs/fat32.cpp:549-587 | Seen as a table it is one entry update, and no data cluster changes |
| FatDisk.PutCopiesMirrors | src/fs/fat32.cpp:549-587 | Mirrored copies stay mirrored |
| FatDisk.CoherentAfterPut | src/fs/fat32.cpp:571-583 | The cached sectors stay equal to copy 0 on disk |
| FatDisk.WriteClusterSector | src/fs/fat32.cpp:344-351 | A sector write changes those 512 bytes of one cluster only |
| FatRuns.RunRead | src/fs/fat32.cpp:1278-1307 | One request over consecutive clusters gives the clusters along the chain |
| FatRuns.ConcatSlice | src/fs/fat32.cpp:1498-1602 | A stretch of the chain is the matching slice of its bytes |
| FatVolume.Volume.ReadCachedFatSector | src/fs/fat32.cpp:499-530 | The sector of copy 0, cached or filled |
| FatVolume.Volume.ReadFatValue | src/fs/fat32.cpp:532-547 | Cache transparency: the low 28 bits of the entry in copy 0 on disk, for every state the cache can be in |
| FatVolume.Volume.PutInCopy | src/fs/fat32.cpp:556-583 | One entry of one copy, cache following copy 0 |
| FatVolume.Volume.WriteFatValue | src/fs/fat32.cpp:549-587 | All copies, only the low 28 bits of one entry, mirroring kept, cache coherent also after a device error |
| FatVolume.Volume.UpdateFsInfo | src/fs/fat32.cpp:589-610 | Count and hint on disk and in memory, or neither; the sector matches the fields throughout |
| FatVolume.Volume.FindFreeCluster | src/fs/fat32.cpp:612-627 | The two-pass search |
| FatVolume.Volume.AllocateCluster | src/fs/fat32.cpp:612-651 | The volume as Allocate; fails without device errors exactly when none is free |
| FatVolume.Volume.FreeLinks | src/fs/fat32.cpp:653-671 | Terminates on every table and is FreeWalk |
| FatVolume.Volume.FreeClusterChain | src/fs/fat32.cpp:653-682 | The volume as FreeChain |
| FatVolume.Volume.ZeroCluster | src/fs/fat32.cpp:684-693 | That cluster is zero, every other byte as before |
| FatVolume.Volume.AppendDirectoryCluster | src/fs/fat32.cpp:695-710 | Linked, zeroed, or the volume unchanged when none is free |
| FatVolume.Volume.WriteEntryBytes | src/fs/fat32.cpp:476-488 | Exactly those bytes of one sector |
| FatVolume.Volume.CollectClusterRun | src/fs/fat32.cpp:1278-1307 | The longest consecutive stretch of the chain from there, and its continuation |
| FatVolume.Volume.ReadClusterBytes | src/fs/fat32.cpp:1309-1367 | Exactly the requested bytes of the cluster; fails exactly outside it |
| FatVolume.Volume.ReadFileData | src/fs/fat32.cpp:1369-1479 | The first size bytes of the chain; without device errors it fails exactly when the chain is shorter |
| FatVolume.Volume.ClusterForFileOffset | src/fs/fat32.cpp:1498-1531 | The chain cluster at the index, whatever the descriptor cached; the cached pair stays on the chain |
| FatVolume.Volume.ReadWholeClusters | src/fs/fat32.cpp:1565-1586 | The fast path returns the same slice |
| FatVolume.Volume.ReadPiece | src/fs/fat32.cpp:1554-1598 | One iteration, fast or by bytes, returns the next bytes of the slice |
| FatVolume.Volume.ReadFileRange | src/fs/fat32.cpp:1533-1602 | Exactly the requested slice for any offset and size, after any earlier reads |
| FatVolume.Volume.FillCluster | src/fs/fat32.cpp:1636-1654 | Next bytes, zero-filled to the cluster end |
| FatVolume.Volume.WriteFileData | src/fs/fat32.cpp:1604-1660 | The volume as WriteData; first cluster of its chain |
| FatVolume.Volume.WriteThenRead | src/fs/fat32.cpp:1369-1660 | Reading what was written gives exactly the data if and only if it is under 4 GiB |
| FatVolume.FileDescriptor.constructor | src/fs/fat32.cpp:1481-1496 | Refused exactly for bytes without a data cluster |
| FatNames.LongRoundTrip | src/fs/fat32.cpp:375-458 | A long name of 1 to 255 nonzero bytes decodes to itself if and only if it is ASCII |
| FatNames.LfnUnits | src/fs/fat32.cpp:1152-1190 | Pieces written last first read back as the name, one zero and 0xFFFF |
| FatNames.UnitsOfSlot | src/fs/fat32.cpp:365-373 | The 13 units of a slot come back from its bytes |
| FatNames.ShortRoundTrip | src/fs/fat32.cpp:400-425 | An 8.3 name decodes to itself if and only if neither part mixes cases and a dot is followed by an extension |
| FatFormat.ChecksumIsRotateSum | src/fs/fat32.cpp:389-398 | lfn_checksum is the specified sum: rotate right by one bit, add the byte, modulo 256 |
| FatFormat.RotateBits | src/fs/fat32.cpp:389-398 | Bit k of the rotated sum is bit k + 1, and the highest is the lowest |
| FatFormat.ListedExactly | src/fs/fat32.cpp:712-786 | In every directory a slot is listed if and only if no end marker comes before and it is in use, no long-name slot and no volume label |
| FatFormat.ListedUnderLongName | src/fs/fat32.cpp:427-458 | In every directory, whoever wrote it, long-name slots that carry the specified sum of the short name are listed under the name they spell |
| FatFormat.ListedUnderShortName | src/fs/fat32.cpp:432-437 | With another sum byte the entry is listed under its short name |
| FatFormat.AliasVector | src/fs/fat32.cpp:1104-1150 | longfilename.txt has the first alias LONGFI~1.TXT |
| FatFormat.SumVector | src/fs/fat32.cpp:389-398 | Its checksum is 0xD4 |
| FatFormat.WrittenVector | src/fs/fat32.cpp:1152-1213 | All 96 bytes written for that file |
| FatFormat.ReadVector | src/fs/fat32.cpp:712-786 | Name, start and size read from those bytes |
| FatFormat.CaseByte | src/fs/fat32.cpp:1039-1052 | The case byte has bit 3 exactly for a small letter in the base, bit 4 for one in the extension, and no other |
| FatFormat.LongNameSpells | src/fs/fat32.cpp:427-458 | The name of a group of long-name slots: their units up to a zero, without 0xFFFF, cut at 255 |
| FatFormat.DigitsSpell | src/fs/fat32.cpp:1069-1087 | The number of an alias in decimal, without leading zeros |
| FatNames.ShortNameWitness | src/fs/fat32.cpp:400-425 | Foo is listed as foo, and a. as a |
| FatNames.LongNameWitness | src/fs/fat32.cpp:427-458 | A name of one byte above 127 comes back as a question mark |
| FatDirectory.CreateLong | src/fs/fat32.cpp:2025-2033 | With no orphan long-name slots and a zeroed tail, creating a long ASCII name makes the scan report the old entries and exactly one new one with that name, and keeps both conditions |
| FatDirectory.CreateShort | src/fs/fat32.cpp:1192-1213 | The same for an 8.3 name, whose listed name is the given one exactly under the round-trip condition |
| FatDirectory.ScanCreated | src/fs/fat32.cpp:712-786 | Slots written into found room add exactly their entry to the scan, at its place |
| FatDirectory.RunIsFree | src/fs/fat32.cpp:1215-1276 | The run found consists of free slots and starts after one in use |
| FatDirectory.CreatedKeeps | src/fs/fat32.cpp:2025-2033 | The directory conditions survive a creation |
| FatRemove.RemoveListsTheRest | src/fs/fat32.cpp:2043-2067 | In every directory, marking an entry unused makes the scan report all entries but that one |
| FatRemove.EntryShape | src/fs/fat32.cpp:712-786 | The long-name slots an entry reports are the at most 20 slots right in front of it |
| FatCreate.ShortSlotFields | src/fs/fat32.cpp:163-177 | Name, first cluster and size come back from the short slot |
| FatCreate.FirstAlias | src/fs/fat32.cpp:1104-1150 | An alias no entry has; none exactly when all 999 are taken |
| FatCreate.UpdatedFields | src/fs/fat32.cpp:2011-2023 | The slot rewritten in place keeps its name bytes and has the new start and size |
| FatCreate.EntryForIs | src/fs/fat32.cpp:1192-1213 | The slots written for a name form one file entry with that start and size, under that name exactly when it survives its slots; a long name has an alias that no entry has |
| FatCreate.RewriteKeepsName | src/fs/fat32.cpp:1039-1052 | A standard entry written again, its case bits computed from the listed name, is listed under the same name |
| FatCreate.CaseChange | src/fs/fat32.cpp:400-425 | Other case bits list the same name if and only if no changed bit covers a capital letter |
| FatCreate.MixedStoredName | src/fs/fat32.cpp:400-425 | A short name stored as Foo is listed as foo once its file is written again |
| FatUpdate.ScanRewritten | src/fs/fat32.cpp:712-786 | In every directory, rewriting a short slot in place makes the scan report the same entries with that one rewritten |
| FatUpdate.CreatedWell | src/fs/fat32.cpp:2025-2033 | Creation, in room that was found, keeps the tail zeroed, no orphan long-name slots and whole names |
| FatUpdate.RewrittenWell | src/fs/fat32.cpp:2011-2023 | So does the rewrite of a slot |
| FatUpdate.RemovedWell | src/fs/fat32.cpp:2043-2067 | So does removal |
| FatScan.ScanSector | src/fs/fat32.cpp:730-772 | The slots of one sector, pending long-name slots carried over sector borders |
| FatScan.ScanCluster | src/fs/fat32.cpp:722-773 | All sectors of one cluster, up to the end marker |
| FatScan.ScanDirectory | src/fs/fat32.cpp:712-786 | The walk over clusters and sectors reports Scan of the slots of the whole chain |
| FatScan.SearchSector | src/fs/fat32.cpp:1233-1255 | The run of free slots carried over sector borders |
| FatScan.SearchCluster | src/fs/fat32.cpp:1226-1256 | The same over one cluster: the first long enough run |
| FatDriver.AppendForRoom | src/fs/fat32.cpp:695-710 | One more zeroed cluster at the end of a directory without room |
| FatDriver.AllocateDirectorySlots | src/fs/fat32.cpp:1215-1276 | The first run of the needed length, in appended clusters if need be, as AllocSlots |
| FatDriver.WriteSlot | src/fs/fat32.cpp:476-488 | Exactly the 32 bytes of one slot of the directory |
| FatDriver.MarkSlot | src/fs/fat32.cpp:490-497 | Exactly the first byte of one slot |
| FatDriver.WriteSlots | src/fs/fat32.cpp:2025-2033 | Exactly those slots of the directory |
| FatDriver.MarkSlots | src/fs/fat32.cpp:2057-2064 | Exactly the slots of the entry |
| FatDriver.FindInDirectory | src/fs/fat32.cpp:788-799 | The first entry of that name, or none has it |
| FatDriver.SfnExists | src/fs/fat32.cpp:1089-1102 | Whether some entry has the alias |
| FatDriver.GenerateUniqueSfn | src/fs/fat32.cpp:1104-1150 | The first free alias, the directory scanned for each candidate |
| FatDriver.BuildAlias | src/fs/fat32.cpp:1192-1213 | 8.3 bytes, or a unique alias for a long name that fits its buffer |
| FatDriver.OverwriteFile | src/fs/fat32.cpp:1986-2023 | Free, store and rewrite the slot: the volume as Overwrite |
| FatDriver.CreateFile | src/fs/fat32.cpp:1975-2033 | Room, data and slots, with every failure: the volume as Create |
| FatDriver.WriteFile | src/fs/fat32.cpp:1943-2041 | Without device errors, the answer and the volume on disk are exactly those of the write step, and mirrored FAT copies stay mirrored; a leaf name of 256 characters or more is refused |
| FatDriver.RemoveFile | src/fs/fat32.cpp:2043-2067 | Without device errors, the answer and the volume on disk are exactly those of the remove step, and mirrored FAT copies stay mirrored |

## Left out

- Device drivers, firmware calls, interrupt controllers and the SMP trampoline: foreign calls and port access.
- Console, framebuffer, input, logging, panic and debugger output.
- Lock internals and memory ordering; the window in which a CPU still runs on the stack of a task it has just taken off.
- Register frames, FPU state, stacks and address-space switches of tasks; cleanup of a process context after exit.
- ELF and PE loaders, kernel objects, driver and network registries, ACPI, symbol tables, sound: lookups and clamping, or guarantees only for well-formed input.
- Mounting: parsing of the boot sector. Good(g) states the geometry a mounted volume has, and the constructor of Volume takes count and hint as the mount loads them from the FSInfo sector.
- FAT32 after a device error in the middle of an operation: the cache stays coherent and the FSInfo words match (Volume.Valid), more is not claimed.
- Path resolution and the making of directories: WriteFile and RemoveFile take the first cluster of the directory a path resolves to, and the leaf name. That the start in a subdirectory's slot is one of these directories is not part of the invariant.
- FatFiles.Inv covers volumes whose directories have a zeroed tail, no orphan long-name slots and upper-case short names, as this driver writes them; RemoveListsTheRest and ScanRewritten hold for every directory.
- Creation and modification times of directory entries are zero, as the driver writes them.
- The region list of the physical allocator and the allocation records of a process are sequences; the node links are not modelled. The heap's block list is modelled with its pointers.
- Contents of heap blocks and of user pages, and their zeroing.
- KernelHeap.KernelHeap.TryAllocateAligned: what the header writes do to memory after a fit whose end wraps, which lies outside its block.
- SchedulerProofs.StepKeepsInv: what follows a sleep of a terminated task, which SleepKeepsInvExactlyWhenAlive shows to break the invariant.
- ProcessRuns.StepKeeps: what follows a munmap below the mmap base or a granted mapping of 2^32 pages, which MunmapKeepsExactly and MmapKeepsExactly show to break the invariant.
- Page-table entries outside the user slots of the top level, and virtual addresses outside the user range.
- malloc and free of a process, which use the same mapping search as mmap.
- Streams.Stream.Seek: sums beyond 2^63 - 1, which are undefined in the original.
- FatVolume.Volume.ReadFileData: the kernel heap refusing the buffer for a whole file.
- Read-only streams that read straight through the backend, and the table of stream handles.
