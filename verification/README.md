# Ralix kernel: verified models

Dafny 4.11 models of an AArch64 kernel (Raspberry Pi 5 and QEMU raspi3b) with
machine-checked proofs. `dafny verify dfyconfig.toml` checks the whole project.

| file | what it models |
|---|---|
| `Machine.dfy` | machine words and options |
| `Process.dfy`, `Scheduler.dfy` | the process table, the ring-buffer run queue and the per-CPU CURRENT array: the table as a value, and the classes that update it in place, each method proved against the value |
| `SchedulerSafety.dfy`, `SchedulerFairness.dfy`, `SchedulerContext.dfy` | every run of the scheduler on four CPUs: one CPU per process, conservation, bounded waiting, context hand-off |
| `SchedulerStates.dfy`, `SchedulerStacks.dfy` | who may be put on a CPU and what becomes of blocked processes; a stack for every process |
| `SpinLock.dfy` | the lock as interleaved small steps and interrupts of any number of cores, its reduction to atomic scheduler steps, and when it gets stuck |
| `Layout.dfy`, `Region.dfy`, `Offers.dfy`, `MemoryMap.dfy` | address arithmetic; sort, sweep, merge and page alignment of overlapping memory regions |
| `BootAlloc.dfy`, `Frame.dfy`, `Boot.dfy`, `MemorySafety.dfy` | the bump allocator, the frame bitmap, region assembly and window choice, and what handed-out frames are |
| `PageTable.dfy`, `Paging.dfy` | descriptor encoding, the hardware table walk, the table builder |
| `AddressSpace.dfy`, `AddressMap.dfy`, `AddressSpec.dfy` | both address spaces after boot: the calls that build them, what they contain, and an independent description they equal |
| `Fdt.dfy`, `Cells.dfy`, `DtbRegions.dfy` | device tree tokens, cells, and the memory regions of the tree |
| `DtbBlob.dfy` | whole blobs, written independently and read back |
| `DtbSpec.dfy`, `DtbLimits.dfy`, `DtbDepth.dfy` | what the regions of a tree mean, when they are what the Devicetree Specification prescribes, and trees for which they are not |
| `BusRanges.dfy`, `BusSpec.dfy` | bus translation, and when it is the one of the Devicetree Specification |
| `DtbPath.dfy`, `DtbSearch.dfy`, `PathSettings.dfy` | finding a device by path, with its settings |
| `PathSpec.dfy`, `PathOrder.dfy`, `PathLimits.dfy` | when that reads what the Devicetree Specification prescribes, trees for which it always does, and trees for which it does not |
| `KernelBoot.dfy` | the whole of memory initialisation, from the blob to mapped frames, and any requests after it |
| `BootSpec.dfy` | what each address is at boot and which frames are free, with and without a blob |
| `BootLimits.dfy` | boots that show the limits of memory initialisation |
| `Terminal.dfy`, `Console.dfy` | the character screen, and the scrolling console on pixels that shows it |

Stateful parts of the source are classes whose methods change fields, arrays
and loops in place; each method is proved equal to a function of the old
state, and the theorems are about those functions and about all runs of them.
Machine words are naturals below 2^32 or 2^64. Wrapping sums, saturating sums
and shifts are written out, and lemmas over 64-bit vectors show that the
arithmetic forms used are the bit formulas of the source.

## Assumptions

- Entry to an interrupt up to its `eret` is one atomic step of a CPU: the
  source releases the lock before it leaves the old stack
  (src/arch/aarch64/exception.S:83-84).
- Interrupt handlers run with interrupts masked. In the scheduler model a step
  other than an interrupt is not interrupted; in the lock model it can be.
- Memory is sequentially consistent, and the page tables, the bitmap and the
  blob do not overlap other data. The three tables of each tree are page
  aligned, apart from each other, and at most 2^47 bytes above the kernel base.
- `start_on_cpu` runs on a CPU that has no current process, where conservation
  and waiting times are concerned. Safety does not need this.
- Runs without `set_state` are meant wherever conservation, waiting or absence
  of panics is claimed, since waking a blocked process is not implemented.
- No stretch of usable memory begins above 2^64 - 4096, where `align_up` wraps.
  For the page tables all memory lies below 512 GiB, because one level-0 entry
  per tree is filled.
- The root of a device tree has no `ranges` of its own, where the code is
  compared with section 2.3.8.
- Arithmetic overflow wraps, as in the release profile. A slice out of bounds
  panics, and a panic halts the core.

## What was found

Each item names a lemma at an input that shows it and, where there is one, the
exact condition.

- Frames beyond the first 1 GiB of a usable region are handed out on the
  Raspberry Pi 5 but not mapped (`BootLimits.CappedRamIsUnmapped`;
  `AddressMap.MappedExactly` is the exact condition).
- On QEMU the graphics memory window is mapped last, as Normal memory, over
  the peripherals mapped as Device before it
  (`AddressMap.QemuPeripheralsAreNormalMemory`, `AddressMap.QemuWindowIsNormalMemory`).
  docs/memory.md:25 says device ranges are mapped as Device memory.
- The table takes 128 regions and drops the rest silently, and the tree's come
  first: a tree with as many leaves the kernel image, the stack and the blob
  unprotected, and the allocator hands them out (`BootLimits.KernelIsHandedOut`).
  With no more than 128 non-empty regions in all, every frame handed out was
  offered as usable RAM and as nothing else (`KernelBoot.BootAndServe`).
- When no usable region holds the page after the kernel, the boot window keeps
  that start with the end of the first usable region. The bitmap can lie in
  reserved memory (`BootLimits.BitmapInReservedMemory`), or no allocator starts
  although memory is free (`BootLimits.NoAllocatorBehindTheBlob`). It lies in
  usable RAM exactly when some usable region holds the start
  (`MemorySafety.BitmapPlacement`), and an allocator starts exactly when it fits
  the window (`MemorySafety.StartFrames`). A bitmap outside all regions faults
  when it is used (`BootLimits.BitmapOutOfReach`); in usable RAM it is reached
  (`KernelBoot.BitmapIsReached`).
- `align_up` wraps to 0 above 2^64 - 4096, so alignment keeps the whole pages
  of a region exactly when it starts at or below that (`RegionModel.AlignedKeepsPages`).
- A map of more than 128 spans is truncated; it stays true but incomplete
  (`RegionModel.NormalisationPreservesMeaning`). 65 regions suffice
  (`BootLimits.CrowdedMapIsTruncated`).
- Memory below reserved-memory is offered as usable RAM when its node or one
  around it has a name, or before its `reg` a device_type, that begins with
  "memory" (`DtbLimits.NameExposes`, `DtbLimits.DeviceTypeExposes`), and only
  then (`DtbSpec.ReservedExactly`).
- The parser reads `reg` with cells inherited from all ancestors and with the
  node's own, not with those the parent declares (Devicetree Specification,
  sections 2.3.5 and 2.3.6): a memory node below a root that declares none is
  missed (`DtbLimits.DefaultCellsDiffer`). A tree shape is read as prescribed
  for all register values exactly when at each `reg` the two read alike
  (`DtbSpec.MeetsSpecExactly`); setting both properties between a node's `reg`
  and its children is enough (`DtbSpec.OrderlyTreesMeetSpec`).
- Section 2.3.8 lets nothing through a parent without `ranges`; the code passes
  the address unchanged (`BusSpec.AbsentPasses`). It reads four windows of a
  property (`BusSpec.FifthWindowIsLost`), and none holds the last address
  (`BusSpec.LastAddressIsLost`). `BusSpec.TranslationMeetsSpecExactly` is the
  exact condition.
- The search by path reads a register with the cells held for the node itself,
  and a bus's windows with the cells held when it meets them. A device below a
  root that declares no cells is missed (`PathLimits.DefaultRegisterIsMissed`),
  and windows that stand before the cell properties are lost
  (`PathLimits.EarlyRangesAreMissed`). `PathSpec.RegisterReadExactly` and
  `PathSpec.WindowsReadExactly` are the exact conditions,
  `PathSpec.RegisterMeetsSpec` puts them together at a place in a tree.
- The lock does not mask interrupts. A timer interrupt inside the critical
  section of `start_on_cpu`, which runs with interrupts enabled, waits for the
  lock for ever; that, or a panic inside, is exactly how the lock gets stuck
  (`SpinLock.InterruptSticks`, `SpinLock.StuckExactly`).
- The position of the boot allocator saturates at 2^64 - 1, where it would hand
  out the same bytes again (`BootAlloc.TwoChunksAreDisjoint`). The boot window
  always ends below.
- A process that `set_state` blocks or terminates while it runs is marked running
  again by the next timer interrupt of its CPU exactly when nothing else may run
  (`SchedulerStates.SleeperStep`); off the CPUs it is never dispatched
  (`SchedulerStates.SleeperSleeps`).
- A tree deeper than the stack of 32 nodes is misread: leaving a node that was
  not pushed leaves the one around it (`DtbDepth.DeeperTreesLoseReservations`).
  A path of more than 256 bytes is cut, and its node is found by the first 256
  (`PathLimits.LongPathsAreCut`).
- A first entry through an interrupt frame and a direct first entry see the
  same stack pointer exactly when the stack top is 16-byte aligned
  (`SchedulerContext.FirstEntryAgrees`).

## Model

| member | source | states |
|---|---|---|
| ProcessModel.DequeueExactly | src/kernel/process/scheduler.rs:140-158 | the dequeue takes the first runnable entry in queue order and leaves the rest followed by the skipped ones; it finds none exactly when no entry is runnable, and then changes nothing |
| ProcessModel.RotateStep | src/kernel/process/scheduler.rs:143-156 | popping the front of a rotated queue and pushing it back rotates it once more |
| Scheduler.RunQueue.Push | src/kernel/process.rs:82-89 | the ring's contents get the entry at the end; a full ring stays as it is |
| Scheduler.RunQueue.Pop | src/kernel/process.rs:91-99 | the oldest entry is returned and removed; an empty ring yields nothing |
| Scheduler.ProcessTable.AllocPid | src/kernel/process.rs:118-122 | the id returned is the old counter; the counter wraps from its largest value to 1 |
| Scheduler.ProcessTable.CreateProcess | src/kernel/process.rs:178-206 | the new table is that of the value model: first free slot filled, context placed, index queued |
| Scheduler.ProcessTable.SetProcessState | src/kernel/process.rs:357-368 | only the state of the first process with the id changes; reports whether there is one |
| Scheduler.ProcessTable.DequeueNextRunnable | src/kernel/process/scheduler.rs:140-158 | the rotating loop computes the value-level dequeue, result and table |
| Scheduler.ProcessTable.ScheduleFromIrq | src/kernel/process/scheduler.rs:21-115 | the table, the CURRENT array and the frame returned are those of the value model on every branch |
| Scheduler.ProcessTable.StartOnCpu | src/kernel/process/scheduler.rs:117-138 | the table and the entry and stack top handed over are those of the value model; absent where the source panics |
| SchedulerSafety.QueueHasRoom | src/kernel/process.rs:82-89 | a queue of distinct slot indices has room for any index not in it, so the silent drop never happens |
| SchedulerSafety.CreationSafe | src/kernel/process.rs:178-206 | creation keeps the invariant and appends an index that was not queued |
| SchedulerSafety.DequeueSafe | src/kernel/process/scheduler.rs:140-158 | the dequeued process was queued and runnable and is no longer queued; everything else stays |
| SchedulerSafety.IrqSafe | src/kernel/process/scheduler.rs:29-73 | a scheduling interrupt keeps the invariant, even after states were changed from outside |
| SchedulerSafety.StartSafe | src/kernel/process/scheduler.rs:117-136 | a start keeps the invariant, and panics exactly when nothing can be dequeued |
| SchedulerSafety.SetStateSafe | src/kernel/process.rs:357-368 | changing the state of any process at any time keeps the invariant |
| SchedulerSafety.ExecSafe | src/kernel/process/scheduler.rs:21-158 | every run from a state that satisfies the invariant ends in one |
| SchedulerSafety.OneCpuPerProcess | src/kernel/process/scheduler.rs:29-73 | in every reachable state, arbitrary state changes included: no process is current on two CPUs; a current process has running_on equal to its CPU and is not queued; the queue has no duplicates and in_run_queue says exactly who is in it |
| SchedulerFairness.StepConserved | src/kernel/process/scheduler.rs:41-73 | without outside state changes, every process is queued and ready or current and running after every step |
| SchedulerFairness.ExecConserved | src/kernel/process/scheduler.rs:29-73 | so after every quiet run |
| SchedulerFairness.QueuePlusBusyIsLive | src/kernel/process/scheduler.rs:41-73 | then queue length plus busy CPUs equals the number of processes |
| SchedulerFairness.StartFailsExactlyWhen | src/kernel/process/scheduler.rs:121-121 | a start on an idle CPU panics exactly when every process is already on a CPU |
| SchedulerFairness.NeverPanics | src/kernel/process/scheduler.rs:121-121 | with at least as many processes as CPUs no run panics |
| SchedulerFairness.BootNeverPanics | src/main.rs:144-151 | booting with four or more creations and continuing in any way never panics |
| SchedulerFairness.FifoLaw | src/kernel/process/scheduler.rs:41-73 | over any run, what was dispatched followed by the final queue is the initial queue followed by what was enqueued |
| SchedulerFairness.BoundedWaiting | src/kernel/process/scheduler.rs:41-73 | the process at queue position k is dispatched at exactly the (k+1)-th dispatch by any CPU, whatever is created meanwhile, and keeps its distance until then |
| SchedulerFairness.PreemptedRunsAgain | src/kernel/process/scheduler.rs:54-62 | a process preempted when q were queued goes last and runs again at exactly the q-th further dispatch |
| SchedulerFairness.WaitEndsInTime | src/kernel/process/scheduler.rs:41-73 | after k+1 scheduler calls position k has been dispatched: interrupts cannot pass without dispatching while someone waits |
| SchedulerFairness.ExecNumbered | src/kernel/process.rs:118-122 | live process ids stay distinct and below the counter over every run in which it does not wrap |
| SchedulerFairness.SetStateTouchesOneProcess | src/kernel/process.rs:357-368 | in reachable states set_state changes exactly the one process with that id, and reports whether it exists |
| SchedulerContext.ContextHandOff | src/kernel/process/scheduler.rs:29-73 | over every run, the frame handed out when a process is dispatched is the one passed in at its last interrupt, or its initial frame if it has had none |
| SchedulerContext.FirstEntryAgrees | src/arch/aarch64/exception.S:196-199 | restoring the initial frame and starting directly give the same entry and stack pointer exactly when the stack top is 16-byte aligned |
| SchedulerContext.KernelStacksAgree | src/kernel/process.rs:181-186 | the kernel's own stacks always satisfy that condition |
| SchedulerStacks.CreationGivesStack | src/kernel/process.rs:178-206 | the process in slot i gets the i-th stack of 512 KiB, its first frame on it, or the stack its creator asked for |
| SchedulerStacks.EveryProcessHasItsStack | src/kernel/process.rs:181-186 | over every run in which the kernel chooses the stacks, slot i has the i-th stack, so no two processes share one; where interrupts find their frames on the stack of the process they hit, every saved frame of 288 bytes lies on its process's stack |
| SchedulerStacks.ReturnsOntoOwnStack | src/kernel/process/scheduler.rs:29-73 | then every interrupt returns to a frame on the stack of the process it resumes |
| SchedulerStates.OnlyReadyRuns | src/kernel/process/scheduler.rs:140-158 | whatever is put on a CPU, by a start or an interrupt of that CPU alone, was queued, ready and on no CPU |
| SchedulerStates.SleeperStep | src/kernel/process/scheduler.rs:29-62 | a blocked or terminated process stays so over every event but a set_state, except that an interrupt of the CPU it occupies makes it running if and only if nothing queued may run |
| SchedulerStates.SleeperSleeps | src/kernel/process/scheduler.rs:140-158 | off the CPUs it keeps its state and is put on none over every run that does not set it |
| SpinLock.MicroIsAtomic | src/kernel/process/scheduler.rs:26-99 | the small steps of a critical section, run without interruption, compute the atomic step, result included |
| SpinLock.MutualExclusion | src/util/sync.rs:20-44 | in every interleaving of compare-exchange, try_lock, spinning, body steps, release and interrupts, of waiters and of the holder, by any number of cores at most one holds the lock, and the flag is set exactly when one does |
| SpinLock.ReleaseCommits | src/util/sync.rs:65-69 | at a release the table and the result are those of the holder's atomic step from the table at its entry |
| SpinLock.LockReduction | src/util/sync.rs:20-69 | every fine-grained run has, at its release points, the tables and results of a run of atomic scheduler steps in release order |
| SpinLock.StuckExactly | src/util/sync.rs:20-32 | in no continuation of a run is the lock ever free again if and only if an interrupt has hit its holder inside the critical section or the holder is bound to panic |
| SpinLock.InterruptSticks | src/kernel/process/scheduler.rs:117-137 | from every run with a core inside a section other than a handler's, one interrupt leads to such a run |
| SpinLock.WaiterCommits | src/util/sync.rs:20-44 | a core that waits for a free lock, spins on it or tries it may take it, and completes its section if that does not panic |
| SpinLock.EveryRunHappens | src/util/sync.rs:20-69 | the converse of the reduction: every run of atomic scheduler steps that does not panic is what some fine-grained run commits, in its order and with its table |
| Layout.AlignUpIs | src/mm/layout.rs:10-12 | the least multiple not below the value, when the sum does not overflow |
| Layout.AlignUpWraps | src/mm/layout.rs:10-12 | 0 when it does |
| Layout.AlignDownIs | src/mm/layout.rs:15-17 | the largest multiple not above the value |
| Layout.PhysVirtInverse | src/mm/layout.rs:20-27 | the two address conversions are inverse on all 64-bit addresses |
| Layout.MaskIsFloor | src/mm/layout.rs:10-17 | on 64-bit words the masks for pages and blocks subtract the remainder |
| Layout.WordMaskIsFloor | src/mm/bootalloc.rs:22-23 | so does the mask of an 8-byte alignment |
| Layout.FrameMaskIsFloor | src/kernel/process.rs:335-343 | so does the 16-byte stack mask |
| Layout.TokenMaskIsFloor | src/mm/dtb.rs:980-982 | so does the 4-byte token mask |
| Layout.WrappingBase | src/mm/layout.rs:19-27 | subtracting the kernel base wraps like adding its complement |
| Layout.ShiftIsDivision | src/mm/paging.rs:431-432 | the shifts and masks for table indices are division and remainder |
| RegionModel.TableHoldsOffers | src/mm/region.rs:45-53 | the table holds the first 128 non-empty regions offered, in order, with saturated ends |
| MemoryMaps.MemoryMap.AddRegion | src/mm/region.rs:45-53 | the table grows by the region unless it is empty or the table is full |
| MemoryMaps.SortU64 | src/mm/region.rs:214-227 | the prefix becomes sorted, a permutation of what it was, and the rest stays |
| MemoryMaps.MemoryMap.Sweep | src/mm/region.rs:77-102 | the pushed spans are the first 128 of the sweep over the boundaries |
| MemoryMaps.MemoryMap.Normalize | src/mm/region.rs:66-106 | the result is a normalisation of the table: spans over its sorted boundaries, merged and aligned |
| MemoryMaps.NormalizedMap.MergeAdjacent | src/mm/region.rs:156-181 | the regions become the merged list of the specification |
| MemoryMaps.NormalizedMap.AlignUsable | src/mm/region.rs:183-200 | each region becomes its aligned form |
| RegionModel.MergedMeaning | src/mm/region.rs:156-181 | merging changes the kind of no address |
| RegionModel.MergedMapSound | src/mm/region.rs:66-103 | even when spans were dropped, the merged map is sorted, disjoint, without touching neighbours of one kind, and gives no address another kind than the highest-priority raw region |
| RegionModel.NormalisationPreservesMeaning | src/mm/region.rs:66-103 | each address has in the merged map exactly the highest-priority kind among the raw regions containing it, or none, if and only if the sweep yields at most 128 spans |
| RegionModel.AlignedKeepsPages | src/mm/region.rs:183-200 | the aligned region holds exactly the whole pages of the original if and only if it starts at or below 2^64 - 4096 |
| RegionModel.NormalisedSound | src/mm/region.rs:66-106 | the final map is in order, true to the raw regions, page aligned where usable, and its usable regions are the whole pages of the merged ones |
| RegionModel.MapStarts | src/mm/region.rs:66-106 | a usable region of the merged map, truncated or not, starts where usable memory begins, so only a late start can make alignment wrap |
| BootAlloc.BootAllocator.Alloc | src/mm/bootalloc.rs:19-31 | aligned, above everything handed out before; fails if and only if the position is 0 or the saturating sum passes the window end |
| BootAlloc.TwoChunksAreDisjoint | src/mm/bootalloc.rs:19-31 | a later chunk starts at or above the end of an earlier one if and only if that end does not pass the top of the address space |
| FrameModel.WordBits | src/mm/frame.rs:178-197 | setting or clearing one bit of a 64-bit word changes that bit and no other |
| Frames.FrameAllocator.SetBit | src/mm/frame.rs:186-190 | exactly that frame becomes used |
| Frames.FrameAllocator.ClearBit | src/mm/frame.rs:193-197 | exactly that frame becomes free |
| Frames.FrameAllocator.MarkFree | src/mm/frame.rs:110-118 | exactly the whole pages of the range become free |
| Frames.FrameAllocator.MarkUsed | src/mm/frame.rs:120-128 | exactly the pages the range touches become used |
| Frames.FrameAllocator.AllocFrame | src/mm/frame.rs:130-141 | the lowest free frame is claimed and nothing else; failure means there is none |
| Frames.FrameAllocator.AllocContiguous | src/mm/frame.rs:143-168 | the lowest run of free frames is claimed exactly; failure means no such run, or no pages asked for |
| Frames.FrameAllocator.FreeFrame | src/mm/frame.rs:170-176 | the frame of the address becomes free if it exists, and nothing else changes |
| FrameModel.FreeUndoesAllocation | src/mm/frame.rs:130-176 | freeing any address inside an allocated frame restores the set of free frames |
| FrameModel.FramesConserved | src/mm/frame.rs:130-176 | over any history of allocations and frees of held frames, held and free frames are disjoint and together the initial ones |
| FrameModel.HandedOutFresh | src/mm/frame.rs:130-168 | a frame just handed out was free at the start and is held by nobody else |
| Boot.AssembleMap | src/mm/mod.rs:182-217 | the raw map is extended by the kernel's, the blob's and the board's regions in order |
| Boot.ChooseWindow | src/mm/mod.rs:239-256 | the window ends with the first usable region that holds its start, else with the first usable region, else it is 0 |
| Boot.WindowEndIsUnique | src/mm/mod.rs:239-256 | that determines the end |
| Boot.FrameInit | src/mm/frame.rs:32-92 | an allocator starts if and only if there is usable RAM, the start is not 0 and one bit per frame below the end of usable RAM, in 64-bit words, fits the window; then the free frames are exactly the usable pages the boot allocator has not touched |
| MemorySafety.StartFrames | src/mm/mod.rs:239-281 | initialisation stops without usable RAM if and only if there is none; the allocator starts if and only if the bitmap fits the window, which ends by 2^64 - 4096 |
| MemorySafety.BitmapPlacement | src/mm/mod.rs:241-252 | the bitmap lies wholly in usable RAM if and only if some usable region holds the page after the kernel |
| MemorySafety.HandedOutFramesAreSafe | src/mm/frame.rs:130-176 | over all allocations and frees of held frames, each frame handed out lies wholly where the highest-priority region of the table is usable RAM, meets no kernel, stack, blob, reserved or MMIO region of the table and not the bitmap, and is not already held, whether or not spans were dropped |
| Frames.FrameAllocator.ServeAll | src/mm/frame.rs:94-176 | any sequence of single, contiguous and free requests makes a valid ledger of exactly these requests, with frees of frames that nobody holds left out |
| MemorySafety.UsablePagesAreFree | src/mm/frame.rs:66-77 | when no spans were dropped, every whole page of usable RAM that the bitmap does not touch is free at the start |
| OfferModel.TableIsComplete | src/mm/region.rs:45-53 | the table holds every non-empty region offered if and only if there are no more than 128 |
| OfferModel.UsableIsPlainRam | src/mm/region.rs:45-106 | then an address is usable to the table if and only if it was offered as usable RAM and as nothing else |
| OfferModel.KindsInOrder | src/mm/region.rs:80-106 | then an address is the kernel's image, its stack, the blob, reserved, MMIO or RAM, by the first of these that it was offered as |
| Descriptors.TableDescDecodes | src/mm/paging.rs:467-469 | a table descriptor decodes to its page-aligned address |
| Descriptors.BlockDescAddress | src/mm/paging.rs:471-482 | a block descriptor is a valid, accessed block with the address given |
| Descriptors.BlockDescAttrs | src/mm/paging.rs:471-482 | its attribute index, access permissions, shareability and both execute-never bits decode to those given |
| Descriptors.FieldsAreProducts | src/mm/paging.rs:471-482 | each shifted field of the source's formula is the product used in the model |
| Descriptors.SourceBlockDescIsSum | src/mm/paging.rs:471-482 | the ors of the source are the modelled sum, with each field cut to its width |
| Descriptors.SourceTableDescIsSum | src/mm/paging.rs:467-469 | the source's table descriptor formula is the sum used in the model |
| PagingModel.WalkReadsEntry | src/mm/paging.rs:420-469 | the hardware walk through all levels gives what the block's descriptor in the flat view says |
| PagingModel.WalkElsewhereFaults | src/mm/paging.rs:115-127 | every address under another level-0 entry faults |
| PagingModel.WithTableKeeps | src/mm/paging.rs:449-464 | taking a pool table for an empty level-1 entry keeps the invariant and maps nothing new |
| PagingModel.WithBlockSets | src/mm/paging.rs:431-435 | writing one block descriptor keeps the invariant, changes that block's mapping and no other |
| Paging.PageTables.Reset | src/mm/paging.rs:115-127 | the tree is well formed and maps nothing, whatever the tables held |
| Paging.PageTables.GetL2Table | src/mm/paging.rs:438-465 | the table returned is the pool table of the entry, filled on demand; the invariant holds and no mapping changes |
| Paging.PageTables.MapBlock | src/mm/paging.rs:420-436 | exactly the block's descriptor changes, to the encoded one |
| Paging.PageTables.MapRange | src/mm/paging.rs:395-418 | the block-rounded range holds descriptors for consecutive addresses from the rounded physical start; every other block is as before |
| Paging.PoolSuffices | src/mm/paging.rs:449-458 | with an empty level-1 entry fewer than 512 pool tables are in use, so the idle loop on exhaustion cannot be reached |
| Paging.PoolSound | src/mm/paging.rs:438-465 | distinct level-1 entries lead to distinct pool tables, the pointer rebuilt from a descriptor is that table's, and next_l2 is the number of filled entries, at most 512 |
| Paging.WalkAfterRange | src/mm/paging.rs:395-418 | after a range call the walk gives rounded start plus distance and the attributes inside, and what it gave before elsewhere |
| Paging.OffsetsPreserved | src/mm/paging.rs:410-418 | an address o bytes into the range lands o bytes after the physical start if and only if the two starts are congruent modulo 2 MiB |
| AddressSpace.LastCallIs | src/mm/paging.rs:129-180 | the last of the calls touching a block, and none exactly when no call touches it |
| AddressSpace.Init | src/mm/paging.rs:103-186 | both trees hold, for every block, the descriptor of the last range call that touches it, over the RAM calls and then the device calls |
| AddressSpace.MapRam | src/mm/paging.rs:129-175 | every region that is not MMIO is mapped in both trees, capped and skipped as in the source |
| AddressSpace.MapMmio | src/mm/paging.rs:227-393 | the device windows are mapped in both trees, in order, after RAM |
| AddressSpace.BothSpacesAreIdentity | src/mm/paging.rs:103-211 | below 512 GiB the kernel address of a and the user address a both translate to a, each with the attributes of the last call covering it, and fault exactly when none does |
| AddressMap.RamIsIdentityMapped | src/mm/paging.rs:129-175 | every non-MMIO address within the cap is mapped to itself in both spaces |
| AddressMap.RamEndsAsNormalMemory | src/mm/paging.rs:149-174 | where no device call reaches, RAM ends as inner-shareable executable Normal memory, accessible to user code in the user space and to the kernel alone in the other |
| AddressMap.MappedExactly | src/mm/paging.rs:129-180 | below 512 GiB both spaces hold exactly the blocks that the mapped part of a non-MMIO region or a device window reaches into, each address at itself |
| AddressMap.UsablePageIsReachable | src/mm/paging.rs:136-161 | a whole page of usable RAM is reachable through the physical map; on the Raspberry Pi 5 when it ends within the first 1 GiB of its region |
| BootLimits.CappedRamIsUnmapped | src/mm/paging.rs:135-144 | after a Raspberry Pi 5 boot with 4 GiB of RAM, any kernel the linker script can place, and the SoC window, the page at 3 GiB is usable and faults |
| AddressMap.DeviceWindowsEndAsDevice | src/mm/paging.rs:309-392 | on the Raspberry Pi 5 every address of the SoC, RP1 and extra windows ends as Device memory at its own address, in both spaces |
| AddressMap.QemuWindowIsNormalMemory | src/mm/paging.rs:283-307 | on QEMU an address of the graphics window, peripherals included, ends as Normal memory if and only if the extra window does not touch its block |
| AddressMap.QemuPeripheralsAreNormalMemory | src/mm/paging.rs:283-307 | so every peripheral register ends as Normal memory on QEMU |
| AddressMap.UserReachesOnlyRam | src/mm/paging.rs:162-174 | user code may access a block if and only if the mapped part of some non-MMIO region reaches into it and no device call does |
| AddressMap.KernelSpaceIsPrivileged | src/mm/paging.rs:149-161 | nothing in the kernel tree is accessible to user code |
| AddressSpec.SpacesAreAsPrescribed | src/mm/paging.rs:103-393 | for every map and extra window, each address below 512 GiB translates in both spaces to exactly what an independent description prescribes: the windows of the board as written there, RAM with the cap of 1 GiB, attributes bit by bit, and faults everywhere else |
| AddressSpec.QemuLocalPeripheralsAreDevice | src/mm/paging.rs:258-281 | on QEMU 0x4000_0000 to 0x4020_0000 ends as Device memory for EL1 alone, not shareable and never executed, in both spaces |
| AddressSpec.RaspberryPiDevicesAreDevice | src/mm/paging.rs:309-392 | so do the SoC, RP1 and extra windows of the Raspberry Pi 5 |
| Fdt.Be32RoundTrip | src/mm/dtb.rs:973-978 | reading back four big-endian bytes gives the word |
| Fdt.OrOfBytes | src/mm/dtb.rs:973-978 | the source's shifts and ors are the weighted sum |
| Fdt.TokenAt | src/mm/dtb.rs:79-90 | a token that is read lies inside the block and the scan moves forward |
| Fdt.NextToken | src/mm/dtb.rs:79-130 | the loop body's decoding yields the specified token, at every offset of any block |
| Fdt.StringAt | src/mm/dtb.rs:962-971 | the bytes up to the terminator; empty outside the block |
| Fdt.TokensOfTree | src/mm/dtb.rs:79-182 | where a tree's tokens stand in a block, scanning yields the tree's events and then what follows |
| Fdt.SerialisedStands | src/mm/dtb.rs:79-182 | the serialised bytes of a tree, at any aligned position, are such tokens |
| Fdt.RoundTrip | src/mm/dtb.rs:79-182 | scanning the serialised structure block of any tree, NOPs anywhere and anything after FDT_END, yields exactly its events |
| Fdt.RoundTripWithoutEnd | src/mm/dtb.rs:79-182 | so does a block that ends with the tree's items, without FDT_END |
| Fdt.CutProperty | src/mm/dtb.rs:115-130 | a property cut off by the end of the block is read if and only if none of its value is missing |
| Cells.ReadCells | src/mm/dtb.rs:894-906 | as many cells as are asked for and present, shifted into 64 bits |
| Cells.CellsAreBigEndian | src/mm/dtb.rs:894-906 | that value is the big-endian number of the bytes modulo 2^64 |
| Cells.ShiftInCell | src/mm/dtb.rs:902 | the shift and or of the source on 64-bit words are the modelled step |
| Cells.CellsRoundTrip | src/mm/dtb.rs:894-906 | a value written as any number of cells that holds it reads back unchanged |
| Cells.LastTwoCells | src/mm/dtb.rs:908-917 | reading only the last two cells gives the same value as reading all |
| Cells.ReadCellsTrunc | src/mm/dtb.rs:908-917 | the last two of the cells asked for, as much of them as a slice of any length holds, and 0 when it holds none; on a slice of exactly the cells asked for, equal to reading all of them |
| DtbRegions.RegPanicsExactly | src/mm/dtb.rs:152-174 | a reg property panics if and only if the two cell counts wrap to a non-zero sum and one entry of that size fits the value |
| DtbRegions.RegRoundTrip | src/mm/dtb.rs:152-175 | any list of addresses and sizes written as a reg property, in any cell counts that hold them, is read back as exactly those, in order |
| DtbRegions.AddReg | src/mm/dtb.rs:152-175 | the regions of all entries are added in order, or the panic is reported |
| DtbRegions.ScanRegions | src/mm/dtb.rs:70-183 | the loop with its 32-entry stack adds exactly the regions of the event-level specification |
| DtbRegions.RegionsOfTree | src/mm/dtb.rs:83-178 | scanning a tree's events with a stack is visiting the tree recursively, at any depth that fits the stack |
| DtbRegions.ScanIsWalk | src/mm/dtb.rs:79-183 | for every tree at most 32 levels deep, scanning its structure block offers exactly the regions of the recursive walk, in order, with inherited cells and flags, and panics exactly when the walk does |
| DtbSpec.WalkMeetsSpec | src/mm/dtb.rs:98-165 | inside a node of an orderly tree the walk reads reg with the parent's declared cells, as the specification does |
| DtbSpec.OrderlyTreesMeetSpec | src/mm/dtb.rs:98-165 | a whole orderly tree is read as sections 2.3.5 and 2.3.6 of the Devicetree Specification prescribe |
| DtbSpec.WalkIsReadings | src/mm/dtb.rs:83-178 | the walk is its reg properties in document order, each read in the context held there |
| DtbSpec.MeetsSpecExactly | src/mm/dtb.rs:98-175 | a tree shape is read as the specification prescribes for all values of its reg properties if and only if at each of them the cells held and the cells the parent declares read alike |
| DtbSpec.OrdinaryAlike | src/mm/dtb.rs:152-174 | for cell counts that neither vanish nor wrap, they read alike if and only if no flag is set or the cells are equal |
| DtbLimits.DefaultCellsDiffer | src/mm/dtb.rs:91-101 | a memory node below a root without cell properties is found by the specification and missed by the code |
| DtbLimits.MemoryTreeOffers | src/mm/dtb.rs:83-178 | a tree with any extents of memory and of reserved memory offers exactly these |
| DtbSpec.ReservedExactly | src/mm/dtb.rs:98-175 | inside a reserved node all regions are reserved if and only if no reg that is reached and holds an entry stands under a node named "memory…" or after a device_type "memory…" |
| DtbLimits.DeviceTypeExposes | src/mm/dtb.rs:143-172 | a reserved buffer with such a device_type is offered as usable RAM |
| DtbLimits.NameExposes | src/mm/dtb.rs:102-107 | so is one with such a name |
| DtbRegions.Parse | src/mm/dtb.rs:46-186 | nothing for address 0 or a wrong magic; otherwise the regions of the blob's structure block and its total size |
| DtbRegions.BlobYieldsWalk | src/mm/dtb.rs:46-186 | a blob whose structure block is a tree's, wherever its blocks stand, is parsed into the tree's regions |
| DtbBlob.BlobIsParsed | src/mm/dtb.rs:46-186 | memory that begins with the ten header words of section 5.2 and holds a tree's structure block and strings at the offsets written there is parsed into that tree's regions, panics included, with the size written |
| DtbBlob.WrittenIsParsed | src/mm/dtb.rs:46-186 | so is a tree written as a compiler lays it out, whatever follows in memory |
| DtbBlob.WrittenMemoryIsOffered | src/mm/dtb.rs:46-186 | any RAM and reserved memory so written is offered as just that |
| DtbBlob.BlobIsSearched | src/mm/dtb.rs:615-844 | a search by path in such memory is the recursive search through the tree |
| DtbSearch.FindRegInBlob | src/mm/dtb.rs:615-844 | the search reads the header, and answers nothing on a wrong magic |
| DtbDepth.DeeperTreesLoseReservations | src/mm/dtb.rs:83-114 | in a tree 33 levels deep the parser loses reserved memory that the recursive walk offers |
| DtbSpec.PlainTreesOfferNothing | src/mm/dtb.rs:102-175 | a tree in which no name and no device_type marks memory offers nothing |
| BusRanges.Translate | src/mm/dtb.rs:865-892 | the loop from parent to root computes the level-by-level translation |
| BusRanges.TranslationComposes | src/mm/dtb.rs:865-892 | translating through outer and inner levels is translating through the inner and then the outer ones |
| BusRanges.NoRangesIsIdentity | src/mm/dtb.rs:873-888 | a level without ranges may be left out anywhere in the chain |
| BusRanges.AbsentExactlyWhenBlocked | src/mm/dtb.rs:873-887 | there is no translation if and only if some level has ranges and none of its windows holds the address that arrives there |
| BusRanges.OffsetsArePreserved | src/mm/dtb.rs:877-880 | two addresses through the same windows keep their distance |
| BusSpec.TranslationMeetsSpecExactly | src/mm/dtb.rs:865-892 | the translation is that of section 2.3.8 if and only if every level the address reaches has ranges and no needed window past the fourth or at the last address, or some level blocks it in the code and some level by the specification |
| PathSpec.WindowsReadExactly | src/mm/dtb.rs:747-778 | a ranges property is decoded as with the declared cells, whatever it holds, if and only if the cells held decode alike |
| PathSpec.RegisterReadExactly | src/mm/dtb.rs:799-816 | the first entry of a reg property is read as with the declared cells, whatever it holds, if and only if the cells held read alike |
| PathSpec.RegisterMeetsSpec | src/mm/dtb.rs:634-844 | at every register the search reaches, the windows on the stack are those the specification sees where each bus's property was read with cells that decode like the declared ones, and the entry is read as with the parent's declared cells if and only if the held ones read alike |
| PathLimits.DefaultRegisterIsMissed | src/mm/dtb.rs:799-816 | the register of a device below a root without cell properties is there by the specification and missed by the search |
| PathLimits.EarlyRangesAreMissed | src/mm/dtb.rs:747-778 | behind a bus whose ranges stand before its cell properties the search reports the untranslated address |
| PathLimits.LongPathsAreCut | src/mm/dtb.rs:669-681 | a node with a path over 256 bytes is missed under its path and found under the first 256 bytes of it |
| PathOrder.ArrangedTreesMeetSpec | src/mm/dtb.rs:634-844 | in a tree whose nodes have reg, cell properties, ranges and children in this order, every register reached is read with the cells its parent declares, and every bus between the root and it is seen as the specification does |
| PathSettings.SettingsStoodBefore | src/mm/dtb.rs:779-798 | at a register that is reached, shift, width and clock are the words of the last reg-shift, reg-io-width and clock-frequency of at least four bytes that stood at the target before it, 0, 4 and none without one, and skip_init says whether a skip-init stood there |
| PathSettings.AnswersExactly | src/mm/dtb.rs:799-833 | the search of a tree answers if and only if it reaches a register that holds an entry, and answers what that comes to |
| BusSpec.SpecAbsentExactlyWhenBlocked | src/mm/dtb.rs:865-892 | by the specification there is no translation if and only if some level lacks ranges or has no window for what arrives there |
| BusSpec.AbsentPasses | src/mm/dtb.rs:873-888 | below a node without ranges the specification has no translation and the code the identity |
| BusSpec.FifthWindowIsLost | src/mm/dtb.rs:753-756 | an address in the fifth of five windows has a translation that the code misses |
| BusSpec.LastAddressIsLost | src/mm/dtb.rs:875-880 | so has the last address of all |
| BusRanges.ReadRanges | src/mm/dtb.rs:747-778 | the first four entries are decoded in order; a panic exactly where slicing would fail |
| BusRanges.RangesRoundTrip | src/mm/dtb.rs:747-778 | any list of windows written as a ranges property is read back as its first four, each field in its place |
| BusRanges.SliceableIs | src/mm/dtb.rs:748-769 | an entry can be sliced if and only if the three cell counts do not wrap |
| DtbPath.BeginTracks | src/mm/dtb.rs:658-703 | entering a node keeps the path buffer equal to the slash-joined names of the open nodes, and the saved lengths right |
| DtbPath.EndTracks | src/mm/dtb.rs:704-709 | leaving it returns exactly to the parent's path |
| DtbPath.FindOfTree | src/mm/dtb.rs:654-841 | scanning a tree's events with the buffers is the recursive search by full path |
| DtbPath.SearchIsWalk | src/mm/dtb.rs:615-844 | for trees at most 32 levels deep with paths of at most 256 bytes, searching the structure block is that recursive search |
| DtbPath.NoAnswerElsewhere | src/mm/dtb.rs:779-833 | away from the target the search neither answers nor changes its settings |
| DtbPath.RegisterComesFromTarget | src/mm/dtb.rs:799-833 | a register result is what a reg property comes to that stands directly in a node whose full path is the target, with the nodes open there and the settings collected up to it |
| PathSpec.RegisterIsFirstEntry | src/mm/dtb.rs:799-833 | that is the first entry in the cells held for the node itself, translated |
| DtbPath.PhysicalIs | src/mm/dtb.rs:817-824 | an RP1 device always gets an address, at or above 4 GiB, the translated one if it is; any other device gets the translated one |
| DtbSearch.SmallBuf.SetFrom | src/mm/dtb.rs:434-451 | the buffer holds the text up to its terminator or the stop byte, cut at 256 bytes |
| DtbSearch.SmallBuf.PushName | src/mm/dtb.rs:669-681 | a slash and the name are appended as far as the buffer holds them |
| DtbSearch.FindPhysical | src/mm/dtb.rs:817-824 | the translated address, with the fallback for RP1 paths |
| DtbSearch.BeginNodeAt | src/mm/dtb.rs:658-703 | the arrays and the buffer change as the scan's specification says, saved lengths included |
| DtbSearch.EndNodeAt | src/mm/dtb.rs:704-709 | node and path are popped as specified |
| DtbSearch.FindRegByPath | src/mm/dtb.rs:634-844 | the loop over any block answers as the event-level search does |
| KernelBoot.BootMemory | src/mm/mod.rs:146-306 | parsing, assembly, normalisation, window choice, frames and page tables in sequence: the map is a normalisation of the first 128 non-empty regions offered; unless it holds no usable RAM both address spaces are complete; and an allocator runs on it if and only if the bitmap fits the window |
| KernelBoot.BootAndServe | src/mm/mod.rs:146-306 | boot followed by any requests: every frame ever handed out is usable RAM by the table, clear of the bitmap, held by nobody else, and reached by the kernel if and only if its block is mapped; with no more than 128 non-empty regions offered, it was offered as usable RAM and meets nothing that the tree, the kernel or the board offered as anything else |
| KernelBoot.FrameMappedExactly | src/mm/paging.rs:129-180 | the kernel reaches a frame if and only if the mapped part of a region or a device window reaches into its block |
| KernelBoot.BitmapIsReached | src/mm/frame.rs:48-58 | a bitmap in usable RAM is reached at its physical address through the user tree, on the Raspberry Pi 5 if it ends within the first 1 GiB of its region |
| KernelBoot.OnlyTheRaspberryPiCaps | src/mm/paging.rs:134-144 | on QEMU every page of usable RAM lies in the mapped part of its region |
| BootLimits.BootedFromATree | src/mm/dtb.rs:83-178 | the trees of the boots below |
| BootLimits.CrowdedMapIsTruncated | src/mm/region.rs:80-106 | 65 regions of a device tree, whatever kernel and board, yield more than 128 spans, and the map is incomplete |
| BootLimits.CrowdedComesFromATree | src/mm/dtb.rs:83-178 | the tree that describes them |
| BootLimits.BitmapInReservedMemory | src/mm/mod.rs:239-256 | with the memory around the kernel reserved by the tree, for any kernel the linker script can place, the allocator starts with its bitmap in reserved memory |
| BootLimits.NoAllocatorBehindTheBlob | src/mm/mod.rs:239-256 | with the blob on the page after any such kernel no allocator starts although most of 1 GiB is usable |
| BootLimits.BitmapOutOfReach | src/mm/mod.rs:239-256 | with RAM above the kernel only, the allocator starts with its bitmap where nothing is mapped |
| BootLimits.KernelIsHandedOut | src/mm/region.rs:45-53 | with a tree of 128 regions, whatever kernel, blob and board, every page of the kernel image is among the free frames |
| BootLimits.OverfullComesFromATree | src/mm/dtb.rs:83-178 | such a tree |
| BootSpec.KindsAtBoot | src/mm/mod.rs:182-217 | for any tree, kernel, blob and board with no more than 128 regions, what each address is at boot: kernel, stack, blob, reserved by the tree, MMIO of the board, RAM or nothing, with the boards' addresses written out |
| BootSpec.FreeFramesExactly | src/mm/frame.rs:60-86 | with no more than 64 regions a frame is free at the start if and only if all of it was offered as usable RAM and as nothing else and the bitmap does not meet it |
| BootSpec.UnreadableBlob | src/mm/mod.rs:185-197 | a blob at address 0 or with other first bytes than 0xD00DFEED leaves the boot without one |
| BootSpec.QemuWithoutBlob | src/mm/mod.rs:192-208 | then on QEMU an address is usable if and only if it is below 8 GiB and outside the kernel, its stack and the peripherals |
| BootSpec.QemuStartsWithoutBlob | src/mm/mod.rs:239-281 | and an allocator starts when 256 KiB behind the kernel are clear |
| BootSpec.LinkedKernelStartsOnQemu | src/mm/mod.rs:239-281 | as they are for every kernel the linker script can place |
| BootSpec.RaspberryPiWithoutBlob | src/mm/mod.rs:187-256 | on the Raspberry Pi 5 nothing is usable then and no allocator starts |
| BootSpec.QemuBootIgnoresConsole | src/mm/mod.rs:157-169 | a boot on QEMU maps the peripherals as Normal memory whatever console its tree names |
| BootSpec.RaspberryPiBootMapsConsole | src/mm/mod.rs:157-169 | a boot on the Raspberry Pi 5 maps the 2 MiB around the console's registers as Device memory |
| KernelBoot.ConsoleIsDevice | src/mm/mod.rs:157-169 | on the Raspberry Pi 5 the console's registers end as Device memory at their own addresses in both spaces, as far as they share the 2 MiB block of the first |
| KernelBoot.HandedOutFramesAreSafeAndMapped | src/mm/mod.rs:146-306 | over all later allocations and frees, a frame handed out is usable RAM by the table, is held by nobody else, and every byte of it is reached at its physical-map address; on the Raspberry Pi 5 if it ends within the first 1 GiB of its region |
| KernelBoot.HandedOutFrameHasRegion | src/mm/frame.rs:130-168 | every frame handed out lies in one usable region of the map |
| Framebuffers.OffsetsAreDistinct | src/drivers/framebuffer.rs:235-240 | the 32-bit byte offsets of distinct pixels are distinct for any pitch that holds a row and any framebuffer up to 4 GiB |
| Framebuffers.ShiftAndMask | src/drivers/framebuffer.rs:229 | the shift and mask of a glyph bit are the modelled quotient and remainder |
| Framebuffers.Framebuffer.Clear | src/drivers/framebuffer.rs:163-170 | every visible pixel has the colour |
| Framebuffers.Framebuffer.ScrollRows | src/drivers/framebuffer.rs:172-198 | every pixel becomes the one so many rows below, background past the end, for any number of rows |
| Framebuffers.Framebuffer.DrawChar | src/drivers/framebuffer.rs:214-233 | exactly the visible part of the cell is painted with the doubled glyph |
| Framebuffers.GlyphDots | src/drivers/framebuffer.rs:216-230 | row r of a glyph from the top is shown in pixel rows 2r and 2r + 1, dot k from the left is the bit of weight 2^(7 - k) |
| Consoles.CellPixels | src/drivers/framebuffer.rs:214-279 | the picture of a cell of 16 by 8 pixels on the bytes of its glyph |
| Consoles.ConsoleShowsGlyphs | src/drivers/framebuffer.rs:267-293 | after any text the visible pixels of each cell are those of the glyph it holds |
| Consoles.ShownPixels | src/drivers/framebuffer.rs:272-274 | a character at the cursor changes the picture in its cell and nowhere else |
| Consoles.ScrolledPixels | src/drivers/framebuffer.rs:261-264 | the picture of the scrolled grid is the old picture moved up, for every screen height |
| Consoles.Console.NewLine | src/drivers/framebuffer.rs:258-265 | the screen becomes the one of the specification and the pixels stay its picture |
| Consoles.Console.PutChar | src/drivers/framebuffer.rs:267-279 | likewise for any byte; the cursor stays in range |
| Consoles.Console.WriteStr | src/drivers/framebuffer.rs:286-293 | after any text the pixels are the picture of the text typed on the screen |
| Consoles.ShowText | src/drivers/framebuffer.rs:300-313 | a console on any cleared framebuffer, even smaller than a character, shows the picture of the last lines of the text |
| Terminal.ScreenShowsLastLines | src/drivers/framebuffer.rs:243-293 | after any text, screen row r holds the line as far above the last one as r is above the cursor, and rows below the cursor are blank |
| Terminal.LinesKeepText | src/drivers/framebuffer.rs:267-279 | wrapping loses, adds and reorders nothing: the lines in sequence are the text without its newlines |
| Terminal.LinesOfPlainText | src/drivers/framebuffer.rs:275-278 | text without newlines breaks after every so many characters as there are columns |
| Terminal.LinesSplitAtNewline | src/drivers/framebuffer.rs:268-271 | a newline ends a line, and what follows is wrapped by itself |

## Left out

- Parents, names, modes, file descriptors and ttbr0 of processes: no scheduling decision reads them.
- The mailbox, interrupt controllers, UART, timers, system registers and the MMU switch: device I/O and system instructions without visible semantics.
- The syscall dispatcher, VFS lookup, the shell and the keyboard ring: straight-line branches, and a second ring of the same kind.
- The heap: a wrapper over an external linked-list allocator.
- The simple-framebuffer, stdout-path and alias scanners of the device tree: the same token loop again; the search takes its target path, and the boot model the console that was found, as parameters.
- Raw pointers and weak memory ordering: arrays and sequential consistency stand for them; a panic inside a critical section keeps the lock held, as in the source.
- AddressSpace.Init: requires the mapped part of every region to lie below 512 GiB; above that, blocks of different addresses share entries.
- AddressSpace.MapRam: the same bound as AddressSpace.Init, for the same reason.
- AddressSpace.MapMmio: requires the extra window to end by 512 GiB, for the same reason.
- Paging.PageTables.MapRange: requires the range to stay under one level-0 entry, for the same reason.
- Framebuffers.Framebuffer.PutPixel: pixels are rows and columns; the 32-bit offset does not wrap below 4 GiB of framebuffer.
- Fdt.Serialise: padding bytes are zero, as compilers of device trees emit them.
- DtbRegions.Parse: the memory from the blob's address on holds both blocks the header declares; the source reads it unchecked.
- KernelBoot.HandedOutFramesAreSafeAndMapped: on the Raspberry Pi 5 covers frames within the mapped 1 GiB of their region; BootLimits.CappedRamIsUnmapped is a boot where others fault.
- Log output, early UART marks and cache maintenance.
