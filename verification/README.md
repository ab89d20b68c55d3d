# ChudOS kernel model

A Dafny model of the parts of the ChudOS kernel whose correctness spans many functions: the memory manager,
the scheduler and its signals, the GemFS filesystem, and two small codecs. State that the kernel updates in
place is a class (`Kernel`, `TaskManager`, `SignalTask`, `Volume`) whose methods have the loops of the source;
each method is proved equal to a function on states, and the properties are proved about those functions.

`dafny verify dfyconfig.toml` checks everything.

## What is modelled

**Memory** (`Words`, `PageTables`, `AddressSpace`, `CopyOnWrite`, `Fork`, `MemoryRuns`, `Faults`, `CountedCopies`, `Teardown`,
`Exits`, `DirectMap`, `Boot`, `Launch`, `Access`, `Permissions`, `PermissionRuns`, `HeapOverlay`, `MemoryLimits`, `KernelMemory`,
`Bits`, `PageBits`). Physical memory is a sequence of frames of 512
untyped words. A walk follows words from a root, four levels deep, and builds tables on demand out of
`phys_frames`, first fit. A ghost map of roles says which frame is a table, at which level and for which part of
the address space. The invariant `Inv` says that the tables form a forest, one tree per root in the user half with
the slots above shared, that tables are the kernel's and user leaves name frames in use that are not the
kernel's, and that all roots hold the same entry for slot 256. `Safe` adds what copy-on-write needs: a frame has
no more mappings than references, or a single one, and a page that is writable is the only mapping of its frame.
`Views` is what the processes see. `MemoryRuns` compares runs of the machine with an eager machine that has no
frames, tables or sharing, and `Launch` starts those runs from the state the kernel boots into and lets programs
start and end in them. `Access` says, in addresses, which faults are served and which kill, and `Permissions` what the
processor lets a process do, entry by entry of a walk; both over whole runs. `Accounted` compares references with mappings from one state to the next. The model follows
a frame by its number; the runs thus assume a heap window apart from the direct map, which the kernel does not have
(`DirectMap`). `PageBits` and `Bits` relate the records used there to the bit masks of the source.

**Scheduler and signals** (`Registers`, `Scheduler`, `ByteMemory`, `Signals`). 512 task slots, a tick budget per
task, whole register frames saved and restored; runs are sequences of timer ticks, forced switches, computation
and kernel updates. Signals are nested acts: a handler is itself a sequence of computations and signals.

**GemFS** (`GemfsCodec`, `GemfsBitmap`, `GemfsTree`, `GemfsLayout`, `GemfsVolume`, `GemfsFiles`, `GemfsDriver`,
`GemfsNames`, `GemfsPaths`, `GemfsBlocks`). The disk is a map from block to sector. Each layer has its own notion
of what is right: bytes of a record, used blocks as an initial segment, the sibling lists of the tree, disjoint
extents, the chain of entries on disk. `VolumeOk` is their conjunction; it holds of a formatted volume and every
driver routine keeps it. The driver addresses drive F0, partition 1, where `GemFS_mkdir` looks for free entries
whatever its arguments say.

**Codecs** (`ArgStack`, `Division`, `DiskGeometry`). The argument stack of section 3.4.1 of the System V AMD64
ABI, without its alignment rule, and block/CHS conversion against the boot loader's carry stepping.

## Where the code departs from its intent

The code is modelled as written. Each departure has a lemma that states what it costs, most of them exactly when.

- A copy-on-write copy is not counted (`CowCopyMiscounts`). A later fork of that page is unsafe exactly then
  (`ForkSafeIff`), and one process reads what the other writes (`UncountedForkLeaks`). `RunRefines` therefore asks
  of a fork that the pages it shares are counted; with the count repaired nothing need be asked
  (`CountedRunRefines`). `BootedRunRefines` says both of every run from boot.
- A fault maps its pages without looking whether they are mapped. A page in the way is replaced by another frame and
  what it held is lost, exactly then (`FaultKeepsPagesIff`); so is a page that may not be written when it is written
  to. `LostPage` is a run, open to any process with a stack of one page, that loses a page this way. The old frame
  keeps its reference (`DemandFaultExactIff`, `CountedRunExactIff`). Two segments of a program that share a page do the
  same to each other.
- The stack loop counts pages up to the bottom of the stack in unsigned numbers. For a page of the stack above that
  bottom the count wraps (`StackGapIff`), and the loop replaces that page and all above it until memory is gone
  (`FaultInsideStack`); with memory enough, a fault can be served to its end exactly otherwise (`FaultCompletesIff`).
  Stack pages mapped by growth cannot be executed, so a jump into one is such a fault (`JumpIntoStack`).
- A process is killed for an access to the first byte of its own code, if a fault is what it takes (`OwnAddressKilledIff`):
  after `fork` neither process can write there (`FirstByteAfterFork`).
- MemoryData has one code range, as long as the program has pages. Pages of a segment past a gap lie outside it: they are
  not forked (`ForkOfLoadedIff`).
- `fork` forgets permissions: once its copy-on-write bit is resolved a page is writable, whatever it was, and the child
  may execute it (`ForkForgetsPermissions`).
- A process killed, or replaced by `exec`, leaves all its references behind (`ExitExactIff`). The EXIT system call does
  less: it clears the task's slot and tears nothing down, so the address space stays.
- The kernel's heap grows through the direct map: `malloc` keeps the direct map exactly when the frame it takes is the
  one whose page it takes (`MallocKeepsDirectMapIff`). After boot that holds of the first allocation exactly when the
  heap's PageCount ends where the kernel's frames do (`FirstMallocKeepsIff`); the first program loaded takes exactly the
  next six frames from the direct map, but for that first one (`FirstLoadDirectMapIff`), and its own stack page's frame
  if the kernel's frames end less than five past PageCount (`FirstStackFrameIff`).
- The allocator returns frame 0 when memory is exhausted (`FindFreeSpec`). Table creation and the copy-on-write
  path do not check (`EnsureExtendsIff`, `CowKeepsOwnershipIff`, `CowExhausted`).
- A kernel-address fault maps a frame without reserving it, or one that has just become a table
  (`KernelFaultReservesIff`), and replaces a page that was mapped (`KernelFaultKeepsIff`), for a user access too. It is
  no step of a run.
- `fork` over a page that is not mapped lets the next fault there map the kernel's frame 0 (`ForkHoleIff`, `ForkHole`).
- Kernel halves agree under slot 256 only (`OtherSlotsDisagree`).
- `IsCanonical` knows the lower half only (`IsCanonicalIff`).
- `WAIT` saves the next task's frame into the waiter (`WaitKeepsContextIff`).
- r8 is not part of a signal frame (`R8NotRestored`).
- The boot loader counts sectors in sixteen bits but counts down the low eight: it reads what it is asked for exactly
  up to 256 sectors, and 128 of the kernel's 384 (`ReadsAllIff`, `KernelCutShort`).
- Formatting clears block 2, not the bitmap's sector (`FormatLeavesSegmentIff`).
- The bitmap's byte index is not reduced to the sector read: blocks from 512 on are marked in a buffer only, and
  looked up in what it held before (`FbbGetBlock`, `FbbSetBlock`).
- The first creation of entry 1 looks for it through block 0 (`FirstCreationIff`).
- `GemFS_mkdir` accepts a file as a parent: operator precedence makes its test constant (`AddChildOkIff`). It also
  marks a block that nothing refers to (`MkdirLosesBlock`).
- Looking up a name in an empty directory reads the root (`LookupIsFirstMatchIff`), and the character after a
  slash is never looked at (`ScannedIsSplitIff`).

## Model

| member | source | states |
|---|---|---|
| AddressSpace.FindFreeSpec | src/kernel/drivers/LowLevel/Memory.c:468-476 | the allocator returns the lowest free frame exactly when one is free, and 0 otherwise |
| AddressSpace.EnsureToKeeps | src/kernel/drivers/LowLevel/Memory.c:260-304 | a walk consumes exactly as many free frames as it lacks tables, keeps the invariant, and changes no translation of any address space |
| AddressSpace.AllocIsLocal | src/kernel/drivers/LowLevel/Memory.c:307-370 | mapping is local: `alloc_page` at a user page retargets that page of the current address space, keeps every other translation of every root, kernel half included, and every other frame's accounting |
| AddressSpace.AllocMapsIff | src/kernel/drivers/LowLevel/Memory.c:307-370 | `alloc_page` maps a frame at a user page if and only if there is such a frame and it is neither dirty nor the kernel's; each refusal is told apart and changes nothing |
| AddressSpace.MapKernelIsLocal | src/kernel/drivers/LowLevel/Memory.c:283-304 | mapping a kernel page changes that page only, and in exactly those address spaces whose walk for it ends in the same page table |
| AddressSpace.MallocKeeps | src/kernel/drivers/LowLevel/Memory.c:479-504 | `malloc` gives the kernel the lowest free frame at the next heap page and leaves every user page and other kernel page of every root alone |
| AddressSpace.CreateUserMemoryKeeps | src/kernel/drivers/LowLevel/Memory.c:52-62 | a new root has an empty user half, the invariant and all other roots are kept |
| AddressSpace.NewRootSeesKernel | src/kernel/drivers/LowLevel/Memory.c:52-62 | a new root translates every page of the kernel half, under every slot, as the active one does |
| AddressSpace.KernelHalfAgrees | src/kernel/drivers/LowLevel/Memory.c:52-62 | in every state that meets the invariant all roots translate each page under slot 256 alike |
| AddressSpace.MallocSeenByAll | src/kernel/drivers/LowLevel/Memory.c:479-504 | a heap page mapped while one root is active is seen through all of them |
| CopyOnWrite.FreshFrameUnreachable | src/kernel/drivers/LowLevel/Memory.c:468-476 | what the allocator returns is no table, not the kernel's, and mapped in no address space |
| CopyOnWrite.AllocExactIff | src/kernel/drivers/LowLevel/Memory.c:307-370 | `alloc_page` keeps "references = user mappings" for every frame if and only if the page was not mapped |
| CopyOnWrite.ForkPageSafe | src/kernel/drivers/Userland/syscall.c:165-186 | sharing a counted page is safe, leaves all contents, and gives the child the parent's content of that page |
| CopyOnWrite.ForkPageExactIff | src/kernel/drivers/Userland/syscall.c:165-186 | one iteration of the loops keeps exact reference counts if and only if the child lacks the page |
| CopyOnWrite.CowFaultSafe | src/kernel/drivers/ErrorHandling/Exceptions.c:77-106 | resolving a CoW page makes it writable, keeps safety, and is invisible in every address space, in place or by copy |
| CopyOnWrite.CowInPlaceExact | src/kernel/drivers/ErrorHandling/Exceptions.c:81-87 | resolving in place keeps exact reference counts |
| CopyOnWrite.CowCopyMiscounts | src/kernel/drivers/ErrorHandling/Exceptions.c:88-106 | a copy keeps exact counts for every frame but the new one, which has one mapping and no reference |
| Fork.ForkPagesLeaf | src/kernel/drivers/Userland/syscall.c:164-215 | the complete loops change exactly the listed pages, in exactly the parent and the child |
| Fork.ForkLeaf | src/kernel/drivers/Userland/syscall.c:133-239 | the whole of fork on every user page of every address space: what the parent's and the child's entries keep and lose, and that no other changes |
| Fork.ForkExact | src/kernel/drivers/Userland/syscall.c:133-239 | the whole of fork, kernel stack included, keeps exact reference counts |
| Fork.CopyPagesContent | src/kernel/drivers/Userland/syscall.c:164-215 | the eager copy that fork stands for is the parent's image restricted to the two ranges |
| Fork.ForkSafe | src/kernel/drivers/Userland/syscall.c:133-239 | when shared pages are counted, fork is safe and shows each process what copying everything at once would show |
| Fork.ForkSafeIff | src/kernel/drivers/Userland/syscall.c:164-215 | the state after fork is safe if and only if every shared page was counted |
| Fork.UncountedForkLeaks | src/kernel/drivers/ErrorHandling/Exceptions.c:95-105 | after fork of an uncounted page the parent's next write to it is read by the child |
| MemoryRuns.DemandFaultSafe | src/kernel/drivers/ErrorHandling/Exceptions.c:107-134 | a fault gives the process its pages and no other process anything, and keeps every page the process had when none of them is in the way |
| MemoryRuns.DemandFaultStack | src/kernel/drivers/ErrorHandling/Exceptions.c:115-129 | after a fault at or below the stack's lowest page the stack is contiguous and reaches down to the faulting page |
| MemoryRuns.StackGapIff | src/kernel/drivers/ErrorHandling/Exceptions.c:119-121 | the loop's unsigned count is the number of missing pages exactly at or below the stack's lowest page |
| MemoryRuns.ForkedStack | src/kernel/drivers/Userland/syscall.c:188-215 | the child's stack is as contiguous as the parent's |
| MemoryRuns.StepRefines | src/kernel/drivers/ErrorHandling/Exceptions.c:35-145 | every step keeps the machine safe and stacks contiguous and is the same step of the eager machine |
| MemoryRuns.RunRefines | src/kernel/drivers/ErrorHandling/Exceptions.c:35-145 | CoW refines eager copying over every interleaving of writes, faults, forks and kernel allocations |
| Faults.FaultKeepsPagesIff | src/kernel/drivers/ErrorHandling/Exceptions.c:107-134 | however far it has got, a fault has kept every page the process has if and only if none of those it has mapped was mapped |
| Faults.FaultReplaces | src/kernel/drivers/ErrorHandling/Exceptions.c:107-134 | however far it has got, the pages a fault has mapped name frames that were free and hold what those held; other pages, user frames and free frames are kept |
| Faults.DemandFaultExactIff | src/kernel/drivers/ErrorHandling/Exceptions.c:107-134 | however far it has got, a fault has kept exact reference counts if and only if no page was in its way |
| Faults.FaultNeeds | src/kernel/drivers/ErrorHandling/Exceptions.c:107-134 | three free frames and four for each page missing are enough for a fault that is not inside the stack |
| Faults.FaultCompletesIff | src/kernel/drivers/ErrorHandling/Exceptions.c:115-129 | with that much memory a fault can be served to its end if and only if its page is not one of the stack's above the lowest |
| Faults.FaultInsideStack | src/kernel/drivers/ErrorHandling/Exceptions.c:115-129 | otherwise the loop replaces that page and those above it until fewer than four frames or no user pages are left |
| Faults.PagesPersist | src/kernel/drivers/ErrorHandling/Exceptions.c:35-145 | over any run whose faults meet no mapped page, a page keeps its content until its own process writes to it |
| Faults.LostPage | src/kernel/drivers/ErrorHandling/Exceptions.c:115-134 | any process with a one-page stack can touch a page below it, write to it and lose it by letting the stack grow |
| Faults.JumpIntoStack | src/kernel/drivers/ErrorHandling/Exceptions.c:115-129 | any process with a one-page stack can grow it by two pages and jump into the upper one: it is not killed, and the page is replaced by a loop that memory does not last for |
| CountedCopies.CountedRunRefines | src/include/LowLevel/Memory.h:175-189 | with a copy's mapping counted, as the frame record intends, the same holds with no condition on forks, and references without a mapping arise exactly from faults that map over a page |
| CountedCopies.CountedCowExact | src/kernel/drivers/ErrorHandling/Exceptions.c:77-106 | with the copy counted, resolving a CoW page keeps exact counts exact |
| CountedCopies.CountedRunExactIff | src/include/LowLevel/Memory.h:175-189 | over a whole run exact counts stay exact if and only if no fault maps over a page |
| Access.KillsIff | src/kernel/drivers/Userland/Tasks.c:38-45 | in addresses: a fault kills exactly outside the open code range, the open stack range and the four pages below the stack |
| Access.FaultRefusedIff | src/kernel/drivers/ErrorHandling/Exceptions.c:55-69 | a step of a run that maps or copies is possible if and only if memory lasts and the address is in one of the three |
| Access.OwnAddressKilledIff | src/kernel/drivers/Userland/Tasks.c:38-45 | an access to a page of its own kills a process exactly at the first byte of its code, unless that is near or in the stack |
| Access.FirstByteAfterFork | src/kernel/drivers/ErrorHandling/Exceptions.c:57-69 | after fork that byte's page is copy-on-write in both processes and a write to it kills; one to the next byte is served |
| Access.ForkForgetsPermissions | src/kernel/drivers/ErrorHandling/Exceptions.c:77-106 | a shared page is writable once resolved and the child's executable, whatever the page was before fork |
| Access.FaultServes | src/kernel/drivers/ErrorHandling/Exceptions.c:107-134 | in page numbers: which pages a fault maps, with what permissions, what it counts, and that it leaves the others |
| Access.PageFaultIsStep | src/kernel/drivers/ErrorHandling/Exceptions.c:35-145 | the handler kills, copies or maps exactly where the run's steps say, and leaves exactly their state |
| Access.RunLawful | src/kernel/drivers/ErrorHandling/Exceptions.c:35-145 | over any run that starts so, pages lie in their process's code range or at most four pages below its stack |
| Access.BootedRunLawful | src/kernel/drivers/Userland/Tasks.c:488-635 | so they do from boot on, when segments fit the range that MemoryData gives their program |
| Access.ForkOfLoadedIff | src/kernel/drivers/Userland/Tasks.c:534-573 | fork of a program just loaded copies all its pages if and only if its segments fit that range |
| Permissions.MapPageBuilds | src/kernel/drivers/LowLevel/Memory.c:283-304 | a walk adds entries that are present, writable and the user's exactly in the user half, and keeps those it finds |
| Permissions.AllocBuilds | src/kernel/drivers/LowLevel/Memory.c:307-370 | the entries `alloc_page` adds for a user page, at levels 4 to 2, are present, writable and the user's |
| Permissions.MallocBuilds | src/kernel/drivers/LowLevel/Memory.c:479-504 | those `malloc` adds, and its heap page, are present, writable and not the user's |
| Permissions.AccessIff | src/kernel/drivers/LowLevel/Memory.c:260-304 | the processor lets a process read exactly the user pages it has, and write and execute those whose last entry allows it |
| PermissionRuns.BootedRunPermits | src/kernel/drivers/LowLevel/Memory.c:260-304 | over every run from boot that is so in every address space, and what a process may write nobody else maps |
| Boot.BootDirectMapped | src/kernel/drivers/LowLevel/Memory.c:102-205 | in the initial state every frame is directly mapped |
| Launch.BootOk | src/kernel/drivers/LowLevel/Memory.c:102-205 | the initial state, the frames up to some number from PageCount on the kernel's and the rest free, meets every invariant, with exact counts and a complete direct map |
| Launch.LoadSafe | src/kernel/drivers/Userland/Tasks.c:488-635 | a loaded program has exactly its stack page and its segments' pages; safety and every other process's contents are kept |
| Launch.LoadGrants | src/kernel/drivers/Userland/Tasks.c:534-573 | each page of a loaded program is present, the user's, and writable and executable exactly as its segment says |
| Launch.StackGranted | src/kernel/drivers/Userland/Tasks.c:507-527 | its stack page is present, the user's, writable and executable |
| Launch.BootedRunRefines | src/kernel/drivers/Userland/Tasks.c:448-637 | from boot, over every interleaving of loads, writes, faults, forks, kernel allocations and process ends, the machine stays safe, stacks stay contiguous, and the processes see a history of the eager machine; with copies counted, counts end exact if and only if nothing mapped over a page and no process ended with pages |
| Launch.LoadAccount | src/kernel/drivers/Userland/Tasks.c:488-635 | loading leaves no reference without a mapping exactly when no two of its pages coincide |
| DirectMap.MallocKeepsDirectMapIff | src/kernel/drivers/LowLevel/Memory.c:479-504 | `malloc` keeps the direct map if and only if its page lies outside or is backed by the frame it stands for |
| DirectMap.MallocTimesDirectMap | src/kernel/drivers/LowLevel/Memory.c:479-504 | a row of heap pages puts every frame in use that it passes over out of the direct map's reach |
| DirectMap.DirectWalkIsWalk | src/kernel/drivers/LowLevel/Memory.c:283-304 | a walk that follows the direct map is the walk by frame number as long as the tables on it are directly mapped |
| HeapOverlay.FirstMallocKeepsIff | src/kernel/drivers/LowLevel/Memory.c:479-504 | the first allocation after boot keeps the direct map if and only if PageCount ends where the kernel's frames do |
| HeapOverlay.LoadLosesDirectMap | src/kernel/drivers/Userland/Tasks.c:488-635 | the kernel stack of a program loaded takes the direct map of the frames in use that it passes over |
| HeapOverlay.LoadDirectMapIff | src/kernel/drivers/Userland/Tasks.c:488-635 | when the allocator is past the heap's next frame, a program loaded takes from the direct map exactly the frames that the heap's six pages pass over, but for the first if it is backed by itself |
| HeapOverlay.FirstLoadDirectMapIff | src/kernel/drivers/Userland/Tasks.c:488-635 | the first program takes exactly the six frames past PageCount, but for the first if PageCount ends where the kernel's frames do |
| HeapOverlay.FirstStackFrameIff | src/kernel/drivers/Userland/Tasks.c:488-635 | its own stack page's frame is lost if and only if the kernel's frames end less than five past PageCount |
| MemoryLimits.EnsureExtendsIff | src/kernel/drivers/LowLevel/Memory.c:260-278 | table creation disturbs no frame in use exactly when the slot is taken or a frame is free |
| MemoryLimits.CowKeepsOwnershipIff | src/kernel/drivers/ErrorHandling/Exceptions.c:81-106 | resolving a CoW page keeps frame ownership exactly when it needs no copy or a frame is free |
| MemoryLimits.CowExhausted | src/kernel/drivers/ErrorHandling/Exceptions.c:95-105 | a copy on exhausted memory maps the kernel's frame 0 writable |
| MemoryLimits.ForkHole | src/kernel/drivers/Userland/syscall.c:165-186 | a hole in the range is marked CoW, the child gets nothing, and the parent's next fault there maps frame 0, whether or not there was a page table |
| MemoryLimits.ForkHoleIff | src/kernel/drivers/Userland/syscall.c:165-186 | the parent's next fault on a forked page keeps frame ownership if and only if the page was mapped |
| MemoryLimits.KernelFaultReservesIff | src/kernel/drivers/ErrorHandling/Exceptions.c:135-144 | after a kernel-address fault the next allocation returns the same frame if and only if the page's table existed; otherwise the frame mapped has become a table |
| MemoryLimits.KernelFaultKeepsIff | src/kernel/drivers/ErrorHandling/Exceptions.c:135-144 | a kernel-address fault keeps every kernel translation if and only if the page was not mapped, or just as the fault maps it |
| MemoryLimits.OtherSlotsDisagree | src/kernel/drivers/LowLevel/Memory.c:52-62 | a kernel page under a slot that another root lacks is not seen there |
| Teardown.TeardownIsLocal | src/kernel/drivers/Userland/Tasks.c:87-162 | clearing one address space leaves every translation of the others, and no present user entry in its own |
| Exits.ExitSafe | src/kernel/drivers/Userland/Tasks.c:87-162 | once torn down, the address space is gone, and every invariant and every other process's contents are kept |
| Exits.ExitExactIff | src/kernel/drivers/Userland/Tasks.c:87-162 | the end of a process keeps exact counts exact if and only if it mapped nothing |
| KernelMemory.Kernel.FindNextFreePhysical | src/kernel/drivers/LowLevel/Memory.c:468-476 | the scanning loop is first fit |
| KernelMemory.Kernel.EnsureEntry | src/kernel/drivers/LowLevel/Memory.c:260-278 | the in-place update is the state function `Ensure` |
| KernelMemory.Kernel.EntryTable | src/kernel/drivers/LowLevel/Memory.c:283-304 | three calls of EnsureEntry are the walk, and find its page table |
| KernelMemory.Kernel.AllocPage | src/kernel/drivers/LowLevel/Memory.c:307-370 | refusals and mapping alike are the state function `Alloc` |
| KernelMemory.Kernel.MallocPage | src/kernel/drivers/LowLevel/Memory.c:479-504 | the new state is `Malloc`, the result its heap page |
| KernelMemory.Kernel.NewAddressSpace | src/kernel/drivers/LowLevel/Memory.c:52-62 | the new state and root are those of `CreateUserMemory` |
| KernelMemory.Kernel.ResolveCow | src/kernel/drivers/ErrorHandling/Exceptions.c:77-106 | both CoW branches, with the copy through the bounce buffer, are `CowFault` |
| KernelMemory.Kernel.ForkAddressSpace | src/kernel/drivers/Userland/syscall.c:140-228 | both loops, with their switches of root, and the child's kernel stack are `Fork` |
| KernelMemory.Kernel.LoadProgram | src/kernel/drivers/Userland/Tasks.c:488-635 | creating the root, mapping the pages and the kernel stack in place is `Load` |
| KernelMemory.Kernel.ServeFault | src/kernel/drivers/ErrorHandling/Exceptions.c:107-134 | the demand branches, with the stack loop, are `DemandFault` |
| KernelMemory.Kernel.HandlePageFault | src/kernel/drivers/ErrorHandling/Exceptions.c:35-145 | the handler in place decides and does what `PageFault` says |
| KernelMemory.Kernel.FindFirstPresent | src/kernel/drivers/LowLevel/Memory.c:717-721 | the first present entry, or 512, whatever lies in the word past the table |
| KernelMemory.Kernel.FreeTaskMemory | src/kernel/drivers/Userland/Tasks.c:87-162 | the nested loops terminate, wipe exactly the dying root and its two levels of tables, end with another root active, and are `Exit` on states |
| Bits.CalculateOfExtract | src/kernel/drivers/LowLevel/Memory.c:212-237 | putting an address's pieces together gives the address back exactly when it is canonical |
| Bits.ExtractOfCalculate | src/kernel/drivers/LowLevel/Memory.c:212-237 | pieces in range survive the round trip |
| Bits.IsCanonicalIff | src/kernel/drivers/LowLevel/Memory.c:239-252 | the test holds of canonical addresses of the lower half only |
| PageBits.ForkEntry | src/kernel/drivers/Userland/syscall.c:172-173 | the masks of fork do to an entry's bits what the record model says |
| PageBits.AllocEntry | src/kernel/drivers/LowLevel/Memory.c:360-365 | the entry that alloc_page assembles has the fields of the record model |
| PageBits.CowEntry | src/kernel/drivers/ErrorHandling/Exceptions.c:79-87 | the resolved entry has the fields of the record model |
| Scheduler.FindNextSpec | src/kernel/drivers/LowLevel/Timer.c:40-48 | the next task is the nearest runnable one above the current, and task 0 exactly when there is none |
| Scheduler.TickSpec | src/kernel/drivers/LowLevel/Timer.c:93-136 | a tick keeps the task exactly while it has ticks left and is neither killed nor waiting; else the next one resumes, the outgoing is gone exactly if killed, and no other slot changes |
| Scheduler.ForceSpec | src/kernel/drivers/LowLevel/Timer.c:181-198 | a forced switch resumes the next task, gives the outgoing its ticks back, and wipes it exactly if killed |
| Scheduler.WaitSpec | src/kernel/drivers/Userland/syscall.c:289-303 | WAIT for a task of one's own makes the caller wait and runs the next task; for any other it does neither |
| Scheduler.TurnLasts | src/kernel/drivers/LowLevel/Timer.c:108-131 | a ready task keeps the processor for every tick it has left, each counted |
| Scheduler.TurnEnds | src/kernel/drivers/LowLevel/Timer.c:108-131 | and loses it at the tick after, to the next task, ready for a full turn |
| Scheduler.SwitchKeepsContexts | src/kernel/drivers/LowLevel/Timer.c:22-38 | a switch changes no task's context, the two involved included |
| Scheduler.ContextIntegrity | src/kernel/drivers/LowLevel/Timer.c:93-136 | over any run a task's registers are those of its own computation and the updates addressed to it |
| Scheduler.ResumedIntact | src/kernel/drivers/LowLevel/Timer.c:93-136 | a suspended task gets back exactly the frame it lost the processor with |
| Scheduler.WaitKeepsContextIff | src/kernel/drivers/Userland/syscall.c:289-303 | WAIT keeps the caller's context exactly when it does not switch, or the frames happen to agree |
| Scheduler.BudgetKept | src/kernel/drivers/LowLevel/Timer.c:108-131 | UsedTicks never exceeds MaxTicks in any run |
| Scheduler.BoundedWait | src/kernel/drivers/LowLevel/Timer.c:40-136 | a task that stays ready runs within the sum of (MaxTicks + 1) over the tasks that may run before it |
| Scheduler.TaskManager.FindNextTask | src/kernel/drivers/LowLevel/Timer.c:40-48 | the search loop is `FindNext` |
| Scheduler.TaskManager.TaskSwitch | src/kernel/drivers/LowLevel/Timer.c:22-38 | saving and restoring in place is `Switch` |
| Scheduler.TaskManager.TimerInterrupt | src/kernel/drivers/LowLevel/Timer.c:93-136 | the interrupt handler is `Tick` |
| Scheduler.TaskManager.ForceSwitch | src/kernel/drivers/LowLevel/Timer.c:181-198 | the forced switch is `Force` |
| Signals.DeliverLayout | src/kernel/drivers/Userland/signals.c:23-79 | delivery puts a frame of the interrupted registers right below rsp, its address in r12, and writes nothing else |
| Signals.DeliverSpec | src/kernel/drivers/Userland/signals.c:122-139 | the task resumes at the handler with its four arguments, every other register as it was, and the frame's sixteen words in order |
| ByteMemory.StoredBytes | src/kernel/drivers/Userland/Tasks.c:862-873 | a word pushed has its least significant byte first |
| Signals.ReturnRestores | src/kernel/drivers/Userland/signals.c:85-120 | returning with r12 at a frame restores the sixteen registers of that frame |
| Signals.SignalUnwinds | src/kernel/drivers/Userland/signals.c:85-139 | at any nesting depth a signal whose handler returned leaves the sixteen registers as at delivery and every enclosing frame intact |
| Signals.ActsKeepFrames | src/kernel/drivers/Userland/signals.c:85-139 | any sequence of disciplined acts keeps r12 and all frames it runs under |
| Signals.R8NotRestored | src/kernel/drivers/Userland/signals.c:43-44 | a handler's change of r8 survives the return |
| Signals.SignalTask.SendSignal | src/kernel/drivers/Userland/signals.c:122-139 | delivers, ignores, or leaves the task in creation, exactly as registration and access decide |
| Signals.SignalTask.EstablishSignalStack | src/kernel/drivers/Userland/signals.c:23-79 | the pushes in place are `Establish` |
| Signals.SignalTask.ReturnFromSignal | src/kernel/drivers/Userland/signals.c:85-120 | the pops in place are `SignalReturn` |
| ArgStack.SetupTaskStack | src/kernel/drivers/Userland/Tasks.c:246-298 | the three pushing loops leave the entry stack, use exactly 8 + 8(argc + 1) + the strings' bytes, and write nowhere else |
| ArgStack.ArgsRoundTrip | src/kernel/drivers/Userland/Tasks.c:246-298 | a program reading the stack from the final rsp gets exactly its arguments |
| ArgStack.NullAgreesWithCount | src/kernel/drivers/Userland/Tasks.c:246-298 | a program that looks for the null after the pointers finds as many arguments as the count says |
| ArgStack.RegionsAbut | src/kernel/drivers/Userland/Tasks.c:246-298 | count, pointers and strings are disjoint and fill the bytes used |
| DiskGeometry.BootRoundTripIff | src/boot/boot1.s:138-159 | converting back gives the block exactly below 256 cylinders; head and sector are always in range |
| DiskGeometry.DriverAgrees | src/kernel/drivers/Devices/Disk/Floppy.c:225-231 | driver and boot loader agree on every block below the capacity |
| DiskGeometry.DriverRoundTripIff | src/kernel/drivers/Devices/Disk/Floppy.c:225-231 | the driver's conversion gives the block back exactly below 65536 cylinders |
| DiskGeometry.SteppingIsDivision | src/boot/boot1.s:325-380 | after k reads the carried triple is the direct conversion of start + k, for both conversions |
| DiskGeometry.LoadSectors | src/boot/boot1.s:309-385 | the loading loop addresses consecutive blocks from its start, as many as `SectorsRead` says of its counter |
| DiskGeometry.ReadsAllIff | src/boot/boot1.s:382-384 | that is as many as asked for if and only if at most 256 |
| DiskGeometry.KernelCutShort | src/boot/boot1.s:316-316 | for the kernel's 384 it is 128 |
| GemfsCodec.EntryRoundTrip | src/include/filesys/gemfs.h:30-40 | an entry written to a sector is read back as it was |
| GemfsCodec.MainRoundTrip | src/include/filesys/gemfs.h:42-46 | and so is the main record |
| GemfsCodec.EntryLayout | src/include/filesys/gemfs.h:30-40 | every field lies at its offset in the packed structure, least significant byte first, and the rest is clear |
| GemfsCodec.MainBytes | src/include/filesys/gemfs.h:42-46 | likewise the main record |
| GemfsBitmap.MarkNext | src/kernel/drivers/filesys/gemfs.c:427-439 | marking the first free block keeps the used blocks an initial segment |
| GemfsBitmap.MarkRangeNext | src/kernel/drivers/filesys/gemfs.c:237-239 | so does marking several in a row |
| GemfsBitmap.MarkUsedBits | src/kernel/drivers/filesys/gemfs.c:427-439 | marking a block sets one bit of one byte and no other |
| GemfsBitmap.FormatLeavesSegmentIff | src/kernel/drivers/filesys/gemfs.c:45-51 | after formatting the used blocks are an initial segment exactly when the bitmap's sector, which is not cleared, was one past block 5 |
| GemfsBlocks.BlockRoundTrip | src/kernel/drivers/filesys/gemfs.c:138-150 | a block's sector leads back to the block while nothing wraps |
| GemfsBlocks.LbaRoundTripIff | src/kernel/drivers/filesys/gemfs.c:138-150 | in 64-bit arithmetic a sector survives exactly when it is the first of its block |
| GemfsTree.WalkIsChildren | src/kernel/drivers/filesys/gemfs.c:199-209 | a directory's Start and sibling walk ends, and lists exactly the used entries with that parent, each once, in increasing order |
| GemfsTree.AddChildOk | src/kernel/drivers/filesys/gemfs.c:178-232 | adding under a directory keeps the tree, appends to the parent's list, and changes no other directory's |
| GemfsTree.AddChildOkIff | src/kernel/drivers/filesys/gemfs.c:195-198 | the tree survives exactly when the parent is a directory |
| GemfsLayout.MkdirOk | src/kernel/drivers/filesys/gemfs.c:178-232 | mkdir keeps tree, chain and extents as they should be |
| GemfsLayout.MkdirAdds | src/kernel/drivers/filesys/gemfs.c:178-232 | every field of the new entry, where it lies, and that of other entries only links change |
| GemfsLayout.MkdirLosesBlock | src/kernel/drivers/filesys/gemfs.c:181-182 | mkdir marks a block that no entry, file or record uses |
| GemfsLayout.CreateFileOk | src/kernel/drivers/filesys/gemfs.c:234-256 | CreateFile keeps them, gives the file `Size` blocks that were free, and no other file's blocks change |
| GemfsLayout.CreateFileAdds | src/kernel/drivers/filesys/gemfs.c:234-256 | likewise for a file, which has its blocks besides |
| GemfsLayout.RunOk | src/kernel/drivers/filesys/gemfs.c:178-256 | over any sequence of both, sibling walks list the children, extents stay disjoint from each other, from entries and metadata, and files keep their blocks |
| GemfsLayout.FormattedRunOk | src/kernel/drivers/filesys/gemfs.c:9-51 | in particular from a formatted partition |
| GemfsVolume.WithEntrySpec | src/kernel/drivers/filesys/gemfs.c:465-515 | reading an index after writing it returns the written entry; other indices and blocks keep theirs |
| GemfsVolume.GrownExtends | src/kernel/drivers/filesys/gemfs.c:619-643 | CreateEntry's writes extend the chain by an unused entry in the first free block and move no entry |
| GemfsFiles.FilesKept | src/kernel/drivers/filesys/gemfs.c:178-256 | operations on entries leave every file's contents |
| GemfsFiles.WrittenSpec | src/kernel/drivers/filesys/gemfs.c:258-298 | a file written reads back as written; no other file, entry or record changes |
| GemfsDriver.FirstCreationIff | src/kernel/drivers/filesys/gemfs.c:448-456 | the first creation of entry 1 returns its block exactly when block 0 happens to link to the first free block |
| GemfsDriver.Volume.FbbGetBlock | src/kernel/drivers/filesys/gemfs.c:412-422 | tells whether the block is marked; from block 512 on, what the buffer held before |
| GemfsDriver.Volume.FbbSetBlock | src/kernel/drivers/filesys/gemfs.c:427-439 | marks the block and changes no other sector; from block 512 on it changes nothing on disk |
| GemfsDriver.Volume.FindFreeBlock | src/kernel/drivers/filesys/gemfs.c:165-176 | returns the end of the used segment, or a number past the partition when there is none |
| GemfsDriver.Volume.GetEntryBlock | src/kernel/drivers/filesys/gemfs.c:443-463 | terminates; an existing entry's block is found without any change, a missing one is created with all before it and, but for the very first, found |
| GemfsDriver.Volume.CreateEntry | src/kernel/drivers/filesys/gemfs.c:619-643 | extends the chain by one, terminating although it calls its callers |
| GemfsDriver.Volume.ReadEntry | src/kernel/drivers/filesys/gemfs.c:465-490 | returns the entry, creating what is missing |
| GemfsDriver.Volume.WriteEntry | src/kernel/drivers/filesys/gemfs.c:492-515 | writes that entry and nothing else, creating what is missing; the very first creation of entry 1 writes where block 0 points |
| GemfsDriver.Volume.FindFreeEntry | src/kernel/drivers/filesys/gemfs.c:517-525 | returns the first unused index, creating an entry when there is none |
| GemfsDriver.Volume.Mkdir | src/kernel/drivers/filesys/gemfs.c:178-232 | the routine on disk is `GemfsLayout.Mkdir` on layouts, keeps the volume, and leaves every file its contents |
| GemfsDriver.Volume.CreateFile | src/kernel/drivers/filesys/gemfs.c:234-256 | likewise `GemfsLayout.CreateFile` |
| GemfsDriver.Volume.WriteFile | src/kernel/drivers/filesys/gemfs.c:258-285 | the file has the buffer's contents, every other file its own; a directory is left alone |
| GemfsDriver.Volume.ReadFile | src/kernel/drivers/filesys/gemfs.c:287-298 | returns the file's contents and changes nothing |
| GemfsDriver.Volume.Format | src/kernel/drivers/filesys/gemfs.c:9-51 | leaves an empty, well-formed volume |
| GemfsNames.LookupIsFirstMatchIff | src/kernel/drivers/filesys/gemfs.c:312-361 | lookup finds the first child of that name, exactly unless the directory is empty and it is the root or the root has that name |
| GemfsNames.ScannedIsSplitIff | src/kernel/drivers/filesys/gemfs.c:363-396 | the loop takes a path apart at its slashes exactly when no component after the first is empty |
| GemfsNames.ResolveIsFold | src/kernel/drivers/filesys/gemfs.c:363-407 | resolution is the fold of first matches through directories with children |
| GemfsNames.MkdirResolves | src/kernel/drivers/filesys/gemfs.c:178-232 | a directory made under a fresh name is found by its path, and paths that resolved resolve as before |
| GemfsNames.CreateFileResolves | src/kernel/drivers/filesys/gemfs.c:234-256 | so is a file |
| GemfsPaths.NamesEqual | src/kernel/drivers/filesys/gemfs.c:300-310 | decides equality of the two names |
| GemfsPaths.FindIndexByName | src/kernel/drivers/filesys/gemfs.c:312-361 | the walk over the disk is `Lookup` and changes nothing |
| GemfsPaths.DirectoryToIndex | src/kernel/drivers/filesys/gemfs.c:363-407 | the scanning loop is `Resolve` over the components as scanned |
| GemfsPaths.PathIsFold | src/kernel/drivers/filesys/gemfs.c:363-407 | for a path without empty later components it is the fold over the path's components |

## Left out

- Hardware: port I/O, PIC, PCI, AHCI, DMA and the floppy controller's protocol. A disk is a map from block to sector, and a transfer of several sectors is one step.
- The floppy transfers longer than 64 KiB: every pass reuses the same buffer address and CHS.
- E820 enumeration and the boot sequence: the initial state has the frames up to a number not below PageCount the kernel's, all others free, and all of them in the direct map.
- Launch.BootOk: the kernel image and `phys_frames` themselves are not laid out in the kernel's frames, and no frame is dirty; the direct map fits under slot 256.
- Launch.BootedRunRefines: follows frames by number, as if the heap lay apart from the direct map; `DirectMap` and `HeapOverlay` say when it does not.
- TLB, CR3 and interrupt-flag instructions: the active root is a field, and translations are coherent.
- `free_page`, `kmalloc`, `kfree`, `userMalloc`, `userFree`, `memcpyw`, `memsetw` and the physical address walk at the end of teardown: teardown models the clearing of tables and the change of root.
- Reference counts are unbounded; the source has 32 bits. `PhysicalPagesUsed` is a statistic.
- Flag bits other than present, writable, user, copy-on-write and no-execute are carried along, and no property speaks of them.
- Access.PageFaultIsStep: speaks of user addresses; a kernel address is never killed for, which the source may do to a process whose stack has reached the lowest four pages.
- MemoryRuns.Kills: MemoryData's kernel stack range lies in the kernel half and is left out for user addresses; the end of the code range does not wrap.
- Page numbers stand for page-aligned addresses; a base address that is not aligned is not modelled.
- MemoryRuns.StackGap: the loop's index is an `int`, which 2^52 passes would overflow; and once memory is gone the loop goes on without mapping, past the user half. The model follows it while memory lasts.
- `exec`, the parsing and reading of ELF files, file descriptors and the other system calls: loading a program is the mapping of its pages. `exec` does not reset `PageCount`; a fork after it meets the condition of `ForkHole`.
- Scheduler.TaskManager.TimerInterrupt: does not model the freeing of a killed task's memory, which `KernelMemory.Kernel.FreeTaskMemory` does, nor the debug output for pid 2.
- Signals.SignalTask.EstablishSignalStack: the sixteen pushes are a recursive method, one call per push; the switch of address space around them is left out, since memory here is the task's.
- MemoryRuns.RunRefines: the content of a page that a demand fault maps is arbitrary, since the kernel does not clear it; what a page in its way held is lost, as `FaultKeepsPagesIff` says.
- DiskGeometry.LoadSectors: a successful read is taken to clear AH, as the BIOS call does; retries after a failed read are not modelled; they repeat the same triple.
- Exits.ExitExactIff: the references that `free_page` drops or wraps for the frames of tables are not modelled; user frames have none dropped.
- GemfsTree.AddChildOkIff: under a file parent the source also creates entries up to the file's Start, which the step on entries does not; the tree is broken either way.
- GemfsDriver.Volume.GetEntryBlock: while the chain has one entry, only entry 1 may be asked for; asking for a later one walks on from block 0's content.
- GemfsDriver.Volume.ReadEntry: as GetEntryBlock.
- GemfsDriver.Volume.CreateFile: as Mkdir, and for flags of a file; with a directory's flags its Start would be taken for a child.
- GemfsDriver.Volume.Mkdir: needs a directory for a parent and free blocks below 512 with one sector per block; `AddChildOkIff` covers the first, and the bitmap's byte index is meaningful for no others.
- GemfsDriver.Volume.Format: the directories and executables that formatting then adds are calls of the other routines; an executable's Start is afterwards moved to a block past the bitmap's reach and never marked, which the extents' invariant allows.
- GemfsPaths.FindIndexByName: the parent is a directory in use; a file's Start is not an entry.
- GemfsPaths.DirectoryToIndex: the scan buffer is clear at first, components fit it, and every component is looked up in a directory; a trailing slash makes the loop run past the string, and a file's Start is not an entry.
- GemfsPaths.StringLength: a name of 128 bytes without terminator is measured to the end of its field; the source reads on, and either length differs from any scanned name's.
- VGA, terminals, keyboard, printf, panic screens, integer formatting, header layouts, GDT/IDT packing, linker scripts and the other boot stages.
