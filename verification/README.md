# Model of a small x86_64 kernel

This project models the core of a small x86_64 kernel in Dafny and proves properties of it. Code that
works in place is modelled as classes with methods and loops. Each such method is proved to do to the
state what a function on values does, and the laws are about those functions and about whole runs.

**Memory.** A first-fit bitmap allocator hands out physical frames. Four-level page tables (section 4.5
of the Intel SDM, volume 3A) are built in those frames, reference-counted and torn down. On top of them
are anonymous mmap, the break, the ELF loader (Program Loading, chapter 5 of the System V gABI), the user
stack and the new image of exec. Physical memory is a sequence of frames, each a table of 512 entries or a
page of bytes. The invariant behind everything is that the frames of all user spaces form a tree: each has one place in one
space, and the table entries say so both ways (`PageTree.Tree`). From it follows that tables refine a
plain map from pages to frames (`PageTree.ResolveIsLookup`, `PageMapLaws.MapPageLaw`), that nothing but
one space changes in any operation (`Spaces.OnlySpace`), that user code reaches what is mapped for it
(`UserReach.MappedReach`, `SystemReach.EveryRunReach`), and that frames are conserved over the whole life
of a space (`SpaceLife.LifetimeConserves`). When a call succeeds is stated exactly, down to the number of
tables that are missing (`TableNeeds.Enough`, for a whole image `PageNeeds.EnoughPages`). `ProcessRuns.EveryRun`
is about a process's whole life of brk and mmap calls, and `FamilyRuns.EveryRun` about threads that share a
space after fork, each with its own break and mapping base.

**Scheduler.** Threads, processors and shared address spaces are one state machine, a step for each region
under the scheduler lock, on up to eight processors. `ThreadRuns.EveryRun` holds in every reachable state,
and `ThreadFaults` has the two runs that end with a step its callers must not take. `KernelStacks` puts the
kernel stacks of the threads under these steps, so that `KernelStacks.EveryRun` accounts for every frame of
the machine.

**Formats.** What is read is what was written: ELF headers (`ElfLayout.PhdrReads`), octal numbers and whole
ustar archives (`TarWriter.ArchiveReads`), page table entries (`PhysBytes.EntryRoundTrip`).

**Other machines.** Loopback sockets against unbounded logs, the user heap as a tiling, the file tree with
path resolution, the tar index against a linear search, the console ring against a terminal that forgets
nothing, interrupt handlers of several threads over one stack of masks, and sector I/O against a flat run of bytes.

Where the code does not do what its callers may expect, the code is kept, the exact condition proved and
an input given:

| condition | input |
|---|---|
| `ProcessRuns.BrkExact` | `ProcessFaults.FromBoot` |
| `ProcessOps.MmapLength` | any length within 4095 of 2^64 |
| `BreakLaws.GrowthStaysInHeap` | `ProcessRuns.BelowStartAccepted` |
| `FamilyRuns.BrkExactly` | `ProcessFaults.ForkParts`, `FamilyRuns.HoleMade` |
| `ElfFile.HeadersInFile`, `ElfFile.SegmentInFile` | `ElfFile.WrappedHeaders`, `ElfFile.WrappedSegment` |
| `ElfEdges.FirstByteExact` | `ElfEdges.OddByteLost` |
| `ElfSpills.SpillExact` | `ElfSpills.MachineSpills`, `ElfSpills.MiddleSpills` |
| `StackOps.GiveStackLaw`, `ThreadRuns.CreateExact` | `ThreadFaults.CreationFails` |
| `ThreadRuns.KillExact` | `ThreadFaults.KillFails` |
| `KernelStacks.LossExact` | `KernelStackFaults.StackLost` |
| `SocketLaws.ConnectMatches` | `SocketLaws.ConnectTwice` |
| `VfsLaws.CreateResolves` | `VfsLaws.LongNameLost` |
| `TarLaws.SearchAgrees` | `TarLaws.SlashlessFails` |
| `IrqThreads.RestoresExact` | `IrqThreads.CrossedEnd` |
| `HeapBlocks.MallocExact` | `HeapBlocks.WrappedTotal` |

Inputs that the code gets from outside - the time, the outcome of kernel heap allocations and of sector
operations, the number of processors online - are parameters. Address spaces and pages are named by frame
numbers, threads by their slots, file nodes by the order of their allocation.

## Model

| member | source | states |
|---|---|---|
| `Pmm.AllocFirstFit` | src/pmm.c:145-167 | An allocation gives the lowest run of clear bits that is long enough, and gives none exactly when nothing was asked for or no such run exists (frame 0 standing for failure) |
| `Pmm.AllocThenFree` | src/pmm.c:145-182 | Freeing what was just allocated restores the bitmap, and the count of free frames fell by exactly the length |
| `Pmm.StepKeepsHeapInv` | src/pmm.c:145-182 | Each allocation and each free of a live block keeps live blocks disjoint and every bit accounted for |
| `Pmm.RunAccounting` | src/pmm.c:145-182 | Over every run from boot in which callers free only what they allocated, live blocks are disjoint, a bit is set exactly when it was at boot or a live block covers it, and when nothing is live the bitmap is the one of boot |
| `Pmm.FreedRangeExact` | src/pmm.c:35-50 | For every range, wrapped sums included, which frames freeing it clears; without a wrap those wholly inside it |
| `Pmm.ReservedRangeExact` | src/pmm.c:52-67 | For every range, wrapped sums included, which frames reserving it sets; without a wrap those that overlap it |
| `Pmm.AvailableMapExact` | src/pmm.c:94-103 | After any boot map is read a frame is free exactly when some available region frees it |
| `Pmm.BootMapExact` | src/pmm.c:69-117 | After boot, whatever the map, a frame is free exactly when an available region frees it and it belongs neither to the low megabyte nor to what is reserved for the kernel and the boot information; frame 0 never is |
| `Pmm.BootMapPlain` | src/pmm.c:69-117 | When no region's end wraps, a frame is free exactly when an available region contains it and it overlaps neither the low megabyte nor the kernel nor the boot information |
| `Pmm.FrameAllocator.RecountFree` | src/pmm.c:27-33 | The loop over the packed bitmap counts the clear bits |
| `Pmm.FrameAllocator.FreeRange` | src/pmm.c:35-50 | The loop in place does to the bits what the range function does, and keeps the count equal to the number of clear bits |
| `Pmm.FrameAllocator.ReserveRange` | src/pmm.c:52-67 | The loop in place sets exactly the bits the range function says, and keeps the count equal to the number of clear bits |
| `Pmm.FrameAllocator.Init` | src/pmm.c:69-117 | The bitmap after boot is the one characterised by BootMapExact, with or without a memory map |
| `Pmm.FrameAllocator.AllocPages` | src/pmm.c:145-167 | One pass with a run counter over the packed bitmap is first fit; the count stays equal to the number of clear bits, so the early refusal by count is exact |
| `Pmm.FrameAllocator.FreePages` | src/pmm.c:169-182 | Exactly the named frames that exist become clear, those already clear are not counted twice |
| `PageTree.WalkIsPlacement` | src/vmm.c:131-167 | Following the tables of a space along a path ends at a frame exactly when that frame has that place in that space |
| `PageTree.LookupIsPlacement` | src/vmm.c:131-167 | A page translates to a frame exactly when the frame is placed at that page |
| `PageTree.ResolveIsLookup` | src/vmm.c:131-167 | For every address outside slot 0, `vmm_resolve` is a look-up in a plain map from page to frame and flags, with the offset kept |
| `PageTree.LinkFrame` | src/vmm.c:49-88 | Entering a fresh frame under an empty entry keeps the tables a tree |
| `PageTree.UnlinkFrame` | src/vmm.c:104-129 | Clearing the entry of a frame without children keeps the tables a tree |
| `PageMapLaws.EnsureStep` | src/vmm.c:49-61 | Creating the missing tables on a path, as far as frames last, keeps the tree, adds only tables of this space and changes no translation |
| `PageMapLaws.EnsureCount` | src/vmm.c:49-80 | The tables on a path can be had exactly when at least as many frames are free as tables are missing |
| `PageMapLaws.MapPageStep` | src/vmm.c:63-88 | Mapping, successful or not, keeps the tree and allocates only tables of this space and, on success, the page |
| `PageMapLaws.MapPageLaw` | src/vmm.c:63-88 | A success adds exactly one translation to its space, a failure changes none, no other space is affected; it succeeds exactly when the page is not mapped and enough frames are free for the missing tables |
| `PageMapLaws.UnmapPageStep` | src/vmm.c:104-129 | Unmapping keeps the tree and takes one page out of it |
| `PageMapLaws.UnmapPageLaw` | src/vmm.c:104-129 | Unmapping removes exactly one translation and returns its frame, changes nothing for a page that is not mapped, and affects no other space |
| `UserReach.ReachableMeans` | src/vmm.c:63-88 | That user code reaches a page means that the entries read for it in the tables of levels 4, 3 and 2 are present, for user code and writable |
| `UserReach.MapPageInner` | src/vmm.c:49-88 | A mapping, successful or not, leaves the entries of all tables that are there, in every space, as they are; those of new tables are writable, and for user code exactly if the page is |
| `UserReach.MappedReach` | src/vmm.c:63-88 | When a page has been mapped, user code reaches it exactly if the tables that were there let it pass and, should some have been missing, the page is for user code |
| `UserReach.MapKeepsReach` | src/vmm.c:63-88 | Any mapping of any page, successful or not, leaves within reach every page of every space that was, and where the tables exist changes nothing about it |
| `UserReach.UnmapKeepsReach` | src/vmm.c:104-129 | No unmapping changes which pages of which space user code reaches |
| `UserReach.AllReachable` | src/vmm.c:49-88 | If all tables of a space let user code pass, it reaches every page that is mapped |
| `HugePages.GiantPage` | src/vmm.c:131-167 | An address in a page of 1 GiB resolves as far behind its frame as it is behind the beginning of the page |
| `HugePages.LargePage` | src/vmm.c:131-167 | An address in a page of 2 MiB resolves as far behind its frame as it is behind the beginning of the page |
| `HugePages.HugeFreed` | src/vmm.c:181-211 | The teardown of a table of huge pages frees the table and all the frames of those pages, and nothing else |
| `TableNeeds.MapFreshExact` | src/vmm.c:338-347 | A page can be had on a fresh frame exactly when it is vacant and there are frames for it and for the tables missing on the way to it; then so many frames are taken and those tables are there |
| `TableNeeds.EnoughStep` | src/vmm.c:338-347 | Whether a whole run of pages can be had - all vacant, and frames for them and for the distinct tables they miss - is decided page by page |
| `Vmm.Memory.EnsureTable` | src/vmm.c:49-61 | The write into the parent table in place gives exactly the outcome of `Paging.EnsureTable`, which the laws are about |
| `Vmm.Memory.MapPage` | src/vmm.c:63-88 | The walk in place, with up to three tables allocated on the way, gives exactly the outcome of `Paging.MapPage`, which the laws are about |
| `Vmm.Memory.UnmapPage` | src/vmm.c:104-129 | The walk and the cleared entry in place gives exactly the outcome of `Paging.UnmapPage`, which the laws are about |
| `Vmm.Memory.Resolve` | src/vmm.c:131-167 | The walk with both huge-page exits gives exactly the outcome of `Paging.Resolve`, which the laws are about |
| `Vmm.Memory.FreePt` | src/vmm.c:169-179 | The loop over 512 entries frees the last level |
| `Vmm.Memory.FreePd` | src/vmm.c:181-195 | The loop over a directory, huge entries included |
| `Vmm.Memory.FreePdpt` | src/vmm.c:197-211 | The loop over a directory of directories, huge entries included |
| `Vmm.Memory.DestroyUserSpace` | src/vmm.c:213-225 | The teardown from slot 1 on, not for the kernel's space or frame 0 |
| `Spaces.CreateRootStep` | src/vmm.c:269-276 | A new root is a frame of its own with no user pages and the kernel's slot 0; it can be had exactly when a frame is free |
| `Spaces.MapFreshLaw` | src/vmm.c:338-347 | Allocating, clearing and mapping a page, or giving the frame back when that fails, adds one page on a new frame or changes no translation |
| `Spaces.UnmapFreeLaw` | src/vmm.c:348-353 | Unmapping with free removes one page and frees exactly its frame |
| `Spaces.FreeTableStep` | src/vmm.c:169-211 | Tearing down a table frees exactly the frames below it and itself, at every level |
| `Spaces.DestroyLaw` | src/vmm.c:213-225 | Teardown frees exactly the root, tables and pages of the space; the part shared under slot 0 and every other space keep frames and contents |
| `Spaces.GoneMeansConserved` | src/vmm.c:169-225 | If only one space changed and it is gone, bitmap, count and all other contents are as before it came |
| `Spaces.AbandonedConserves` | src/syscall.c:239-265 | A space made and given up, whatever was mapped or loaded into it, leaves the bitmap, the count and every other frame as they were |
| `SpaceTable.RegisterLaw` | src/vmm.c:278-288 | A new space gets one reference, and no other count changes; it fails exactly when all slots are taken |
| `SpaceTable.RetainLaw` | src/vmm.c:292-307 | A retain adds one reference to a space that has one, gives two to a space without any if a slot is free, and changes no other count |
| `SpaceTable.ReleaseLaw` | src/vmm.c:309-327 | A release takes one reference if there is one, changes no other count, and asks for teardown exactly with the last |
| `SpaceLife.CreateSpaceStep` | src/vmm.c:269-290 | Creation gives a live space with one reference, or leaves bitmap, table and tree as they were |
| `SpaceLife.ReleaseSpaceStep` | src/vmm.c:309-327 | Only the last release touches memory, and it returns exactly the frames of that space |
| `SpaceLife.LifetimeConserves` | src/vmm.c:169-327 | Creation, any sequence of maps (failed ones too), unmaps, retains and releases, and the last release leave bitmap, free count and every frame allocated before - the kernel's included - exactly as they were |
| `SystemReach.LifeOpen` | src/vmm.c:269-327 | Over a whole life of a space in which pages are mapped for user code, however it is shared, user code reaches every mapped page as long as the space has references |
| `Vmm.Memory.CreateUserSpace` | src/vmm.c:269-290 | The root written and registered in place, or given back, gives exactly the outcome of `SpaceLife.CreateSpace`, which the laws are about |
| `Vmm.Memory.RetainUserSpace` | src/vmm.c:292-307 | The count raised in place gives exactly the outcome of `SpaceLife.RetainSpace`, which the laws are about |
| `Vmm.Memory.ReleaseUserSpace` | src/vmm.c:309-327 | The count lowered in place, with the teardown at zero, gives exactly the outcome of `SpaceLife.ReleaseSpace`, which the laws are about |
| `UserMemory.Process.MmapAnonymous` | src/syscall.c:54-86 | The loops in place, with the roll-back, give exactly the outcome of `ProcessOps.Mmap`, which the laws are about |
| `UserMemory.Process.SetBreak` | src/vmm.c:329-357 | The loops in place give exactly the outcome of `ProcessOps.SetBrk`, which the laws are about, and the break moves exactly on success |
| `UserMemory.MapPages` | src/syscall.c:62-72 | The loop that maps zeroed pages up to the first failure gives exactly the outcome of `RunOps.MapRun`, which the laws are about |
| `UserMemory.UnmapPages` | src/syscall.c:74-79 | The loop that gives pages back gives exactly the outcome of `RunOps.UnmapRun`, which the laws are about |
| `RunOps.MapRunLaw` | src/syscall.c:62-72 | However far the loop comes, exactly the first pages are added, zeroed, on distinct frames that were free; it comes to the end exactly when all pages are vacant and there are frames for them and their missing tables |
| `RunOps.FirstHad` | src/vmm.c:338-347 | The loop maps anything at all exactly if its first page can be had |
| `RunOps.UnmapRunLaw` | src/vmm.c:348-353 | Exactly the pages of the run go, and their frames with them |
| `ProcessOps.MmapLaw` | src/syscall.c:54-86 | Success exactly when the pages are vacant and there are frames for them and their missing tables: then exactly those pages are added, zeroed, on frames of their own; otherwise the translation map is what it was and only tables stay allocated |
| `ProcessOps.MmapPlace` | src/syscall.c:54-58 | A mapping with an address begins with the page that holds it, one without at the first page boundary at or behind the base |
| `ProcessOps.MmapLength` | src/syscall.c:56 | A mapping is of as few pages as hold the length exactly if the length rounded up does not wrap at 64 bits; otherwise it is of no page at all |
| `ProcessOps.BrkLaw` | src/vmm.c:329-357 | The break moves exactly when the heap need not grow or the pages to add are vacant and there are frames for them and their missing tables; what is mapped or unmapped is one run of pages in this space |
| `PageRuns.Undone` | src/syscall.c:73-79 | Rolling back a run of pages just mapped restores the translation map and frees their frames; only tables remain |
| `BreakLaws.MovedEffect` | src/vmm.c:338-353 | What the loops do to memory is, on the plain map, one run of pages added or dropped, in this space only |
| `BreakLaws.BrkTracks` | src/vmm.c:329-357 | After a successful call the mapped heap is [start, new break) rounded up, and nothing else changed |
| `BreakLaws.HeapAfter` | src/vmm.c:329-357 | After any call, successful or not, the mapped heap is what the break says exactly if no growth stopped half-way, and the rest of the map is as it was |
| `ProcessRuns.BrkExact` | src/vmm.c:329-357 | On real page tables: after a call with an end in the heap area the heap is mapped exactly up to the break if and only if there were frames for the whole growth or not even for its first page |
| `ProcessFaults.GrowthStopsHalfWay` | src/vmm.c:338-347 | In every fresh space of a machine with room for a page and its tables, a process that asks for one page more than there are frames gets some of them and not all |
| `ProcessFaults.FromBoot` | src/vmm.c:338-347 | The first space after boot, on every machine with five free frames at its end, is such a space |
| `ProcessRuns.MapExact` | src/syscall.c:54-86 | On real page tables: a mapping without an address is granted exactly when its pages are vacant and frames suffice; every mapping leaves the heap and all other pages alone |
| `ProcessRuns.EveryRun` | src/syscall.c:54-86 | In every run of brk and mmap calls, at every point, the tables form a tree and the heap is mapped exactly up to the break; no page outside the heap is lost or moved, and the mapping base never goes back |
| `RunReach.MapRunOpen` | src/syscall.c:63-72 | A run of pages mapped for user code, as far as it comes, leaves the space open to user code |
| `RunReach.UnmapRunOpen` | src/syscall.c:74-79 | So does a run of pages given back |
| `ProcessReach.EveryRunOpen` | src/syscall.c:54-86 | In every run of brk and mmap calls, at every point, user code reaches every page that is mapped |
| `ProcessReach.BrkGrants` | src/vmm.c:338-347 | The pages a growth of the heap adds may be read, written and executed by user code; no page that stays mapped changes |
| `ProcessReach.MapGrants` | src/syscall.c:59-61 | The pages a mapping adds may be written exactly if bit 1 of the protection is set and executed exactly if bit 2 is; no other page changes |
| `ProcessRuns.GrantsFollow` | src/syscall.c:57-83 | In every such run the pages of a mapping granted without an address were vacant and stay mapped to the same frames to the end, and whatever is granted later lies behind it |
| `FamilyRuns.BrkExactly` | src/vmm.c:329-357 | For each of the threads that share a space: its brk leaves the heap without holes exactly if it grows from where the mapped heap ends or gets no page, or reduces a break that is not below that end; the heap follows its break exactly if it grows from there as a whole or not at all, or reduces to within the mapped heap; and when its break moves |
| `FamilyRuns.MapExactly` | src/syscall.c:54-86 | Each thread's mapping without an address is granted exactly when its pages are vacant and there are frames for them and their tables; it moves that thread's base alone and leaves the heap and all other pages alone |
| `FamilyRuns.ForkKeeps` | src/scheduler.c:333-345 | The copy of break and base that a fork makes is in place |
| `FamilyRuns.EveryRun` | src/scheduler.c:333-345 | In every run of brk and mmap calls and forks of the threads that share a space, none of which makes a hole: the tables form a tree, the heap has no holes and follows exactly the breaks that are where it ends, and no page outside the heap is lost or moved |
| `FamilyRuns.HoleMade` | src/vmm.c:338-353 | Two threads whose breaks are where the heap ends, one grows it and the other reduces its own break: a hole is left and the heap follows neither |
| `FamilyRuns.SiblingStuck` | src/syscall.c:54-86 | Once one of two threads with the same mapping base is granted a mapping, the other is never granted one without an address again, whatever any of them do |
| `ProcessFaults.ForkParts` | src/scheduler.c:333-345 | In every fresh space of a machine with room for a page and its tables: after a fork and a growth the heap follows one of the two breaks only |
| `ProcessRuns.HalfGrowthSticks` | src/vmm.c:338-347 | A growth for whose first page but not for all of which there are frames leaves mapped pages beyond the break, which stays, and no later growth from that break maps anything |
| `ProcessRuns.BelowStartAccepted` | src/vmm.c:329-357 | An end below the start of the heap is accepted, and a growth from there that succeeds maps pages that never belonged to the heap |
| `BreakLaws.UnmappedFrees` | src/vmm.c:348-353 | A shrink frees exactly the frames that backed the dropped pages |
| `BreakLaws.GrowthStaysInHeap` | src/vmm.c:329-347 | A growth maps only heap pages exactly when the rounded break it starts from is not below the rounded start |
| `Elf.LoadImage` | src/elf.c:223-290 | The loops over headers, pages and chunks in place give exactly the outcome of `ElfOps.LoadImage`, which the laws are about |
| `Elf.LoadSegment` | src/elf.c:243-287 | The pages mapped and the bytes copied in place, any segment, aligned or not, give exactly the outcome of `ElfOps.LoadSegment`, which the laws are about |
| `Elf.CopySegment` | src/elf.c:273-287 | The copy loop in place gives exactly the outcome of `ElfOps.CopyLoop`, which the laws are about |
| `Elf.CopyOut` | src/elf.c:285 | The copy to a physical address changes every frame it reaches, and no other, as `PhysBytes.CopyBytes` says |
| `PhysBytes.EntryRoundTrip` | include/vmm.h:6-15 | A table entry is what its eight bytes say, for frame numbers of 40 bits |
| `ElfFile.HeadersInFile` | src/elf.c:98-109 | The program headers of a valid image lie in the file exactly when their end does not wrap at 64 bits |
| `ElfFile.WrappedHeaders` | src/elf.c:98-109 | A header with one program header 56 bytes below 2^64 is valid for a file of 64 bytes |
| `ElfFile.SegmentInFile` | src/elf.c:248 | The bytes of a segment that passes the loader's test lie in the file exactly when their end does not wrap at 64 bits |
| `ElfFile.WrappedSegment` | src/elf.c:248 | A segment of one byte at offset 2^64 - 1 passes the test for every file |
| `ElfLayout.EhdrReads` | src/elf.c:45-60 | A file header reads as what the bytes of its fields stand for, where the layout of the gABI has them |
| `ElfLayout.PhdrReads` | src/elf.c:62-71 | So does a program header; bit 0 of its flags is to execute and bit 1 to write |
| `ElfLayout.AcceptedMeans` | src/elf.c:98-109 | Which files are accepted, in terms of their bytes |
| `ElfLayout.EntryIs` | src/elf.c:231-235 | Where an image is loaded and entered, in terms of the bytes of the file: a shared object 512 GiB and 16 MiB up, an executable where it says |
| `ElfLaws.SegmentLaw` | src/elf.c:243-287 | An aligned segment is loaded exactly if its bytes are in the file, its pages are vacant and frames suffice; the space then gains exactly the segment's pages as the file defines them, and in any case only this space changes |
| `ElfLaws.CopyLaw` | src/elf.c:273-287 | Over freshly mapped pages the copy loop of an aligned segment completes and leaves every page as the file defines it |
| `ElfEdges.FirstByteExact` | src/elf.c:275-285 | For every segment whose first file byte is not zero and whose first chunk does not reach a page table, the byte read at its address through `vmm_resolve` is that byte exactly if the segment begins at a page boundary, since the page offset is added twice |
| `ElfEdges.FirstChunkExact` | src/elf.c:275-285 | For every memory, address and chunk, page tables behind it or not: once the first chunk is copied, the byte of the frame that backs its address is the chunk's first byte exactly if the address is a page boundary |
| `ElfEdges.OddByteLost` | src/elf.c:281-285 | A one-byte segment 8 bytes into a page, in any space with room: what is read at its address is 0, not the byte |
| `ElfSpills.SpillExact` | src/elf.c:275-285 | For every unaligned segment whose first chunk does not reach a page table, loaded where there is room: the load is a matter of its own space exactly if that chunk does not change a frame that is in use elsewhere and follows the segment's first frame |
| `ElfSpills.MiddleSpills` | src/elf.c:281-285 | A one-byte segment in the middle of a page, in any space with room whose lowest free frame is followed by a cleared one in use elsewhere: its byte is written into that other frame |
| `ElfSpills.MachineSpills` | src/elf.c:281-285 | The first space of a machine of sixteen frames is such a space |
| `PageNeeds.PagesStep` | src/elf.c:255-271 | Whether a list of pages can be had - all different and vacant, and frames for them and their missing tables - is decided page by page |
| `PageNeeds.MapRunPages` | src/elf.c:255-271 | A segment's run of pages and any pages after it can be had exactly if the run is mapped as a whole and the others can be had then |
| `ElfImages.LoadAllExact` | src/elf.c:246-290 | All remaining segments are loaded exactly if they are in the file, their pages are all different and vacant, and there are frames for them and for the tables they miss |
| `ElfImages.LoadLaw` | src/elf.c:223-290 | Loading succeeds exactly if the headers are accepted, the segments are in the file, their pages are all different and vacant, and there are frames for them and the tables they miss. A success leaves every loadable segment as the file defines it, its pages to be written and executed as bits of the file say and within reach of user code, adds no other page, and reports entry and break; success or failure, only the target space changes and stays a tree |
| `ElfImages.GrantedBits` | src/elf.c:255-257 | The permissions of every page of every segment are two bits of one byte of its header in the file |
| `ElfImages.LoadedByte` | src/elf.c:243-287 | A loaded byte read through `vmm_resolve` is the file's byte below the file size and zero from there to the memory size |
| `ElfImages.BreakIsLeast` | src/elf.c:289 | The reported break is the least page boundary at or above the end of every loadable segment |
| `Contents.WriteView` | src/elf.c:284-287 | Writing the frame behind a page changes that page as the process sees it and no other page of any space |
| `Contents.OtherViewKept` | src/vmm.c:63-129 | When only one space changed, every other space has the pages and the bytes it had |
| `UserStack.MapRange` | src/vmm.c:94-102 | The loop in place gives exactly the outcome of `StackOps.MapRange`, which the laws are about |
| `UserStack.GiveStack` | src/scheduler.c:643-660 | The run allocated, cleared and mapped in place, or given back, gives exactly the outcome of `StackOps.GiveStack`, which the laws are about |
| `StackOps.RangeLaw` | src/vmm.c:94-102 | However far the loop comes, the first pages are mapped onto the first frames of the run, and the other frames are nowhere |
| `StackOps.RangeFar` | src/vmm.c:94-102 | For pages of one table: anything is mapped exactly if the first page is vacant and its tables can be had, everything exactly if moreover all pages are vacant |
| `StackOps.GiveStackLaw` | src/scheduler.c:643-660 | A stack is given exactly if a run of four frames and the missing tables can be had and all four pages are vacant: the space then has four more zeroed pages. After a failure an account of all frames exists exactly if not even the first page could be mapped; otherwise a page stays mapped to a free frame |
| `RunReach.GiveStackOpen` | src/scheduler.c:643-660 | A stack that is given, or not, leaves the space open to user code |
| `StackOps.GiveStackUndone` | src/syscall.c:251-265 | Torn down after that, half-way or not, the space leaves nothing of itself or of the stack, though some frames are freed twice |
| `Exec.PrepareLaw` | src/syscall.c:239-265 | The new image can be had exactly if there is a frame for its root and a slot for its space, it can be loaded there and the stack then fits. The new image is a fresh space with one reference holding exactly the segments of the file and a zeroed stack, with the permissions the file asks for and every page within reach of user code, no other space having changed; or the frames in use, their contents and all references are what they were |
| `Execve.Prepare` | src/syscall.c:239-265 | Space, image and stack made in place, or all given back, give exactly the outcome of `Exec.Prepare`, which the law is about |
| `ThreadLaws.PickIsSound` | src/scheduler.c:203-224 | A picked thread belongs to this processor and is ready with the highest priority, in the lowest slot of those; or nothing is ready here and it is the running current one; the last-resort answer is never given |
| `ThreadLaws.SwitchSeated` | src/scheduler.c:281-306 | A switch keeps threads and processors in agreement and loads the space of the next thread |
| `ThreadLaws.ZombieWakes` | src/scheduler.c:251-270 | The end of a thread makes a parent that waits for it ready, and whoever still waits has another live child to wait for |
| `ThreadLaws.BlockWaits` | src/scheduler.c:507-520 | A thread that blocks has a live child that matches |
| `ThreadLaws.RetainCounted` | src/scheduler.c:333-335 | A fork adds one holder and one reference |
| `ThreadLaws.ReleaseCounted` | src/scheduler.c:242-245 | Reaping takes one holder and one reference |
| `ThreadLaws.MoveCounted` | src/syscall.c:267-276 | An exec moves a holder from the old space to the new one |
| `ThreadRuns.TickOrderly` | src/scheduler.c:308-316 | Tick and yield keep threads, processors, waiting and reference counts in order on every processor |
| `ThreadRuns.ForkSafe` | src/scheduler.c:318-390 | Fork, including each failure after the space was retained, keeps threads, processors, waiting and reference counts in order, and memory as it was |
| `ThreadRuns.ExitOrderly` | src/scheduler.c:402-427 | The exit of a thread that is not a bootstrap thread keeps them in order, makes it a zombie with its code, leaves the processor with another thread, so that the fallback to slot 0 is never taken, and makes a parent that waited for it ready or running |
| `ThreadRuns.KillExact` | src/scheduler.c:440-458 | From every orderly state, for every processor and pid: a kill leaves order if and only if it does not end a thread that another processor is running |
| `ThreadRuns.KillWakes` | src/scheduler.c:440-458 | A thread that is killed is a zombie, and a parent that waited for it is ready |
| `ThreadRuns.SleepOrderly` | src/scheduler.c:429-438 | Going to sleep keeps them in order |
| `ThreadRuns.WaitSafe` | src/scheduler.c:482-521 | Waitpid - reaping, refusing or blocking - keeps them in order, and releases at most the space of the thread it reaps |
| `ThreadRuns.CreateSafe` | src/scheduler.c:584-675 | Creating a kernel or user thread, its stack mapped in its space, failures included, keeps everything in order and touches that space only, unless the stack stops half-way; a user thread takes over the reference of its creator |
| `ThreadRuns.CreateExact` | src/scheduler.c:643-660 | A creation leaves an account of all frames if and only if it does not map part of the user stack and then fail |
| `ThreadRuns.RegisterOrderly` | src/scheduler.c:551-582 | Registering a processor that has no thread yet keeps them in order |
| `ThreadRuns.ExecSafe` | src/syscall.c:267-276 | The hand-over of exec keeps them in order: the old space loses a reference and goes only with the last, the new one is loaded |
| `ThreadRuns.ExecStackSafe` | src/syscall.c:251-265 | The stack of exec is had as a whole, exactly if it fits, or the new space is gone without a trace |
| `ThreadRuns.StoreLaw` | src/elf.c:273-287 | A page written changes that page as its process sees it, and nothing else of any space |
| `ThreadRuns.StepSafe` | src/scheduler.c:308-675 | Every step keeps everything in order, and frees, allocates and writes frames of one space at most |
| `ThreadRuns.StepKeepsSpaces` | src/scheduler.c:235-249 | As long as a space has references, no step but mapping into it and writing there changes its pages or their bytes |
| `ThreadRuns.EveryRun` | src/scheduler.c:165-675 | Over every run from boot, on all processors: a running thread is current on its own processor, the loaded space is the current thread's, bootstrap threads run when current and are ready otherwise, a blocked thread has a live matching child, references equal holders, and the space of every thread and processor is the kernel's or a whole tree of tables |
| `SystemReach.StepOpen` | src/scheduler.c:165-675 | Every step that maps pages for user code only leaves every space open to it |
| `SystemReach.EveryRunReach` | src/scheduler.c:165-675 | Over every run from boot in which pages are mapped for user code, user code reaches every page of every space |
| `ThreadSteps.WaitExact` | src/scheduler.c:470-521 | waitpid answers with the id of the lowest matching child that has ended and frees its slot, which forgets a user process's space; with -1 exactly if no child matches, nothing changing; and otherwise the caller is blocked on that pid and nothing else changes |
| `ThreadSteps.TickExact` | src/scheduler.c:203-316 | A tick goes on with the thread of the highest priority that the processor can run, the lowest slot among equals, and with the current one only if there is no other; of no thread does anything but the status change |
| `ThreadSteps.TickSleepers` | src/scheduler.c:225-233 | After a tick exactly those threads sleep that slept and whose time has not come |
| `ThreadSteps.ForkExact` | src/scheduler.c:318-389 | fork succeeds exactly for a user thread with a free slot, copies of the files and a kernel stack; the child is in the lowest free slot with the next id and its parent's space, priority and processor; all other slots are as they were |
| `ThreadSteps.CreateMakes` | src/scheduler.c:584-675 | A new thread is in the lowest free slot with the next id, priority 1 and the next processor in turn, a child of the current one; all other slots are as they were |
| `ThreadSteps.RoundRobin` | src/scheduler.c:157-163 | Threads made one after the other are put on the processors in turn |
| `ThreadSteps.ZombieExact` | src/scheduler.c:251-270 | A thread that ends is a zombie with its code; its parent counts one child less and is awake if it waited; all other slots are as they were |
| `ThreadSteps.KillEnds` | src/scheduler.c:440-458 | kill is refused exactly if no user thread has the pid, and ends the thread unless that is the caller or has ended already |
| `ThreadSteps.SleepExact` | src/scheduler.c:429-440 | A sleep marks the calling thread as asleep until its tick and changes no other thread |
| `ThreadSteps.RegisterExact` | src/scheduler.c:551-582 | A processor that registers runs a thread of the kernel in the lowest free slot |
| `ThreadSteps.PidIs` | src/scheduler.c:271-279 | A pid is the number in 32 bits with a sign that is the id up to a multiple of 2 to the 32 |
| `ThreadIds.StepNumbered` | src/scheduler.c:584-675 | A step gives out one id at most, which no thread has |
| `ThreadIds.SamePid` | src/scheduler.c:271-279 | Two threads go by one pid exactly if their ids are a multiple of 2 to the 32 apart, and a pid is the id exactly below 2 to the 31 |
| `ThreadIds.EveryRunPids` | src/scheduler.c:440-490 | Over every run from boot of fewer than 2^31 - 1 steps, waitpid and kill mean one thread by a pid |
| `WaitRun.BlockedThenReady` | src/scheduler.c:507-520 | A run from boot, on every machine, in which a thread blocks in waitpid and is ready when its child has exited |
| `ThreadRuns.EveryPick` | src/scheduler.c:308-316 | In every such state the next pick is sound |
| `ThreadFaults.KillFails` | src/scheduler.c:440-458 | A run from boot, on every machine with eight free frames at its end, after which a kill leaves a processor with a zombie as its current thread |
| `ThreadFaults.CreationFails` | src/scheduler.c:643-660 | A run from boot, on every machine with nine free frames at its end, after which a creation fails with a page of the space mapped to a free frame |
| `ThreadFaults.SmallBoots` | src/scheduler.c:165-183 | A machine of sixteen frames is one of those |
| `KernelStacks.FoundSafe` | src/scheduler.c:237-240 | Taking a kernel stack, or giving back that of a thread that is reaped, disturbs no space, and the frames taken belong to nobody |
| `KernelStacks.StepAccounted` | src/scheduler.c:235-675 | Every step of the scheduler with its kernel stack - taken by fork and by creation, given back by waitpid - keeps everything in order and the account of all frames |
| `KernelStacks.PushAccounted` | src/scheduler.c:43-47 | What the kernel writes to a kernel stack, the canary included, reaches no space |
| `KernelStacks.EveryRun` | src/scheduler.c:165-675 | Over every run from boot, on all processors: a frame is in use exactly if it was at boot, has a place in a space, is one of the four of a thread's kernel stack or is lost, and is never two of these; exactly the threads that are no bootstrap threads have a kernel stack; and everything is in order |
| `KernelStacks.AllReturned` | src/scheduler.c:235-249 | At the end of any run after which only bootstrap threads are left and no space has references, the frames in use are those of boot and the lost ones |
| `KernelStacks.LossExact` | src/scheduler.c:634-660 | A step loses the frames of a kernel stack exactly if it is the creation of a user thread that gets its kernel stack and no user stack |
| `KernelStackFaults.StackLost` | src/scheduler.c:634-649 | A run from boot, on every machine with just five free frames, all at its end, after which the frames of a kernel stack are lost |
| `KernelStackFaults.FiveLeft` | src/scheduler.c:165-183 | A machine of seven frames is one of those |
| `Scheduler.Scheduler.constructor` | src/scheduler.c:165-183 | The state after initialisation is the one the runs start from |
| `Scheduler.Scheduler.PickNext` | src/scheduler.c:203-224 | The scan of the table with the best so far gives exactly the outcome of `Threads.PickNext`, which the laws are about |
| `Scheduler.Scheduler.WakeSleepers` | src/scheduler.c:226-233 | The scan wakes exactly the sleepers whose time has come |
| `Scheduler.Scheduler.MarkZombie` | src/scheduler.c:251-270 | Thread and parent updated in place gives exactly the outcome of `Threads.MarkZombie`, which the laws are about |
| `Scheduler.Scheduler.DoSwitch` | src/scheduler.c:281-306 | Both threads, the current one and CR3 updated in place gives exactly the outcome of `Threads.Switch`, which the laws are about |
| `Scheduler.Scheduler.Tick` | src/scheduler.c:308-316 | Waking, picking and switching in place gives exactly the outcome of `Threads.Tick`, which the laws are about |
| `Scheduler.Scheduler.Fork` | src/scheduler.c:318-390 | Table, page-table memory and reference count updated in place gives exactly the outcome of `Threads.Fork`, which the laws are about |
| `Scheduler.Scheduler.OnExit` | src/scheduler.c:402-427 | Ending and switching in place gives exactly the outcome of `Threads.Exit`, which the laws are about |
| `Scheduler.Scheduler.Sleep` | src/scheduler.c:429-438 | The wake-up tick, wrapping at 64 bits, and the state set in place gives exactly the outcome of `Threads.Sleep`, which the laws are about |
| `Scheduler.Scheduler.Kill` | src/scheduler.c:440-458 | The search by id and the update in place gives exactly the outcome of `Threads.Kill`, which the laws are about |
| `Scheduler.Scheduler.WaitPid` | src/scheduler.c:482-521 | The two searches, and reaping with release or blocking in place, gives exactly the outcome of `Threads.WaitPid`, which the laws are about |
| `Scheduler.Scheduler.RegisterCpu` | src/scheduler.c:551-582 | The bootstrap slot filled in place gives exactly the outcome of `Threads.RegisterCpu`, which the laws are about |
| `Scheduler.Scheduler.Create` | src/scheduler.c:584-675 | The slot filled, or left unused on failure, and the user stack mapped or given back, in place, gives exactly the outcome of `Threads.Create`, which the laws are about |
| `Scheduler.Scheduler.HandOver` | src/syscall.c:267-276 | The new space installed and loaded, and the old one released, in place, gives exactly the outcome of `Threads.HandOver`, which the laws are about |
| `Ring.EnqueueLaw` | src/net.c:65-70 | A ring is a queue that refuses what comes while fifteen are waiting |
| `Ring.DequeueLaw` | src/net.c:72-91 | A ring gives back the oldest and keeps the rest in order; it is empty exactly when head meets tail |
| `SocketLaws.ConnectMatches` | src/net.c:182-216 | A successful connect leaves the peers a symmetric matching exactly when the client had no peer |
| `SocketLaws.ConnectTwice` | src/net.c:182-216 | A listener and a client of one owner: the client's second connect succeeds too, and the peers are no matching any more |
| `SocketLaws.CloseMatches` | src/net.c:262-270 | Closing keeps the matching |
| `SocketLaws.StepGood` | src/net.c:142-270 | Every call keeps the matching, and every ring equal to what its unbounded log says is sent and not received |
| `SocketLaws.StartGood` | src/net.c:93-97 | After initialisation no socket has a peer and every ring is empty |
| `SocketLaws.EveryRun` | src/net.c:142-270 | The matching and the agreement of rings with logs hold over every run in which connect is called only on sockets without a peer |
| `SocketLaws.StreamSend` | src/net.c:241-248 | A stream message goes to the peer and nobody else, cut to 1500 bytes, behind those already there, and is refused only if fifteen are waiting |
| `SocketLaws.ReceiveOldest` | src/net.c:251-260 | What is received is the oldest message sent and not yet received, cut to the buffer |
| `SocketLaws.AcceptOldest` | src/net.c:168-180 | accept answers with the oldest connection made and not yet accepted, and with -1 exactly if there is none or the socket does not listen; the address is that of the other side |
| `SocketLaws.ConnectLogs` | src/net.c:182-216 | A connect that succeeds makes a socket that becomes the client's peer, and is logged under its descriptor with the first socket that listens on the port, unless fifteen are waiting there |
| `SocketCalls.OpenExact` | src/net.c:142-153 | When a socket is refused, and what a new one is |
| `SocketCalls.BindExact` | src/net.c:155-161 | When bind succeeds, and that only the address and the state change |
| `SocketCalls.ListenExact` | src/net.c:163-168 | Only stream sockets listen, and only the state changes |
| `SocketCalls.ConnectExact` | src/net.c:182-216 | connect succeeds exactly on an open stream socket, with an address, while somebody listens on the port and a slot is free; otherwise nothing changes |
| `SocketCalls.DatagramSend` | src/net.c:218-245 | A datagram goes, cut to 1500 bytes and with its sender's address, to the first datagram socket with the port, and counts as sent whether there is one or not |
| `SocketCalls.CloseExact` | src/net.c:268-276 | Closing frees the slot and leaves the peer without one; nothing else changes |
| `Net.Loopback.Open` | src/net.c:142-153 | The first free slot opened in place gives exactly the outcome of `Sockets.Open`, which the laws are about |
| `Net.Loopback.Accept` | src/net.c:170-180 | The pending ring read in place gives exactly the outcome of `Sockets.Accept`, which the laws are about |
| `Net.Loopback.Connect` | src/net.c:182-216 | Listener found, server slot opened, both ends linked and the ring filled in place gives exactly the outcome of `Sockets.Connect`, which the laws are about |
| `Net.Loopback.SendTo` | src/net.c:218-249 | The search for a receiver or the way to the peer, and the ring filled in place, gives exactly the outcome of `Sockets.SendTo`, which the laws are about |
| `Net.Loopback.RecvFrom` | src/net.c:251-260 | The ring read in place gives exactly the outcome of `Sockets.RecvFrom`, which the laws are about |
| `Net.Loopback.Close` | src/net.c:262-270 | The peer unlinked and the slot cleared in place gives exactly the outcome of `Sockets.Close`, which the laws are about |
| `PathNames.CompsSlash` | src/vfs.c:103-123 | A slash separates: the components of both sides follow each other |
| `VfsLaws.ResolveIsWalk` | src/vfs.c:89-126 | Resolution is a walk over the list of components from the root or the given directory |
| `VfsLaws.SplitLaw` | src/vfs.c:132-172 | For a path under 512 characters with a proper last name of at most 255, resolving it is resolving its parent and looking up the last name |
| `VfsPaths.DotsUndo` | src/vfs.c:89-126 | A path, a name in it and two dots resolve to what the path resolves to, and to nothing exactly if the name does not resolve |
| `VfsPaths.DotStays` | src/vfs.c:89-126 | A dot stays where it is |
| `VfsPaths.RootStays` | src/vfs.c:89-126 | Above the root there is nothing |
| `VfsLaws.AddKeepsTree` | src/vfs.c:60-67 | Adding a child keeps the tree: parent links both ways, no cycle, unique names among siblings |
| `VfsLaws.AddFinds` | src/vfs.c:50-67 | Adding a child changes one look-up, that of its name in its directory |
| `VfsLaws.CreateKeeps` | src/memfs.c:75-104 | A create keeps the tree and every resolution there was |
| `VfsLaws.CreateResolves` | src/vfs.c:186-196 | After a successful create the path resolves to the new node exactly when its last name was at most 255 characters; a longer one is stored cut and never found |
| `VfsPaths.CreateExact` | src/vfs.c:174-196 | A name is made exactly in a directory of memfs, if it is not there yet and there is memory for it |
| `VfsPaths.NeverMade` | src/vfs.c:132-196 | Neither an empty name nor dots can be made, nor anything by a path of 512 characters or more |
| `VfsPaths.CreateMakes` | src/memfs.c:75-105 | What is made is an empty node of that kind and name, the first among the names of its directory; every other node is as it was |
| `VfsPaths.UnlinkExact` | src/vfs.c:198-205 | A name is taken away exactly from a directory of memfs, if it is there and is no directory with names in it |
| `VfsLaws.LongNameLost` | src/vfs.c:174-196 | In a tree with only a root, the create of a name of 256 letters succeeds and the name does not resolve |
| `VfsLaws.UnlinkLaw` | src/memfs.c:106-115 | Unlinking keeps the tree and removes its node; afterwards exactly the paths that came by that node, the one given among them, resolve to nothing, and all others resolve to what they did |
| `Vfs.FileSystem.FindChild` | src/vfs.c:50-58 | The scan of the child list gives exactly the outcome of `VfsTree.FindChild`, which the laws are about |
| `Vfs.FileSystem.Resolve` | src/vfs.c:89-126 | The character-by-character scan of the path gives exactly the outcome of `VfsTree.Resolve`, which the laws are about |
| `Vfs.FileSystem.ResolveParent` | src/vfs.c:132-172 | The scans for trailing slashes and the last slash gives exactly the outcome of `VfsTree.ResolveParent`, which the laws are about |
| `Vfs.FileSystem.Create` | src/vfs.c:174-196 | The node linked in place, with memfs behind it, keeps the tree valid and gives exactly the outcome of `VfsTree.Create`, which the laws are about |
| `Vfs.FileSystem.Unlink` | src/vfs.c:198-205 | The node removed in place, with memfs behind it, keeps the tree and gives exactly the outcome of `VfsTree.Unlink`, which the laws are about; the working directory is still in the tree exactly if, in the tree before the call, it is not a node that the path's parent and last name lead to and that can be unlinked there |
| `Vfs.FileSystem.Open` | src/vfs.c:207-222 | An open with create yields the new node exactly when it and the open file could be had and its last name was not cut |
| `TarArchive.SizeFits` | src/tarfs.c:67-76 | A size field of twelve characters is below 2^36, so the advance to the next header cannot wrap |
| `TarNumbers.OctalIsSum` | src/tarfs.c:67-76 | What any field parses to: the sum, over its octal digits before the first zero byte, of the digit times 8 to the number of octal digits behind it |
| `TarNumbers.OctalRoundTrip` | src/tarfs.c:67-76 | A number written as octal digits, with a zero byte or the end of the field behind them, parses to itself |
| `TarWriter.HeaderReads` | src/tarfs.c:155-180 | A ustar header, whatever is in the fields not looked at, reads as the name, kind and size that were written |
| `TarWriter.ArchiveReads` | src/tarfs.c:150-196 | An archive reads as the members that were written, in their order, each with its contents |
| `TarWriter.FindReads` | src/tarfs.c:150-196 | tarfs_find gives nothing exactly if no member has the name, and otherwise the contents of the first that has |
| `TarLaws.DescendInjective` | src/vfs.c:50-58 | In a tree different lists of names lead to different nodes |
| `TarLaws.AddFromLaw` | src/tarfs.c:99-148 | An entry adds itself and the missing directories on the way, and changes nothing there was |
| `TarLaws.PopulateShows` | src/tarfs.c:198-242 | The tree built from the archive shows at every list of names what the first entry at or below it says |
| `TarLaws.FindIsTold` | src/tarfs.c:150-196 | A linear search by name finds a file exactly when the first entry at or below that list of names is that file |
| `TarLaws.IndexAgrees` | src/tarfs.c:150-242 | Over a proper archive put into an empty tree, a path shorter than 128 characters resolves to a file with given data and size exactly when the linear search comes to a file entry with them; the first of several entries wins in both |
| `TarLaws.SearchAgrees` | src/tarfs.c:150-242 | The linear search itself, which does not look at the type, agrees with the tree for a path exactly when what it finds is not a directory entry |
| `TarLaws.SlashlessFails` | src/tarfs.c:150-242 | A directory entry without a slash at its end is found by the search and is no file in the tree |
| `Tarfs.ParseOctal` | src/tarfs.c:67-76 | The loop stops at a zero and skips what is no octal digit |
| `Tarfs.Find` | src/tarfs.c:150-196 | The loop over blocks finds the first entry of that name |
| `Tarfs.AddEntry` | src/tarfs.c:99-148 | The loop over the path, nodes linked on the way, gives exactly the outcome of `TarArchive.AddFrom`, which the laws are about |
| `Tarfs.PopulateVfs` | src/tarfs.c:198-242 | The loop over blocks adds every entry in order |
| `HeapBlocks.RoundCovers` | user/malloc.c:57 | Rounding up to 16 covers the request exactly when the addition does not wrap |
| `HeapBlocks.MergeTiles` | user/malloc.c:69-79 | Merging keeps the blocks a tiling of the heap |
| `HeapBlocks.MergeNoFreePair` | user/malloc.c:69-79 | After merging no two neighbours are free |
| `HeapBlocks.MergeKeepsUsed` | user/malloc.c:69-79 | Merging neither moves nor resizes a block in use, and makes none |
| `HeapBlocks.MallocOk` | user/malloc.c:55-67 | A request that fits, or is refused, keeps the heap in order: a pointer is new and has a block of its own that is large enough, and live blocks stay |
| `HeapBlocks.FreeOk` | user/malloc.c:81-86 | Freeing a live pointer takes it, and only it, away |
| `HeapBlocks.EveryRun` | user/malloc.c:15-86 | After every sequence of malloc, each request fitting or refused, and free the blocks tile the heap, no two neighbours are free, and every live pointer has its block |
| `HeapBlocks.PayloadsDisjoint` | user/malloc.c:55-86 | What two live pointers may be used for does not overlap and lies in the heap |
| `HeapBlocks.MallocExact` | user/malloc.c:55-67 | A successful malloc keeps the heap in order if and only if rounding the request does not wrap and neither does the break, where it has to move |
| `HeapBlocks.WrappedTotal` | user/malloc.c:39-53 | An empty heap and a request of 2^64 - 40: the rounding does not wrap, but the total is 0 and a block of 2^64 - 24 bytes is handed out |
| `UserHeap.Heap.Malloc` | user/malloc.c:27-67 | For every request the first-fit scan, or the extension of the break, gives exactly the outcome of `HeapBlocks.Malloc`, which the laws are about, and the heap stays valid exactly if the request was refused or fits |
| `UserHeap.Heap.MergeAll` | user/malloc.c:69-79 | The loop over neighbours in place gives exactly the outcome of `HeapBlocks.Merge`, which the laws are about |
| `UserHeap.Heap.Free` | user/malloc.c:81-86 | The flag set and the merge in place gives exactly the outcome of `HeapBlocks.Free`, which the laws are about |
| `Terminal.HistoryKept` | src/console.c:103-113 | Over every session a line above the cursor is never written again, and the terminal only grows |
| `Terminal.PrintableExact` | src/console.c:109-113 | A printable character stands where the cursor was, in the colour in force, and nothing else on any line has changed; where the cursor is then |
| `Terminal.ControlExact` | src/console.c:188-210 | A new line, a carriage return and a tab write nothing, and where they move the cursor |
| `Terminal.TypedInView` | src/console.c:45-65 | The view stays as far up as it was as long as that is retained, and if it is not scrolled up it ends with the line of the cursor |
| `Terminal.ScrollExact` | src/console.c:158-180 | Scrolling moves the view by as many lines as asked for, or as far as there are lines among the last 537, and down to the output; the view is then those 25 lines and nothing else changes |
| `Console.RetainsPush` | src/console.c:94-101 | A new line takes the slot of a line that is not retained any more |
| `Console.Console.Putc` | src/console.c:188-210 | The ring of 537 slots follows the terminal that forgets nothing, line i in slot i mod 537, the column below 80, and the screen shows 25 consecutive retained lines at the clamped offset |
| `Console.Console.ScrollView` | src/console.c:158-186 | The view moves within what is retained, and the screen shows it |
| `Console.Console.constructor` | src/console.c:115-129 | The console begins as the empty terminal |
| `IrqNesting.EnterNests` | src/arch/x86_64/irq.c:60-84 | An interrupt of an unmasked line has a smaller priority number than the handler it interrupts, and does not meet the nesting limit |
| `IrqNesting.ServeRestores` | src/arch/x86_64/irq.c:60-97 | A handler left only after those inside it restores mask, priority and stack exactly |
| `IrqNesting.ExitRestoresOwn` | src/arch/x86_64/irq.c:86-97 | An exit restores what a given handler's enter saved exactly when that handler is the innermost |
| `IrqThreads.EveryRun` | src/arch/x86_64/irq.c:60-97 | Over every run of any number of threads, a tick switching between them inside handlers and handlers ending in whatever order, depth is the number of active handlers, never exceeds the number of lines open at boot, and priorities fall with depth |
| `IrqThreads.RestoresExact` | src/arch/x86_64/interrupt_dispatch.c:121-142 | In every such run every end restores the mask and the priority that the handler's own enter saved if and only if handlers end in the reverse of the order they began in, across all threads |
| `IrqThreads.FromBoot` | src/kernel.c:111-117 | From boot, handlers nest at most five deep, below the limit of eight, and the same equivalence holds |
| `IrqThreads.CrossedEnd` | src/arch/x86_64/interrupt_dispatch.c:121-142 | A run from boot, two handlers on two threads and a tick inside each, after which the first handler's end does not bring back the mask it saved |
| `Irq.Controller.Enter` | src/arch/x86_64/irq.c:60-84 | The loop over the lines and the push gives exactly the outcome of `IrqNesting.Enter`, which the laws are about |
| `Irq.Controller.Exit` | src/arch/x86_64/irq.c:86-97 | The pop gives exactly the outcome of `IrqNesting.Exit`, which the laws are about |
| `Disk.SectorSplice` | src/devfs.c:48-53 | Splicing into a sector and writing it back is splicing into the disk |
| `Disk.ReadAfterWrite` | src/devfs.c:10-58 | A read gives back what was written there, and elsewhere what there was |
| `Disk.Device.Read` | src/devfs.c:10-31 | A read at any offset and length gives the slice of the disk or fails, and fails only if a sector cannot be read |
| `Disk.Device.Write` | src/devfs.c:33-58 | A write at any offset and length splices the buffer in and changes nothing else; if a sector fails, exactly a prefix of the buffer has been written |
| `Disk.WriteThenRead` | src/devfs.c:10-58 | On the device itself: what a write put there a read gives back, and what lies elsewhere is what was there |

## Left out

- Hardware access, assembly stubs, descriptor tables, the kernel heap, framebuffer drawing, keymaps, the shell and the debugger stub.
- Locks and interleavings inside a locked region: each region under a lock is one step, and TLB invalidation is not modelled.
- Relocation processing in the ELF loader, after the segments are in place.
- ElfImages.LoadLaw: is for loadable segments that begin at a page boundary of the user region and whose file size is at most their memory size, and for files in which no offset plus size wraps; what an unaligned segment comes to is in `ElfEdges.FirstByteExact` and `ElfSpills.SpillExact`.
- ElfEdges.FirstByteExact: leaves out first chunks that reach into a frame holding a page table, where the copy changes translations and so what is read in the end; `ElfEdges.FirstChunkExact` covers them up to that point.
- ElfSpills.SpillExact: leaves out the same chunks.
- Elf.LoadImage: asks that no offset plus size wraps, since the code would then read outside the file; which headers and segments those are is in `ElfFile.HeadersInFile` and `ElfFile.SegmentInFile`.
- Execve.Prepare: asks the same.
- Addresses in slot 0 of a space: mapping and unmapping do not test for huge pages there, so the laws about user pages are for addresses outside it.
- ProcessOps.MmapLaw: tables made on the way stay allocated to the space after a failure, as in the code; they are freed with the space.
- ProcessRuns.EveryRun: is for break ends in the heap area, mappings in the user region and, with an address, outside the heap area, and growths that do not stop half-way (`ProcessRuns.BrkExact`, `ProcessRuns.HalfGrowthSticks`, `ProcessRuns.BelowStartAccepted`), and for a heap that ends before the mapping base; single calls beyond that are in `ProcessOps.BrkLaw` and `ProcessOps.MmapLaw`.
- FamilyRuns.EveryRun: is for such calls, for those that make no hole (`FamilyRuns.BrkExactly`), and for calls one after the other.
- ThreadRuns.EveryRun: leaves out kills that end a thread another processor is running (`ThreadRuns.KillExact`), creations whose stack stops half-way (`ThreadRuns.CreateExact`), and a bootstrap thread that sleeps, waits or exits.
- ThreadRuns.ExecStackSafe: the stack and, if it cannot be had, the release of the space are one step; other processors' steps do not come between them.
- User frames on kernel stacks and open files of threads: what is on a kernel stack is any content, and a fork takes whether the open files could be copied as an input.
- ThreadRuns.ForkSafe: whether the kernel stack could be had is an input; `KernelStacks.StepAccounted` takes it from the allocator.
- ThreadRuns.WaitSafe: the freeing of the kernel stack is in `KernelStacks.StepAccounted`.
- Scheduler.Scheduler.Create: whether the kernel stack could be had is an input; its frames are accounted for on values only, in `KernelStacks`.
- Scheduler.Scheduler.Fork: the same.
- Scheduler.Scheduler.WaitPid: the freeing of the kernel stack is on values only, in `KernelStacks`.
- KernelStacks.EveryRun: leaves out what `ThreadRuns.EveryRun` does.
- The return value of a waitpid that blocked, and the status it writes through a pointer; fairness of scheduling.
- HeapBlocks.EveryRun: is for requests that are refused or fit (`HeapBlocks.MallocExact`).
- UserHeap.Heap.Malloc: the links of the block list are the order of a sequence, and the kernel's side of `sys_brk` is an input.
- SystemReach.EveryRunReach: leaves out what `ThreadRuns.EveryRun` does, and direct mappings that are not for user code.
- ThreadIds.EveryRunPids: is for runs of fewer than 2 to the 31 steps; which later threads share a pid is in `ThreadIds.SamePid`.
- VfsPaths.CreateExact: is for paths of a directory, a slash and a proper name of at most 255 characters; longer names are cut by the code.
- VfsPaths.CreateMakes: is for the same paths.
- VfsPaths.UnlinkExact: is for the same paths.
- Vfs.FileSystem.Unlink: open files of an unlinked node are not modelled.
- VfsLaws.AddKeepsTree: child lists are sequences of handles, the `next` pointers being their order.
- The contents of memfs files, and devices other than the disk.
- TarLaws.IndexAgrees: is for archives in which no allocation fails while the tree is built, names are proper, and nothing lies below a file.
- Tarfs.AddEntry: no allocation fails.
- Tarfs.PopulateVfs: no allocation fails.
- Pmm.FrameAllocator.Init: the walk over the tags of the boot information to its memory map is left out.
- Console.Console.Putc: cells are written a line at a time, the serial copy of the output is left out, and line numbers do not wrap.
- Interfaces and routes of the network layer.
- IrqThreads.EveryRun: priorities are fixed, as no code changes them after initialisation, and there is one stack of masks, whatever processor a thread runs on.
