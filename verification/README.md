# CoolOS: a verified model of the kernel's stateful core

CoolOS keeps its long-lived state in five places: a first-fit heap whose block headers live in the arena it
manages (`heap.c`), a bitmap of physical pages feeding four-level page tables (`memory.c`), an NVMe queue pair with
a phase bit (`nvme.c`), a round-robin task table with stacks on allocated pages (`schedule.c`, driven by
`syscall.c`), and a text cursor (`syscall.c`). This project models all five in Dafny and proves what they keep
over whole runs.

Every part has two layers. A *specification* describes the state as a value (a list of blocks, a set of used pages,
a partial map of virtual pages, a task table, two unbounded logs) and carries the theorems about all inputs and all
runs. A *class* then does what the C code does, field by field and loop by loop, on bytes or words of memory, and each
of its methods is proved equal to the specification's step.

| part | specification and theorems | imperative code |
|---|---|---|
| heap | `HeapLayout.dfy`, `HeapTheorems.dfy` | `Heap.dfy` over `Bytes.dfy` |
| physical pages | `PageAllocation.dfy` | `PageBitmap.dfy` |
| page tables, TLB, identity map | `PageTree.dfy`, `IdentityMap.dfy` | `PageTables.dfy` |
| scheduler | `Scheduling.dfy` | `TaskTable.dfy` |
| page ownership and first frames across EXEC, TERMINATE, mapping | `Ownership.dfy`, `FirstFrames.dfy` | `Syscalls.dfy` |
| NVMe queue pair | `NvmeQueue.dfy` | `Nvme.dfy` |
| console | `Console.dfy`, `ConsoleGrid.dfy` | `Console.dfy` |

`Bits.dfy` has the arithmetic of masks and of 64-bit wrap-around; `Options.dfy` has `Option`.

## What the main results say

**Heap.** `heap.c` never looks for adjacent free blocks anywhere but beside the block being freed. This suffices
because no two neighbouring blocks are ever both free (`RunKeeps`), which makes the block list a function of the live
blocks alone (`Canonical`). Round trips, commutation of frees, independence of the order of requests
(`HistoryIndependent`) and the return to the single initial block (`DrainRestoresInit`) all follow from that one fact,
for requests of every size. The class stores every header field as bytes at its computed address (`size` at +0,
`next` at +8, `prev` at +16, the 4-byte `free` at +24, `sizeof(HeapBlock)` = 32). Runs include the callers' own stores
into their payloads: headers survive those, and every live byte is the one its owner stored last.

**Pages and tables.** The tree of table pages is tracked as a map from tree position to page. It is injective, its pages
are marked used, and the hardware's walk over the words of memory therefore equals a partial map of virtual pages that
`PageTable_Map` and `PageTable_UnMap` update at one point. A TLB may cache any present translation at any moment, also
between the stores inside one call.

**Scheduler and ownership.** Fairness is the strict decrease of a cyclic distance; ownership is a map from page to its
single owner (table node, user stack, kernel stack, heap arena, leaked) whose domain is, at every step of every run, the
set bits of the bitmap that were not set at boot. A run theorem assumes only what callers must provide: room in a ring,
pages enough for a mapping's tables. A task that has not run starts, when it is first resumed, in
user mode at its function on the top of its stack, read off what the return path pops from memory; and the kernel reaches every page it has handed out at that page's own address.

**NVMe.** Ghost logs count the commands submitted and fetched and the completions posted and consumed; the rings are
windows on those logs. The controller is free to fetch and complete in any order and at any time; a call returns
exactly if the controller fetches and completes its command.

**Console.** The pixel arithmetic refines a cursor over columns and rows, so every glyph's cell and character is known for
every run; the condition on the screen size under which every glyph is inside is exact.

## Where the code has a condition

Each of these is proved in both directions.

- `Console.InsideIff`: glyphs stay on the screen in every run iff the screen is at least 18 wide and 26 high. Below that,
  `width - 8` or `height - 16` wraps or the first glyph already sticks out.
- `Console.RunOverdrawsIff`: over a whole run some character is drawn over an earlier one iff the screen has room for more
  than one line and a character directly follows `'\r'` on a line that is not empty. Read off the text alone.
- `PageTables.MapNeedsInvalidation`: `PageTable_Map` issues no `invlpg` (memory.c:107-119). Whatever the processor caches
  or drops meanwhile, coherent caches stay coherent iff the page was unmapped or is mapped to what it was mapped to
  already; and where the old translation was cached and is kept, `Tables.Map` says that it is stale afterwards.
  `Memory_MapMMIO` and `PageTable_UnMap` invalidate, and `PageTable_Init` loads CR3, so these three leave the caches
  coherent.
- `Syscalls.MapDirectIff`: a mapping keeps every usable page reachable at its own address iff it maps none of them
  elsewhere or read-only.
- `PageTables.MapSucceedsIff`: memory.c:114-118 uses the result of `GetOrCreateTable` without checking for NULL. All tables
  of the path exist afterwards iff the missing ones are no more than the free pages.
- `NvmeQueue.FreshInv`: a new queue pair is consistent iff no completion slot holds phase 1. `NVMe_Init` clears the
  admin buffers; the I/O buffers are zero because they are static.
- `NvmeQueue.SubmitInvIff`: nothing in nvme.c:25-38 checks for a full ring. A submission keeps the rings consistent iff the
  advanced tail differs from the controller's head; otherwise the ring looks empty to the controller. Callers that wait
  for each completion never get there (`SubmitQuiet`).
- `NvmeQueue.CallReturnsIff`: a call returns iff the controller fetches a command and later posts this call's.
- `Nvme.SetupIOQueues`: succeeds iff the controller serves both admin commands.
- `NvmeQueue.TransferDecodes`: the controller transfers `count` blocks iff `count` is between 1 and 65536.
- `Syscalls.Kernel.TerminateSyscall`: TERMINATE returns 0, "no context switch", iff the main task called it.

## Model

| member | source | states |
|---|---|---|
| Bits.RoundUp | heap.c:61-62 | `(x + a - 1) & ~(a - 1)` is the one multiple of the power of two `a` in `[x, x + a)` |
| Bits.AndNotMask | memory.c:89 | `x & ~(2^k - 1)` clears exactly the low `k` bits |
| Bits.OrDisjoint | memory.c:102-103 | `\|` of an aligned address and flags below the alignment is their sum, so neither disturbs the other |
| HeapLayout.FirstFit | heap.c:18-19 | the block found fits, every earlier one does not, and none is reported only if none fits |
| HeapLayout.TakeKeeps | heap.c:21-36 | handing a block out keeps the blocks tiling the arena with no two free neighbours and adds exactly one live block at the old address: cut to `size` bytes if the block has at least `size + 48`, whole otherwise |
| HeapLayout.CarveKeeps | heap.c:68-82 | cutting padding off a used block keeps the layout well formed, puts the used rest's payload at the aligned address, and leaves every other live block as it was |
| HeapLayout.FreeIsSplice | heap.c:91-113 | the two-sided coalescing replaces exactly the maximal run of free blocks around the freed one by one free block |
| HeapLayout.FreeKeeps | heap.c:91-113 | after kfree of a used block the layout is well formed and exactly that block is no longer live |
| HeapLayout.FreeAtKeeps | heap.c:91-113 | kfree keeps the layout well formed even on a block that is free already |
| HeapLayout.FreeOfPaddingIsIdentity | heap.c:84-85 | the kfree inside kmalloc_aligned changes no header field: neither neighbour of the padding is free |
| HeapTheorems.InitWellFormed | heap.c:6-12 | Heap_Init's list is well formed and has no live block |
| HeapTheorems.Canonical | heap.c:6-113 | two well-formed lists over the same arena with the same live blocks are identical |
| HeapTheorems.LiveDisjoint | heap.c:14-89 | distinct live blocks, headers included, do not overlap |
| HeapTheorems.LiveInside | heap.c:14-89 | every live block lies inside the arena |
| HeapTheorems.FirstFitIsLowest | heap.c:17-40 | first fit picks the fitting free block of lowest address, and fails iff no free block fits |
| HeapTheorems.KmallocLaw | heap.c:14-43 | NULL iff no free block fits, and then nothing changed; otherwise the lowest fitting free block is granted, cut to `size` bytes iff it has at least `size + 48`, and the live set grows by exactly it |
| HeapTheorems.AlignedAddressFits | heap.c:55-66 | the padded size always leaves room: the aligned address is at least a header past the raw one, and the request ends inside the block |
| HeapTheorems.KmallocAlignedLaw | heap.c:50-89 | for a power of two above 16: NULL iff no free block holds `size + alignment + 32`, and then nothing changed; otherwise the result is the first multiple of the alignment at least a header past the lowest such block's payload, and the new live block has more than `size` and at most `size + alignment + 47` bytes and ends where that block, taken for the padded request, ends |
| HeapTheorems.KmallocSmallAlign | heap.c:46-48 | for alignments of 16 and below: NULL iff no free block fits `size`; otherwise the lowest one is granted, cut exactly as kmalloc cuts |
| HeapTheorems.KfreeLaw | heap.c:91-113 | kfree of a live pointer keeps the list well formed and removes exactly that block from the live set |
| HeapTheorems.KmallocRoundTrip | heap.c:14-113 | kfree(kmalloc(n)) gives back the identical block list, for every n |
| HeapTheorems.KmallocAlignedRoundTrip | heap.c:45-113 | kfree(kmalloc_aligned(n, a)) gives back the identical block list, padding included |
| HeapTheorems.KfreeCommutes | heap.c:91-113 | freeing two live blocks in either order gives the same list |
| HeapTheorems.RunKeeps | heap.c:14-113 | over every run of kmalloc, kmalloc_aligned and kfree the blocks tile the arena with no two free neighbours |
| HeapTheorems.HistoryIndependent | heap.c:6-113 | two runs from Heap_Init that leave the same live blocks leave the same list |
| HeapTheorems.FootprintIsArena | heap.c:6-113 | the sum of `32 + size` over all blocks is the size of the arena |
| HeapTheorems.DrainRestoresInit | heap.c:6-113 | freeing all live blocks in any order is a legal run and ends in exactly the list Heap_Init made |
| KernelHeap.SpliceRepresents | heap.c:21-36 | if only blocks `f` to `f + k` and the next block's `prev` were written, and the new blocks' headers are right, then every header in memory is right for the new list |
| KernelHeap.LinksInMemory | heap.h:7-12 | read as little-endian words at +0, +8, +16 and +24 of each block: its size, the address where it ends or 0 for the last, the address of the block before or 0, and a flag that is set iff it is free |
| KernelHeap.HeadersMissPayloads | heap.c:91-113 | stores confined to headers change no byte of any payload |
| KernelHeap.PayloadStored | heap.c:36-37 | a store confined to one block's payload leaves every header in memory right |
| KernelHeap.TakenForCarve | heap.c:56-68 | after the padded kmalloc the block before the taken one is used, the carve stays inside the taken block, and the address arithmetic does not wrap |
| KernelHeap.Heap.constructor | heap.c:6-12 | the first header in memory represents the single free block over the whole arena |
| KernelHeap.Heap.Malloc | heap.c:14-43 | list and result are those of the specified kmalloc, all header bytes again represent the list, and no byte of a live payload changed |
| KernelHeap.Heap.Split | heap.c:22-33 | the stores of the split represent the list with the block cut in two, and no byte outside the block and the next header changed |
| KernelHeap.Heap.MallocAligned | heap.c:45-89 | list and result are those of the specified kmalloc_aligned, header bytes represent the list, and no byte of a live payload changed |
| KernelHeap.Heap.Carve | heap.c:70-85 | the stores of the carve and its kfree represent the carved list and touch no other live payload |
| KernelHeap.Heap.Free | heap.c:91-113 | the list becomes that of the specified kfree, header bytes represent it, and no payload byte of any block changed, not even of the freed one |
| KernelHeap.Heap.ClientWrite | heap.c:36-37 | a caller's store into a live payload changes exactly that byte, and the arena still represents the list |
| KernelHeap.Heap.ServeAll | heap.c:14-113 | over a whole run, callers' own stores included, memory represents the specified list and every byte of a payload live throughout is the last one its owner stored there, or the first one |
| PageBitmap.OneBit | memory.c:34 | setting or clearing bit `p % 8` of a byte changes the answer for exactly the pages with that remainder |
| PageBitmap.VisitedAt | memory.c:14-38 | the scan reads a descriptor at each multiple of the stride below the size of the map, and nowhere else |
| PageBitmap.PageAllocator.MarkAllUsed | memory.c:11-12 | every page below MAX_PAGES is used afterwards |
| PageBitmap.PageAllocator.AddOne | memory.c:18-37 | one descriptor frees exactly its pages if usable, and raises the page count if it ends higher, below MAX_PAGES |
| PageBitmap.PageAllocator.Init | memory.c:8-40 | the two nested loops over any list and stride leave the bitmap and the page count of the specification; the count only grows from its earlier value |
| PageBitmap.PageAllocator.MarkUsed | memory.c:42-50 | exactly the run's pages below MAX_PAGES become used |
| PageBitmap.PageAllocator.CountFree | memory.c:57-65 | the inner loop reports the full count iff every page of the run is free |
| PageBitmap.PageAllocator.Alloc | memory.c:52-75 | bitmap and address are those of the lowest run of free pages that starts at page 1 or later and ends within the page count |
| PageBitmap.PageAllocator.Free | memory.c:77-85 | exactly the run's bits are cleared |
| PageAllocation.LowestFromLaw | memory.c:56-72 | the run found is free and inside, and no earlier start from `i` on has a free run |
| PageAllocation.AllocLaw | memory.c:52-75 | NULL iff no run of that length is available; otherwise the result is page-aligned, the lowest available run, and exactly its pages become used |
| PageAllocation.AllocThenFree | memory.c:52-85 | Free after a successful Alloc restores the bitmap exactly |
| PageAllocation.ScanLaw | memory.c:17-39 | a page stays used iff it was used and no usable descriptor covers it; the page count is the largest last page below MAX_PAGES seen so far |
| PageAllocation.BootLaw | memory.c:8-50 | after Init and MarkUsed a page below MAX_PAGES is free iff a usable descriptor covers it and it is not in the marked range |
| PageAllocation.CoversBytes | memory.c:25-36 | a page-aligned range covers the pages whose address lies in it; exactly three types of memory are usable |
| PageAllocation.CountLaw | memory.c:18-23 | the page count after Init lies past every page of every range that ends within the bitmap, and grew only to the first page past one of them |
| PageAllocation.BootAllocLaw | memory.c:8-75 | after boot a one-page Alloc fails iff no usable, unmarked page other than page 0 lies below the page count; so it succeeds whenever a usable range that ends within the bitmap has such a page |
| PageAllocation.ServeAccounted | memory.c:52-85 | one Alloc, or one Free of an owned run, keeps: used pages are those of boot plus the owned runs, owned runs are disjoint and were free at boot |
| PageAllocation.RunAccounted | memory.c:52-85 | the same over every run, so no allocation ever returns page 0, a marked page or one outside usable memory |
| PageAllocation.AllReturned | memory.c:42-85 | once every run is freed the allocator is in its boot state |
| PageTree.SamePage | memory.c:108-112 | two addresses have the same four indices iff bits 47 to 12 agree |
| PageTree.IndexBits | memory.c:109-112 | `& 0x1FF` is the remainder by 512 for every value |
| PageTree.WalkIsLeaf | memory.c:107-119 | the four-level walk over memory equals the lookup in the one last-level table, address, flags and effective permissions |
| PageTree.EntryDecodes | memory.c:118 | the stored entry is present and decodes to exactly the given frame and flags |
| PageTree.LinkBits | memory.c:102-103 | a link entry is present, writable and user-accessible and leads to the table's page |
| PageTree.LinkTable | memory.c:97-103 | linking a cleared page nobody else uses keeps the tree invariant and every translation |
| PageTree.StoreLeaf | memory.c:118 | storing a last-level entry keeps the tree invariant and changes the translation of that page and of no other |
| PageTree.NoTranslation | memory.c:128-137 | where UnMap returns early the page had no translation to remove |
| PageTree.ForeignView | schedule.c:88-104 | writes into a page that holds no table change no translation |
| PageTables.SinglePage | memory.c:92-94 | a one-page Alloc fails iff no page is free, and otherwise uses up exactly one free page |
| PageTables.GrowPathLaw | memory.c:114-116 | with enough free pages the three lookups leave every table of the path in place, each new one on its own page, free before and used now |
| PageTables.MapSucceedsIff | memory.c:107-119 | all tables of the path exist afterwards iff the missing ones are at most the free pages |
| PageTables.CachingIsHarmless | memory.c:107-144 | a TLB that caches more present translations, and may drop others, stays as coherent as it was |
| PageTables.MapTlb | memory.c:107-119 | whatever is cached or dropped before and after the store of one entry: at most the mapped page's cached entry is stale, none is if the translation was absent or the same, and the old one is if it was cached and kept |
| PageTables.MapNeedsInvalidation | memory.c:107-119 | the steps of PageTable_Map, with caching at any moment, keep every coherent TLB coherent iff the page was unmapped or keeps its translation |
| PageTables.Tables.GetOrCreateTable | memory.c:87-105 | returns the child table's address, created on a page of its own if it was missing, NULL iff it was missing and no page is free; no translation changes |
| PageTables.Tables.WalkCreating | memory.c:108-116 | returns the last-level table of the path with all three tables in place; no translation changes |
| PageTables.Tables.Map | memory.c:107-119 | the walk of the page yields exactly (phys, flags), every other page walks as before, only words of tables are written, only this page's cached entry may be stale, and if it was cached and is kept the TLB is coherent iff the translation is the same |
| PageTables.Tables.UnMap | memory.c:121-144 | exactly the page's translation goes, tables and allocator stay, and the TLB is coherent again, on the early returns too |
| PageTables.Tables.MapMMIO | memory.c:205-216 | before the tables exist nothing changes; otherwise exactly the range is identity-mapped writable for user and supervisor, and coherent caches stay coherent |
| PageTables.Tables.Init | memory.c:146-203 | the tables translate exactly the specified initial address space, every new used page is a table, and the caches are coherent after CR3 is loaded |
| IdentityMap.BaseInjective | memory.c:108-112 | different pages below 2^48 have different addresses |
| IdentityMap.InitialSpaceLaw | memory.c:154-199 | no translation is other than identity; a page is present iff it is in a listed descriptor, the framebuffer, an APIC page or the stack window; all are writable, and user access is denied exactly to APIC pages outside the stack window |
| IdentityMap.StackAligned | memory.c:193-197 | the stack window is the aligned megabyte that holds the stack pointer |
| IdentityMap.StackStaysMapped | memory.c:193-202 | the page of the stack pointer is present at its own address, writable and user-accessible, when the tables are loaded |
| IdentityMap.MapDescriptorsLaw | memory.c:155-176 | mapping the descriptors adds exactly the pages of the descriptors of a mapped type |
| IdentityMap.MappedTypes | memory.c:159-166 | exactly four types of memory stay unmapped, and all usable memory is mapped |
| IdentityMap.OverlayIdentity | memory.c:205-216 | mapping one more range keeps the map an identity, covers the range, and unmaps nothing |
| Scheduling.InitOk | schedule.c:10-16 | after Scheduler_Init task 0 is current, the only one, and the only active one |
| Scheduling.SearchLaw | schedule.c:172-178 | the loop finds the first ready task in cyclic order, and nothing iff none is ready |
| Scheduling.StepOk | schedule.c:57-195 | every add, switch and terminate keeps the current task active, task 0 active and unused slots inactive |
| Scheduling.TerminateFindsTask | schedule.c:148-161 | the search after a task dies always succeeds, so the fallback to task 0 is unreachable |
| Scheduling.NextIsNearest | schedule.c:148-156 | no ready task is cyclically nearer than the one found |
| Scheduling.Closer | schedule.c:57-195 | at each effective switch or terminate the cyclic distance to every waiting task strictly decreases; other events leave the current task alone, and a switch with a waiting task is always effective |
| Scheduling.StarvationFree | schedule.c:128-195 | with adds and terminations freely interleaved a waiting task runs within MAX_TASKS - 1 effective steps |
| Scheduling.RoundRobin | schedule.c:169-195 | any number of switches leaves the active set alone and moves that many places along it, cyclically |
| Scheduling.FullRound | schedule.c:169-195 | k switches among k active tasks visit each at exactly one moment and end where they began |
| Scheduling.SavedContexts | schedule.c:57-195 | in every run from boot a ready task's saved frame pointer is the one it was last switched out with, or its initial frame, and is not zero |
| Scheduling.ResumeReturnsSaved | schedule.c:186-193 | an effective step resumes a ready task and returns exactly the pointer saved for it |
| Scheduling.SwitchLaw | schedule.c:169-195 | with no other task ready nothing changes and the interrupted frame is resumed; otherwise the nearest ready task is resumed at its saved frame, the interrupted frame is saved with the current task, and no other entry changes |
| Scheduling.TerminateLaw | schedule.c:128-168 | for task 0 nothing changes; otherwise the task is made inactive and loses its user stack, no other entry changes, and the nearest ready task is resumed at its saved frame |
| Scheduling.IdleStep | schedule.c:180-184 | a switch or terminate that hands the processor to no one returns the table and the frame pointer as they were |
| Scheduling.KeepsContext | schedule.c:57-195 | a step changes the entry of no task but the current one and the one it adds |
| Scheduling.DeadStaysDead | schedule.c:128-195 | a terminated task is never active nor current again |
| TaskTable.FrameBuilt | schedule.c:88-106 | returning to the 22 pushed words (fifteen pops, two words skipped, iretq) starts user mode at the entry on the given stack top, with flags 0x202 and all registers 0; the words lie in the kernel stack's page |
| TaskTable.EntryFrameStarts | interrupt.c:212-228 | what isr_restore and iretq load from an entry frame: RIP is the function, RSP the stack top, both selectors have privilege 3, interrupts are on, all fifteen registers are 0 |
| TaskTable.Scheduler.Init | schedule.c:10-16 | the task table becomes the specified initial one; stack fields of old entries stay as they were |
| TaskTable.Scheduler.BuildFrame | schedule.c:88-104 | returning to the frame at the returned pointer starts user mode at the entry on the given stack top, and no other page was written |
| TaskTable.Scheduler.AddUserTask | schedule.c:57-125 | a full table changes nothing; otherwise one page is taken, the table becomes the specified one and the frame is in memory; with no page left the slot is still used up |
| TaskTable.Scheduler.Switch | schedule.c:169-195 | table and returned frame pointer are the specified ones, the search loop included; with no other task ready both are unchanged |
| TaskTable.Scheduler.Terminate | schedule.c:128-168 | table and frame pointer are the specified ones, and exactly the dying task's user stack is freed, once |
| Ownership.FreshRun | memory.c:52-75 | an allocated run overlaps neither boot memory nor any page with an owner |
| Ownership.TerminateOk | schedule.c:128-168 | terminate keeps single ownership, and the bits it clears are exactly those of the current task's user stack |
| Ownership.ExecOk | syscall.c:174-186 | EXEC keeps single ownership on all paths: full table, no stack, no kernel stack, success |
| Ownership.ExecLaw | syscall.c:174-186 | EXEC case by case: no run of free pages, nothing happens; else the lowest run is taken, leaked with a full table, leaked together with a slot when no page is left for a kernel stack, and otherwise the new task's, with the lowest remaining page as its kernel stack |
| Ownership.MapOk | memory.c:107-119 | mapping a page keeps single ownership, each new table page owned by its tree position |
| Ownership.RunOk | syscall.c:174-201 | in every run of EXEC, switch, terminate, map and heap reservation whose mappings find free pages for their tables, every page has at most one owner, the used pages are exactly those of boot and the owned ones, and pages other than user stacks never change owner |
| Ownership.BootOk | main.c:125-154 | ownership holds after boot, before and after the tables are built |
| Ownership.Exclusive | schedule.c:136-144 | a page of a live task's user stack is used, was free at boot, and belongs to no other task and to no table |
| FirstFrames.ExecFrames | schedule.c:83-107 | EXEC puts the new task's entry frame on its own kernel stack page and keeps the frames of all tasks that have not run |
| FirstFrames.SwitchFrames | schedule.c:169-195 | a switch keeps the frames of all tasks that have not run, but for the one it resumes |
| FirstFrames.TerminateFrames | schedule.c:128-168 | so does a termination |
| FirstFrames.MapFrames | memory.c:107-119 | a mapping, which writes tables only, keeps the frames of all tasks that have not run |
| FirstFrames.FirstResume | interrupt.c:212-228 | a task resumed for the first time runs in user mode at the function given to EXEC, on the top of its own user stack, with interrupts on and all registers 0 |
| Syscalls.OnlyUsableMemory | memory.c:8-75 | a page handed out in any reachable state is not page 0, not of the kernel image, and covered by a usable descriptor |
| Syscalls.AtBootLaw | main.c:125-134 | after the boot calls a page is free iff it is usable, outside the kernel image, and not the lowest such page above 0 below the page count |
| Syscalls.OwnedOnItself | memory.c:97-103 | while usable memory is mapped to itself, every page the kernel has handed out (tables, stacks, heap) is present and writable at its own address |
| Syscalls.InitialDirect | memory.c:154-199 | PageTable_Init maps all usable memory to itself, writable |
| Syscalls.MapDirectIff | memory.c:107-119 | a mapping keeps that iff it maps no usable page elsewhere or read-only |
| Syscalls.MapMMIODirect | memory.c:205-216 | Memory_MapMMIO always keeps it |
| Syscalls.FramePushedView | schedule.c:88-104 | building a task's first frame changes no page table and no translation |
| Syscalls.BootKernel | main.c:125-154 | the boot calls in order leave a consistent kernel with the specified address space, coherent caches, every usable page mapped to itself, and the heap arena, if there is room, page-aligned on 4096 pages of its own |
| Syscalls.BootPages | main.c:125-134 | the three allocator calls of boot leave the specified allocator state |
| Syscalls.Kernel.Exec | syscall.c:174-186 | the state becomes the specified one, ownership holds, a new task joins those that have not run, whose entry frames are all in memory, and no translation changes |
| Syscalls.Kernel.Switch | schedule.c:169-195 | with no other task ready nothing changes and the frame given is resumed; otherwise the nearest ready task at its saved frame, never 0; a task that has not run enters user mode at its function on the top of its stack |
| Syscalls.Kernel.TerminateSyscall | syscall.c:187-201 | the returned pointer is 0, and nothing changes, iff the main task called; otherwise it is the saved frame of the nearest ready task, which enters at its function if it has not run |
| Syscalls.Kernel.MapPage | memory.c:107-119 | exactly one translation changes, only its cached entry may be stale, ownership is kept with the new tables accounted for, and the frames of tasks that have not run stay |
| Syscalls.Kernel.ReserveHeap | main.c:147-154 | the heap arena gets pages of its own; no translation changes |
| NvmeQueue.NextSlot | nvme.c:53-57 | incrementing with wrap and flipping the phase follows the unbounded count: slot is count mod size, phase is 1 iff count / size is even |
| NvmeQueue.SlotsApart | nvme.c:25-34 | counts less than a ring apart have different slots |
| NvmeQueue.FreshInv | nvme.c:109-115 | a new queue pair is consistent iff no completion slot of its ring holds phase 1 |
| NvmeQueue.NewEntryIff | nvme.c:46-47 | the phase test succeeds iff an unconsumed completion exists, and the entry at the head is then the next one posted |
| NvmeQueue.HasRoomIff | nvme.c:25-38 | the two ring indices tell exactly whether fewer than `size - 1` commands wait to be fetched |
| NvmeQueue.SubmitInvIff | nvme.c:25-38 | a submission keeps the rings consistent, no unfetched command overwritten, iff the advanced tail differs from the controller's head; into a full ring it makes the controller see an empty one while `size` commands wait |
| NvmeQueue.PollInv | nvme.c:41-71 | one round of the wait loop keeps the invariant, new entry or not |
| NvmeQueue.ActInv | nvme.c:40-73 | every step a controller may make, fetching or completing in any order, keeps the invariant |
| NvmeQueue.RingsAreFifo | nvme.c:25-73 | under every interleaving of host and controller in which submissions find room, what was fetched is a prefix of what was submitted, what was consumed is a prefix of what was posted, the histories only grow, and the phase test tells consumed and posted apart |
| NvmeQueue.AnswerIsOurs | nvme.c:40-73 | with one command outstanding the next completion carries its identifier, answers that very command, and leaves nothing outstanding |
| NvmeQueue.WaitOutstanding | nvme.c:40-73 | the wait returns only by consuming the completion of the command just submitted, and while it has not returned the controller has posted none |
| NvmeQueue.CallReturnsIff | nvme.c:40-73 | a call returns iff the controller fetches a command and later posts the completion of this call's |
| NvmeQueue.CallsAnswered | nvme.c:248-300 | over any sequence of calls at most one command is outstanding and each call ends with the completion of its own command, though identifiers repeat; all calls return iff the controller serves each |
| NvmeQueue.TransferDecodes | nvme.c:253-267 | the controller reads back operation, identifier, namespace, buffer and 64-bit start block always, and a block count equal modulo 65536, which is the one asked for iff that is 1 to 65536 |
| Nvme.QueuePair.SubmitCommand | nvme.c:25-38 | ring, tail and doorbell become the specified ones |
| Nvme.QueuePair.WaitForCompletion | nvme.c:40-73 | the polling loop against any controller schedule ends in the specified state |
| Nvme.QueuePair.Execute | nvme.c:269-272 | submit and wait: it returns iff the controller serves the command; then the last completion consumed is the submitted command's, and nothing is outstanding |
| Nvme.QueuePair.Read | nvme.c:248-273 | appends one command, with opcode 2, identifier 100 and the namespace, buffer, start block and count asked for, and returns iff the controller serves it, on its own completion |
| Nvme.QueuePair.Write | nvme.c:275-300 | the same with opcode 1 and identifier 101 |
| Nvme.SetupIOQueues | nvme.c:75-122 | succeeds iff the controller serves both admin commands, which a controller decodes as creating the completion and the submission queue over the given buffers with the identifier and size of the queue pair returned; that pair, with the doorbells of queue 1, is ready for calls |
| Console.PrintAppend | syscall.c:150-172 | printing s and then t equals printing s + t, from every state |
| Console.PutOk | syscall.c:151-169 | one character keeps the cursor on the grid and every glyph inside the screen |
| Console.RunOk | syscall.c:130-173 | the same over any number of PRINT and CLEAR calls |
| Console.InsideIff | syscall.c:143-169 | every glyph of every run is inside the screen iff the screen is at least 18 by 26 |
| Console.OverdrawIff | syscall.c:155-158 | the next glyph overlaps one on the screen iff the cursor was moved back on its line |
| Console.RunIsPlay | syscall.c:130-173 | a run of calls equals its characters and clears taken one by one |
| Console.RunOverdrawsIff | syscall.c:130-173 | over a whole run of PRINT and CLEAR a character is drawn over an earlier one iff the screen has room for more than one line and a character directly follows a carriage return on a line that is not empty |
| Console.PrintShows | syscall.c:150-172 | printing a text draws its characters other than line feeds and carriage returns, each once and in order |
| Console.RunShows | syscall.c:130-173 | so does a whole run of PRINT and CLEAR calls with the texts it prints |
| ConsoleGrid.ScreenIsPage | syscall.c:143-171 | cursor, screen and all glyphs ever drawn are those of a page of cells: each visible character in the next cell, rows of a fixed number of columns, the page cleared after a fixed number of rows |
| ConsoleGrid.RunIsPage | syscall.c:130-173 | the same for every run of PRINT and CLEAR calls |
| Console.RunNoOverdraw | syscall.c:130-173 | text without a carriage return never overdraws a glyph printed since the screen was last cleared |
| Console.Terminal.PrintCall | syscall.c:136-173 | the loop over the terminated string leaves the specified cursor and glyphs, with 800 and 600 where the screen reports 0, and draws exactly the visible characters of the string in order |
| Console.Terminal.ClearCall | syscall.c:130-135 | cursor at (10, 10), screen empty |

## What callers must respect

The contracts ask for what the C code relies on without checking.

- Heap: the arena has room for a header, does not contain address 0, does not wrap, and is more than 16 bytes short of
  2^64; so the sum at heap.c:21, guarded by heap.c:19, does not wrap. `kmalloc_aligned` above 16 needs a power of two
  and `size + alignment + 32` below 2^64 (heap.c:55). `kfree` gets NULL or a block's payload pointer.
- Tables: a frame address is page-aligned and below 2^52, flags are below 4096, and enough pages are free for
  the missing tables. Ranges given to `PageTable_Init` and `Memory_MapMMIO` start on a page and end below 2^48. A
  memory descriptor's end does not wrap.
- NVMe: a queue has at least two entries.

## Left out

- PageTables.Tables.Map: what happens on the NULL dereference when pages run out is not modelled; `MapSucceedsIff` says exactly when it is reached.
- Syscalls.BootKernel: requires more free pages than the tables its ranges need (the set `needed`); firmware, graphics and device calls between the steps are not modelled.
- Nvme.QueuePair.WaitForCompletion: the polling loop runs against a finite schedule of controller steps; `CallReturnsIff` says which schedules end it.
- IdentityMap.InitialSpaceLaw: `kernel_base` and `kernel_size` are unused in the original too.
- HeapTheorems.KmallocSmallAlign: alignment is not stated for requests of 16 and below, because kmalloc does not round sizes.
- Memory contents of a saved interrupt frame while its task waits: all user-mode entries share one kernel stack, so only the frame pointers are modelled, except for the entry frame of a task that has not run.
- Page contents other than page tables and entry frames; the heap arena's bytes and the pages' words are not one memory.
- Reclaiming leaked pages: kernel stacks, and the user stack when EXEC finds no slot or no kernel stack, have the owner `KernelStack` or `Leaked` for good, as in the original, and task slots are never reused.
- Pages above 4 GB: a descriptor ending at or above MAX_PAGES does not raise the page count (memory.c:21-23), and the model does the same.
- Large pages, accessed and dirty bits, and caches of upper-level entries: the tables of memory.c have only 4 KB leaves, and upper-level entries never change once present.
- Syscalls HALT and KMALLOC, which fall through into the next case, and the dispatch number; the heap and NVMe functions are modelled directly.
- Scheduler_AddTask, which nothing calls.
- Glyph pixels, colours and the scheduler's on-screen messages.
- Interrupt entry and return code, descriptor tables, model-specific registers; of CR3 loads and invlpg only the effect on the TLB is kept.
- NVMe register bring-up, Identify, PRP lists beyond the first pointer, error status, time.
- PCI, ACPI, local and I/O APIC, keyboard, timer, firmware boot, libc and hexadecimal printing.
