# A verified model of the kernel's memory stack, task switching and terminal

The project models five parts of a small 32-bit x86 kernel and proves what they keep over whole runs.

* **Kernel heap.** `FreeList` is the address-sorted free list as a value, `HeapRuns` and `HeapGrowth` what calls of
  `kmalloc` and `kfree`, page fetches included, make of it. `HeapMemory` is the same list as size and link words in
  memory, `KernelHeap` the code itself, which reads and writes those words one at a time. `HeapWords` has whole runs on
  the words, with the clients' own writes, and says exactly which of them follow the list; `HeapStored` follows the
  third word of each block, through which a block that cannot be split is handed out.
* **Physical pages.** `PhysicalMemory` is the pool with its frame bitmap and the code that scans it; `Words` has the
  page and bit macros.
* **Paging and virtual pages.** `Paging` is the two-level walk (32-bit paging, Intel SDM volume 3A, section 4.3) and
  the table updates, `Vmm` the block list with its growth, where `vmm_alloc_page`, `vmm_add_vmm_block` and `kmalloc`
  call each other. `VmmInvariant` and `VmmSteps` hold the invariant, `VmmRuns`, `VmmBump` and `VmmFacts` what follows
  for every run from boot, `VmmRights` who may read and write what, `Userspace` the two tables
  `paging_add_temp_userspace` adds. `KernelMemory` is the code, with linked descriptors, proved equal to the functions
  of `Vmm`.
* **Tasks.** `Trapframe` is the layout of a saved context, `Tasks` a machine that runs one task at a time and takes
  interrupts, `TaskRuns` what every run keeps, `TaskSwitch` the code, pushing and popping word by word.
* **Terminal.** `TerminalPage` is an unbounded page of text, `Terminal` the 80x25 buffer as a window on it.

Each part has the same shape. The code is a class whose methods follow the source statement by statement; every
method is proved to take the old state to what a function says; the theorems are about that function, over every
input and every run. Machine words wrap where the source's do. Calls that do not come back (a panic, a page fault, a
write through NULL or past a descriptor) are outcomes, not preconditions. The write through NULL faults only until
`paging_add_temp_userspace` maps address 0; after that it comes back, and the run is cut there all the same. So is it
at a `vmm_free_page` that clears a bit of a descriptor's field and comes back: `FreeHitsOwnBit` says which bit.

Where the code does something else than it is meant to, the code is modelled as written and the exact condition is
proved under which it does what it is meant to: `PoolIsLargest`, `FreeUndoesAlloc`, `GrantIsOffTheList`,
`GrantedTwice`, `StoredWordIsPayload`, `SplitDisturbs`, `TracksExactly`, `FreeKeepsBytes`, `TailStale`,
`AppendKeepsAll`, `JoinCanonical`, `InitMapsKernel`, `ReservedExactly`, `FreeHitsOwnBit`, `PhysAddrExactly`,
`FreeThenAlloc`, `RoundsExactly`, `AllocEnds` (growth without a descriptor writes through NULL), `TableHandedOut`,
`PoolAliasesHead`, `TableShares`, `StoreKeepsExactly`, `UserStackShares`, `BackspaceUndoes`.

Two of these reach whole runs. A request of the last seven sizes wraps to zero bytes, and its bare header may be stored
over the header of a live block; the heap's run theorems hold of the runs in which that does not happen (`Guarded`,
which every run without such a request is), and of no other: `WrappedRunFails` is a run of four calls. And the pool
hands out frames that are already behind pages of the first block, so growth puts page tables, cleared first, into
frames that pages in use are mapped to; the run theorems of the page allocator hold of runs whose stores miss the
tables (`StoresMiss`). In the order kmain calls things the first such table is the user task's kernel stack
(`FirstTableFromKmain`): the growth clears the frame saved there, and interrupts in user mode write to the table from
then on.

What the proofs assume of a caller: pool addresses that fit the 8192-word frame bitmap (262144 pages), a first free
page below slot 1022, that the out-of-frames warning has not been printed (`Sound`) or two more frames are left
(`FramesLeft`), that no store goes to a frame that holds a page table by then (`StoresMiss`; by `TableShares` pages in
use are at risk until the pool has moved past the first 4 MiB), and at most 256 blocks (the kernel's address space).
`RoomToGrow`, where it appears, is asked only of an allocation that is about to grow; `AllocEnds` says what happens
without it. For tasks, running code is trusted to
write neither the saved frames of other tasks nor outside its own kernel stack (`Behaves`). The kernel as it boots
breaks that trust: `FirstPushHitsTrapframe` shows that the user stack kmain sets up and the kernel task's stack are
one frame, so the first push in user mode overwrites a saved frame. The task theorems hold of a kernel whose user
stack has memory of its own; by `UserStackShares` that takes a pool that has moved past the first 4 MiB.

## Model

| member | source | states |
|---|---|---|
| Words.IndicesSplit | include/kernel/memory/paging.h:11-12 | directory index, table index and offset name an address, and the two macros get them back |
| Words.SetBitMacro | include/kernel/common/common_macros.h:5-6 | SET_BIT sets its bit as CHECK_BIT_SET reads it and no other |
| Words.ClearBitMacro | include/kernel/common/common_macros.h:5-7 | CLEAR_BIT clears its bit and no other |
| Words.LowBitsMacro | kernel/memory/vmm.c:117-120 | the mask of the partly reserved word has exactly the low bits set |
| Words.SetBitUpdates | include/kernel/common/common_macros.h:5-7 | on the sequence of a word's 32 bits SET_BIT and CLEAR_BIT are updates of one element, so words can be handled as sequences |
| PhysicalMemory.PoolIsLargest | kernel/memory/pmm.c:34-54 | the pool is the largest run of whole pages between kernel end and memory end exactly when whole pages remain and memory does not end in the last page of the address space |
| PhysicalMemory.AllocTakesLowest | kernel/memory/pmm.c:117-155 | allocation returns NULL exactly when the first 32*(page_count/32) pages are taken, else takes the lowest free one and changes only its bit |
| PhysicalMemory.AllocIsFresh | kernel/memory/pmm.c:117-155 | the bitmap is a set of handed-out addresses; allocation adds exactly one that was not in it |
| PhysicalMemory.FreeUndoesAlloc | kernel/memory/pmm.c:157-178 | freeing the page just allocated restores the pool exactly when its address is within the product the code uses as upper bound; otherwise it panics |
| PhysicalMemory.FreeTakesWholePage | kernel/memory/pmm.c:157-178 | any address of a page frees it; the free succeeds exactly when the page lies between the start and the written bound and within the bitmap |
| PhysicalMemory.WrittenBoundValue | kernel/memory/pmm.c:163 | what the multiplication instead of addition amounts to: a multiple of 16 MiB |
| PhysicalMemory.MegabytePoolNeverFrees | kernel/memory/pmm.c:157-178 | a pool that starts at a multiple of 1 MiB, empty or not, never takes a page back |
| PhysicalMemory.Pmm.InitStruct | kernel/memory/pmm.c:34-54 | start, size and page count of the pool, with an empty bitmap |
| PhysicalMemory.Pmm.AllocPage | kernel/memory/pmm.c:117-155 | the nested scan over words and bits computes the pool and address AllocTakesLowest speaks of |
| PhysicalMemory.Pmm.FreePage | kernel/memory/pmm.c:157-178 | clears the page's bit or ends in the panic, as FreeUndoesAlloc speaks of |
| FreeList.CanonicalUnique | kernel/memory/kmalloc.c:21-31 | two sorted lists without touching blocks that cover the same bytes are the same list |
| FreeList.ReleaseCanonical | kernel/memory/kmalloc.c:152-211 | freeing a block clear of a canonical list gives a canonical list covering exactly the old bytes and the block's |
| FreeList.ReleaseCommutes | kernel/memory/kmalloc.c:152-211 | two disjoint blocks may be freed in either order |
| FreeList.FirstFit | kernel/memory/kmalloc.c:107-134 | no earlier block fits the request and the chosen one does |
| FreeList.SplitCanonical | kernel/memory/kmalloc.c:40-51 | a split takes exactly the new block's bytes off the list, which stays canonical |
| FreeList.MallocThenFree | kernel/memory/kmalloc.c:97-211 | when the first fit splits, freeing what kmalloc returned restores every address, size and link |
| HeapRuns.InitialTiles | kernel/memory/kmalloc.c:85-95 | the arena kmalloc_init leaves is tiled: live and free blocks are disjoint and cover exactly its bytes |
| HeapGrowth.JoinCanonical | kernel/memory/kmalloc.c:138-147 | a fetched page leaves the list sorted and untouching exactly when it lies beyond the last block and does not touch it |
| HeapGrowth.FetchKeepsTiles | kernel/memory/kmalloc.c:137-147 | when a page joins the list properly, live and free blocks tile the arena and the page |
| HeapMemory.SplitPath | kernel/memory/kmalloc.c:40-51 | after the split's four writes the words in memory link exactly the split list |
| HeapMemory.FreePath | kernel/memory/kmalloc.c:152-211 | after kfree's writes, in the head, middle, end and merging cases, the words link exactly the released list |
| HeapMemory.FreeWritesFrame | kernel/memory/kmalloc.c:152-211 | kfree writes no byte outside the free blocks and the freed one |
| HeapMemory.TailStale | kernel/memory/kmalloc.c:74-82 | block_list_tail ends up inside a merged block exactly when the freed block is absorbed by its left neighbour at the end of the list |
| HeapMemory.AppendPath | kernel/memory/kmalloc.c:138-147 | the words after kmalloc links a fetched page clear of the list, wherever it lies |
| HeapMemory.AppendKeepsAll | kernel/memory/kmalloc.c:138-149 | the page joins the list without losing a block exactly when block_list_tail is still its last block |
| KernelHeap.SplitSeparate | kernel/memory/kmalloc.c:115-121 | a split that does not store its payload pointer over a live header leaves every word of every live block as it was |
| KernelHeap.SplitDisturbs | kernel/memory/kmalloc.c:40-51 | a split changes a live header exactly when its request wrapped to no bytes and a live block whose size is not that address starts where the split block ends |
| KernelHeap.FreeKeepsSeparate | kernel/memory/kmalloc.c:152-211 | kfree leaves every word of every other live block as it was |
| HeapWords.CallKeeps | kernel/memory/kmalloc.c:97-211 | a call that spares the live headers does to the words what HeapGrowth says of the list, kfree reading the size in memory; live and free blocks go on tiling the heap and every word of every other live block reads as before |
| HeapWords.GrantHasRoom | kernel/memory/kmalloc.c:97-128 | a served request gets a block that was not live, its size in its header, with room for what was asked unless the request wrapped |
| HeapWords.RunOnWords | kernel/memory/kmalloc.c:85-211 | in a run whose wrapped requests spare the live headers the words link exactly the list of the value-level run at every point, and the tiling holds; sizes are at least 16 when no request wraps |
| HeapWords.OrdinaryIsGuarded | kernel/memory/kmalloc.c:97-128 | runs without a request of the last seven sizes are such runs |
| HeapWords.TracksExactly | kernel/memory/kmalloc.c:40-51 | and only those: the words follow the list, for every call and for a kfree of any block at any point, exactly when every wrapped request spares the live headers |
| HeapWords.WrappedRunFails | kernel/memory/kmalloc.c:104 | requests for 8 and 0xFFFFFFFF bytes and the two frees leave a free block of the wrong size in memory where the list as a value is the initial one |
| HeapWords.RunRestores | kernel/memory/kmalloc.c:85-211 | whenever everything is freed in such a run, in whatever order, the words link the one canonical list of the arena and the fetched pages, without pages the single initial block |
| HeapStored.CallKeepsStored | kernel/memory/kmalloc.c:40-211 | no call changes the third word of a listed or live block of at least 16 bytes; only a client that stores there does |
| HeapStored.PageIsStored | kernel/memory/kmalloc.c:140-147 | a fetched page joins the list with 4096 bytes and the address behind its header in its third word |
| HeapStored.ListedKeepsStored | kernel/memory/kmalloc.c:85-211 | along every guarded run a block that stays on the list keeps that word, whatever it merges with and whatever clients store |
| HeapStored.ArenaGrant | kernel/memory/kmalloc.c:85-128 | along every guarded run from kmalloc_init the arena heads the list and its third word is the arena + 8, so an unsplit grant of it returns that |
| HeapStored.UnsplitGrant | kernel/memory/kmalloc.c:85-211 | in every run from kmalloc_init without a wrapped request, an unsplit grant of any block returns the address behind its header unless a client once stored to its third word |
| KernelHeap.GrantIsOffTheList | kernel/memory/kmalloc.c:113-127 | kmalloc's pointer is to a block taken out of the list exactly when the first fit has at least 40 bytes more than the rounded request, whatever word an unsplit block holds |
| KernelHeap.GrantInNumbers | kernel/memory/kmalloc.c:97-128 | for every request: with r the only multiple of 8 from size to size + 7, or 0 for the last seven sizes, the first block of at least r + 8 bytes loses its last r + 8 bytes, which are handed out with their size word and stored word, exactly when it has at least r + 40; else nothing changes and its third word is returned |
| KernelHeap.NoGrantInNumbers | kernel/memory/kmalloc.c:107-137 | with no block of r + 8 bytes nothing changes before the page request |
| KernelHeap.GrantedTwice | kernel/memory/kmalloc.c:122-125 | after an unsplit grant the next request of that size gets the same pointer; after a split another one, unless an overwritten stored word is handed out |
| KernelHeap.StoredWordIsPayload | kernel/memory/kmalloc.c:122-125 | a block freed and then handed out unsplit comes back under its own address exactly when its last owner left the stored word alone: kfree does not restore it |
| KernelHeap.FreeKeepsBytes | kernel/memory/kmalloc.c:152-211 | kfree loses no free bytes exactly when the block was clear of the list or was all of it |
| KernelHeap.Kmalloc.constructor | kernel/memory/kmalloc.c:85-95 | one block of 4096 bytes in memory with its three words, head and tail on it; the words are those every run of HeapWords starts from |
| KernelHeap.Kmalloc.SplitBlock | kernel/memory/kmalloc.c:40-51 | exactly the writes of SplitPath, returning the new block's payload |
| KernelHeap.Kmalloc.FindFit | kernel/memory/kmalloc.c:106-134 | the walk stops at the first block that fits, or at NULL |
| KernelHeap.Kmalloc.FitBlock | kernel/memory/kmalloc.c:97-135 | memory, list and pointer as Grant says, a step of HeapRuns when the first fit splits and its pointer does not wrap to NULL; NULL when nothing fits or the stored word is zero; live blocks stay separate exactly when their headers are spared |
| KernelHeap.Kmalloc.AppendPage | kernel/memory/kmalloc.c:138-147 | the four writes after the page request, size word and stored word among them, the list they link, and that the list stays canonical when the page lies beyond it |
| KernelHeap.Kmalloc.StoreWord | kernel/memory/kmalloc.c:97-128 | a client that writes inside a block it holds disturbs neither the list nor another block |
| KernelHeap.Kmalloc.Coalesce | kernel/memory/kmalloc.c:53-83 | the merge's writes and what they do to the tail |
| KernelHeap.Kmalloc.FindNeighbours | kernel/memory/kmalloc.c:165-188 | the walk finds the free blocks on either side |
| KernelHeap.Kmalloc.Link | kernel/memory/kmalloc.c:190-208 | the three ways of linking a block in |
| KernelHeap.Kmalloc.Kfree | kernel/memory/kmalloc.c:152-211 | memory, list and tail after kfree; on a live block it is the step of HeapRuns and live blocks stay separate |
| Paging.InitMapsKernel | kernel/memory/paging.c:46-110 | while the pool lasts, after paging_init the kernel's first 4 MiB translate to the first 4 MiB of memory, writable and closed to user mode, and nothing else translates, whatever memory held, exactly when both frames it takes are below 4 MiB |
| Paging.InitReturns | kernel/memory/paging.c:46-110 | paging_init comes back exactly when both frames lie in the first 4 MiB or in the 4 MiB from 1 GiB on, its first page apart: the pointers the boot tables map |
| Vmm.ReservedExactly | kernel/memory/vmm.c:113-120 | vmm_init does not clear its descriptor: the bitmap reserves exactly the first pages exactly when the words above the last one written were zero |
| Vmm.InitBegins | kernel/memory/vmm.c:104-120 | whatever the descriptor's memory held, every page up to the first table's own is out, the mark is one above it, free_pages is what is left of 1024, first_page is 0xC0000000, and above the last word written the bits stay |
| Vmm.InitOverZero | kernel/memory/vmm.c:100-125 | the descriptor is the one boot starts from exactly when those words were zero |
| Vmm.DescriptorBytes | kernel/memory/vmm.c:20-31 | a descriptor takes 32 bitmap words, four fields and a link |
| KernelMemory.Memory.MapFirstPages | kernel/memory/paging.c:72-89 | the loop over 1024 frames writes the identity table into its frame and touches no other |
| Paging.AddTableThenWalk | kernel/memory/paging.c:118-130 | after paging_add_page_table the 4 MiB around the address translate by the table given, closed to user mode, all other addresses as before |
| Paging.PresentMeansMapped | kernel/memory/paging.c:132-141 | through the table of its 4 MiB, paging_is_virtual_page_present says whether the page translates |
| Paging.MapThenWalk | kernel/memory/paging.c:143-157 | after paging_map_virtual_page the page translates to the frame returned, writable where its directory entry is, addresses in other slots or tables as before |
| VmmInvariant.SelfMap | kernel/memory/vmm.c:75-98 | in a good state the directory entry of each block names the frame its virtual page_table pointer translates to |
| VmmInvariant.MapFresh | kernel/memory/paging.c:143-157 | installing a fresh frame above a later block's mark keeps every block's table, every other entry and frame ownership |
| VmmInvariant.AddTable | kernel/memory/paging.c:118-130 | adding the next block's table at slot 1022 keeps them too, the slot's entry apart, and the new table is empty |
| VmmInvariant.StoreKeepsExactly | kernel/memory/vmm.c:75-98 | a store to a frame keeps directory and tables good for every word and every value exactly when the frame holds neither the directory nor a block's table |
| VmmSteps.FreePagesScan | kernel/memory/vmm.c:135-161 | while free_pages is not zero the bitmap scan succeeds |
| VmmSteps.TakeOk | kernel/memory/vmm.c:144-154 | taking a page raises the mark by at most one and keeps the page accounting |
| VmmSteps.ExtendAdds | kernel/memory/vmm.c:75-98 | vmm_add_vmm_block after its kmalloc: one frame, one directory entry, one cleared table, one descriptor |
| VmmSteps.AllocKeeps | kernel/memory/vmm.c:127-192 | the invariant is kept by every allocation, growth included; mapped entries but the head's slot stay |
| VmmRuns.BootOk | kernel/memory/paging.c:46-110 | paging_init and vmm_init establish the invariant on a fresh pool |
| VmmRuns.FreeHitsOwnBit | kernel/memory/vmm.c:194-232 | vmm_free_page clears the page's own bit exactly for pages of the first block; pages 0-159 of the second clear a bit of the first descriptor's mark, free_pages, first_page, page_table or link, and all others write behind it |
| VmmRuns.FieldHitIs | kernel/memory/vmm.c:194-232 | such a write clears that bit and no other, so nothing happens exactly when it was clear |
| VmmRuns.FreeKeeps | kernel/memory/vmm.c:194-232 | a free that stays inside the bitmap keeps the invariant and every mapping |
| VmmRuns.RunKeeps | kernel/memory/vmm.c:100-232 | the invariant holds after every run of allocations, frees and stores that miss the tables, and mappings stay along it |
| VmmRights.AllocRights | kernel/memory/vmm.c:127-192 | every allocation, growth included, leaves only the blocks' directory entries present, writable and not for user mode, and every page mapped writable |
| VmmRights.ReachableRights | kernel/memory/vmm.c:75-232 | in every state reached from boot by allocations, frees and stores that miss the tables, a kernel address that translates is writable and closed to user mode, by both levels of the walk |
| VmmRuns.AllocMonotone | kernel/memory/pmm.c:117-155 | a warning once printed stays: a run that ends without one never ran out of frames |
| VmmBump.FilledPrefix | kernel/memory/vmm.c:44-73 | without frees a bitmap is exactly the prefix below its mark and free_pages what is left |
| VmmBump.AllocBumps | kernel/memory/vmm.c:127-192 | with c pages out, the next allocation returns page c and leaves c + 1 out |
| VmmBump.NthPage | kernel/memory/vmm.c:100-192 | over whole runs, allocation n + 1 returns kernel base + (first free page + n) * 4096, across block boundaries |
| VmmBump.NthPageFromBoot | kernel/memory/vmm.c:100-192 | so the nth page after boot follows the kernel image, the directory and the first table in order |
| VmmBump.BootBumped | kernel/memory/vmm.c:100-125 | the runs start with the kernel image's pages out |
| VmmFacts.FramesDistinct | kernel/memory/paging.c:143-157 | directory, page tables and installed entries name pairwise different frames, taken in the pool, but for a slot and the table it holds |
| VmmFacts.Reachable | kernel/memory/vmm.c:75-232 | every state reached from boot by allocations, frees and stores that miss the tables maps its tables to themselves, accounts for its pages, has distinct frames, and has a successor for exactly the blocks whose mark is at least 1022 |
| VmmFacts.AllocEnds | kernel/memory/vmm.c:127-192 | how every allocation ends: it succeeds exactly when a block has a page and, at the threshold, the heap has a descriptor; without one it writes through the NULL kmalloc returns, or panics if that page was the last |
| VmmFacts.FitServes | kernel/memory/kmalloc.c:97-150 | a heap in memory has a descriptor exactly when some block fits one |
| VmmFacts.PanicExactly | kernel/memory/vmm.c:132-167 | unless growth is due without a descriptor, the out-of-memory panic happens exactly when free_pages is zero in every block, and nothing else goes wrong |
| VmmFacts.NeverPanics | kernel/memory/vmm.c:127-192 | without frees it never happens while the address space lasts |
| VmmFacts.GrowthNestsOnce | kernel/memory/vmm.c:169-178 | one allocation adds one block at the threshold and none otherwise, and leaves the flag as it was |
| VmmFacts.TableHandedOut | kernel/memory/vmm.c:86-91 | an allocation returns the page of some block's page table exactly when it takes slot 1022 |
| VmmFacts.TableHandedOutWhen | kernel/memory/vmm.c:86-91 | without frees that is exactly every allocation with 1022 modulo 1024 pages out |
| VmmFacts.PhysAddrExactly | kernel/memory/vmm.c:234-267 | vmm_get_phys_addr agrees with the two-level walk exactly for pages of the first block |
| VmmFacts.PoolAliasesHead | kernel/memory/paging.c:72-89 | the frame the pool gives next is already mapped by the first table exactly when the pool's lowest free page lies in the first 4 MiB, a taken-over slot apart |
| VmmFacts.FirstFrameAliases | kernel/memory/paging.c:72-89 | after boot that is so: the first page handed out and the pool's next frame are the same memory |
| VmmFacts.TableFrame | kernel/memory/vmm.c:89-93 | a growth puts its page table into the pool's next frame and clears what was there |
| VmmFacts.TableShares | kernel/memory/vmm.c:89-93 | that frame is behind a page of the first block exactly when the pool's lowest free page before the call is in the first 4 MiB and not the slot's |
| VmmFacts.FirstTableFromBoot | kernel/memory/vmm.c:89-93 | along every run from boot the first growth puts its table where the first page handed out is |
| VmmFacts.FreeThenAlloc | kernel/memory/vmm.c:180-232 | after a page of the first block is freed the next allocation takes the lowest free page with no change to mappings or pool; it is the freed one exactly when all below are taken |
| VmmFacts.RoundsExactly | kernel/memory/vmm.c:135-232 | free_pages is never restored: n rounds of freeing a page and getting it back succeed exactly for n up to free_pages, then the page is lost |
| Userspace.UserspaceKeeps | kernel/memory/paging.c:248-315 | paging_add_temp_userspace keeps the invariant, maps the first 4 MiB to themselves and the stack page to the pool's next frame, present, writable and open to user mode by both levels, and opens no kernel address to it |
| Userspace.UserStackShares | kernel/memory/paging.c:281-309 | the user stack shares its frame with a page of the kernel's first block exactly when the pool's lowest free page before the call is one of the first 1024 frames |
| Userspace.KmainIsEarly | kernel/kernel.c:78-87 | after kmain's two page allocations the state is early enough, the pool is as boot left it, and the kernel task's stack is the page numbered like the pool's next frame |
| Userspace.KmainStacksShare | kernel/kernel.c:78-87 | so in kmain's order the user stack and the kernel task's stack are one frame |
| Userspace.RightsFromKmain | kernel/kernel.c:78-87 | after kmain's call user mode may read and write its 4 MiB and its stack page, and along every later run whose stores miss the tables no kernel address |
| Userspace.FirstPushHitsTrapframe | kernel/task/task.c:97-137 | and the first word a user task pushes is the saved eflags of the kernel task's initial trapframe |
| Userspace.ReachableFromKmain | kernel/kernel.c:78-87 | every run after kmain's call whose stores miss the tables keeps the reachable-state properties |
| Userspace.FirstTableFromKmain | kernel/task/task.c:117-146 | in kmain's order, whatever is called in between, the first growth puts block 1's page table where the user task's kernel stack is and clears it, and the word that saves its esp is the table's own slot |
| Userspace.ReachableWithUserspace | kernel/memory/paging.c:248-315 | the reachable-state properties hold for runs that add the user tables early, with stores that miss the tables |
| Userspace.BootIsEarly | kernel/memory/vmm.c:100-125 | right after vmm_init the state is early, with as many pages left as the kernel image allows |
| KernelMemory.VmmBlock.GetPageFromBitmap | kernel/memory/vmm.c:44-73 | finds and sets the lowest clear bit, or reports there is none and changes nothing |
| KernelMemory.VmmBlock.Reserve | kernel/memory/vmm.c:113-120 | the first pages are set, and the words above the last one written stay |
| KernelMemory.Memory.PagingInit | kernel/memory/paging.c:46-110 | directory, table and cr3 as Paging.Init says |
| KernelMemory.Memory.PagingMapVirtualPage | kernel/memory/paging.c:143-157 | a frame from the pool in the page's entry |
| KernelMemory.Memory.PagingAddTempUserspace | kernel/memory/paging.c:248-315 | both user tables, as Userspace.AddUserspace says with the lists its two allocations find |
| KernelMemory.Memory.VmmInit | kernel/memory/vmm.c:100-125 | the list with its first descriptor, over whatever the bitmap's memory held: pages, mark and fields as InitBegins says |
| KernelMemory.Memory.KmainMemory | kernel/kernel.c:67-74 | paging_init and vmm_init on a fresh pool and heap leave exactly the state every run theorem starts from, when the descriptor's memory was zero, and take 160 bytes off the arena |
| KernelMemory.Memory.TakePage | kernel/memory/vmm.c:129-162 | the page comes from the first block that has one, lowest bit first |
| KernelMemory.Memory.VmmAddVmmBlock | kernel/memory/vmm.c:75-98 | the whole state after a block was added, as Vmm.AddBlock says |
| KernelMemory.Memory.VmmAllocPage | kernel/memory/vmm.c:127-192 | the whole state and the page after an allocation, or how it fails; the mutual recursion terminates |
| KernelMemory.Memory.Kmalloc | kernel/memory/kmalloc.c:97-150 | kmalloc with its page request, for every heap: what the list served is returned, else a page is fetched and NULL returned, and the page joins the list when the tail is right |
| KernelMemory.Memory.VmmFreePage | kernel/memory/vmm.c:194-232 | the cleared bit of the bitmap or of a field behind it, the panic, or how far past them the write would go |
| KernelMemory.Memory.VmmGetPhysAddr | kernel/memory/vmm.c:234-267 | the entry it reads, or a page fault |
| Trapframe.EnabledBit | kernel/task/task_switch.asm:24-25 | the patch sets bit 9 of eflags and no other |
| Trapframe.SaveRestore | kernel/interrupt/init_idt.asm:109-131 | what an interrupt pushes restores every register, for kernel and user frames |
| Trapframe.FrameWords | kernel/interrupt/init_idt.asm:109-141 | the frame word by word as struct trapframe has it: the interrupt number at 36, 0 as error code at 40 |
| Trapframe.SaveFrame | kernel/interrupt/init_idt.asm:109-141 | pushing changes no word outside the frame |
| Trapframe.KernelStarts | kernel/task/task.c:94-106 | a new kernel task's frame restores zeroed registers, esp at the stack base, eflags 2 and the kernel's segments |
| Trapframe.UserStarts | kernel/task/task.c:126-137 | a new user task's frame restores zeroed registers, esp at the kernel base, eflags 2 and the user segments |
| TaskRuns.EntryParks | kernel/interrupt/init_idt.asm:109-126 | at an interrupt every task's context lies in its own stack and is the one the history owes it |
| TaskRuns.NumberArrives | kernel/interrupt/interrupt.c:81-104 | the number irq_handler finds in the frame and dispatches on is that of the interrupt |
| TaskRuns.SwitchGood | kernel/task/task_switch.asm:8-27 | switching to any task restores the context it is owed and parks the others |
| TaskRuns.SwitchesExactly | kernel/task/scheduler.c:22-45 | an interrupt moves on to the next task of the ring exactly when its number is 32 and the scheduler is on, and moves the TSS's esp0 exactly when that task is a user task |
| TaskRuns.CreateKernelGood | kernel/task/task.c:86-115 | a new kernel task on a free page joins the ring parked |
| TaskRuns.CreateUserGood | kernel/task/task.c:117-146 | and a user task |
| TaskRuns.RunGood | kernel/task/task.c:63-146 | along every run: pids 0..n-1 in ring order, stacks apart, every task parked or running as it should |
| TaskRuns.ContextPreserved | kernel/interrupt/init_idt.asm:109-141 | in every run from boot a task goes on with exactly the context it was interrupted with, or its initial one with interrupts on |
| TaskRuns.UserStackDiscipline | kernel/task/scheduler.c:36-44 | while a user task runs esp0 is its stack base, and its next trapframe is built exactly 64 bytes below it |
| TaskRuns.KernelStacksDoNotCreep | kernel/task/task_switch.asm:14-27 | leaving an interrupt gives back exactly the 56 bytes entering took; the first iret leaves esp at the base |
| TaskRuns.BoundedWaiting | kernel/task/scheduler.c:22-45 | a task d places ahead runs within d + m timer interrupts when m tasks are created meanwhile |
| TaskSwitch.Kernel.TaskInit | kernel/task/task.c:63-76 | the boot task alone in the ring, whatever was created before |
| TaskSwitch.Kernel.TaskUpdateTrapframe | kernel/task/task.c:78-84 | only the current task's trapframe changes |
| TaskSwitch.Kernel.PushFrame | kernel/interrupt/init_idt.asm:109-141 | pushing word by word builds the frame of struct trapframe |
| TaskSwitch.Kernel.IrqEntry | kernel/interrupt/init_idt.asm:109-122 | the handler starts in kernel mode with the kernel's code and data segments, interrupts off, and the frame with the interrupt's number at its stack pointer |
| TaskSwitch.Kernel.Irq | kernel/interrupt/init_idt.asm:109-141 | an interrupt from its gate to the task that goes on, with or without a switch, as the number in its frame says |
| TaskSwitch.Kernel.Scheduler | kernel/task/scheduler.c:22-45 | switches to the next task of the ring once initialized, with the TSS set for user tasks; before task_init it does nothing |
| TaskSwitch.Kernel.TaskSwitchAsm | kernel/task/task_switch.asm:8-27 | popping word by word restores the frame of the next task |
| TaskSwitch.Kernel.TaskCreateKernel | kernel/task/task.c:86-115 | the new task at the end of the ring with its initial trapframe; before task_init it becomes the tail of no list |
| TaskSwitch.Kernel.TaskCreateUser | kernel/task/task.c:117-146 | the same for a user task |
| TerminalPage.TextOnScreen | kernel/terminal/tty.c:46-118 | after a clear and any text the page is the text laid out line by line with tabs expanded and rows of 80, and the screen shows its last 25 rows |
| TerminalPage.FeedIsLayout | kernel/terminal/tty.c:90-118 | typing character by character is laying out line by line, from the start of any row |
| TerminalPage.CharacterStays | kernel/terminal/tty.c:90-118 | every printed character stands where the cursor was when it was typed |
| TerminalPage.PutReaches | kernel/terminal/tty.c:90-118 | one character takes the cursor at most to the first cell below the screen, so one scroll brings it back |
| TerminalPage.BackspaceUndoes | kernel/terminal/tty.c:120-137 | backspace restores the cursor and blanks the cell, wrap and scroll included, exactly for printed characters and single-cell newlines and tabs |
| TerminalPage.BackspaceRestores | kernel/terminal/tty.c:120-137 | and shows the same screen exactly when the character did not scroll it |
| Terminal.Tty.Clear | kernel/terminal/tty.c:46-61 | every cell blank in white on black, the cursor at the origin |
| Terminal.Tty.Scroll | kernel/terminal/tty.c:63-82 | rows move up by one and the last is blank |
| Terminal.Tty.Putc | kernel/terminal/tty.c:90-118 | the buffer goes on showing the page, with the character put on it, white on black, and the cursor in bounds |
| Terminal.Tty.DeletePrev | kernel/terminal/tty.c:120-137 | the same for backspace |
| Terminal.Tty.Write | kernel/terminal/tty.c:139-145 | the same for a whole string |

## Left out

- KernelMemory.Memory.VmmAddVmmBlock: vmm descriptors are objects, heap words and frames separate memories; a descriptor handed out unsplit shares its words with the free list, and clearing the new table's frame would clear a fetched heap page with that number, and neither is modelled (TableFrame says which frame is cleared).
- KernelMemory.Memory.VmmAllocPage: the heap stays valid across a growth because its words are kept apart from the frames; in the kernel that needs no page of the heap to have the number of the frame TableFrame names.
- KernelMemory.Memory.VmmFreePage: a write to the link or past the descriptor ends the call without an effect, since descriptors are objects; bits of the other fields are cleared as in the source.
- VmmFacts.AllocEnds: a write through NULL ends the run, also when address 0 is mapped (UserspaceKeeps) and the write to frame 0 would come back.
- VmmRuns.RunKeeps: a free that clears a bit of a descriptor's field ends the run too; FieldHitIs says what it leaves.
- KernelHeap.Kmalloc.SplitBlock: a bare header cut from a block that ends with the address space stores its pointer at word 2^32 where the code writes to address 0; the pointer returned is NULL in both.
- KernelMemory.Memory.PagingMapVirtualPage: an entry holds the fields the kernel sets (present, r_w, user, global, frame) and is written in one store; a frame is read as a table and nothing finer.
- Userspace.UserspaceKeeps: stated for the state kmain calls it in (one block, two more pages below the threshold); later the page could be slot 1022 or belong to another block, where PhysAddrExactly says the wrong frame would be entered.
- VmmFacts.NeverPanics: the one allocation that would add a 257th block, whose first page wraps to address 0, is not modelled further.
- HeapWords.RunOnWords: runs stop at a page that would not join properly (JoinCanonical and AppendKeepsAll say what is lost then) and at a request served unsplit (GrantIsOffTheList).
- PhysicalMemory.Pmm.InitStruct: reservation of the user module (kernel/memory/pmm.c:56-81), whose bit arithmetic marks other pages, and multiboot parsing are not modelled; kernel end and memory end are parameters.
- TaskSwitch.Kernel.TaskCreateKernel: task structs come from zeroed memory, so is_user is false where the source does not set it.
- TaskSwitch.Kernel.Irq: a handler is any change of memory and scratch registers that leaves saved frames alone; nested interrupts do not occur because the stubs run with interrupts off.
- Trapframe.SaveRestore: memory is a map from word addresses, so overlapping unaligned words are not modelled; es, fs and gs are not saved by the code and not modelled.
- Terminal.Tty.Putc: the blank row a scroll leaves has no colour, as in the source.
- Real TLB behaviour, cr0 and the page-fault handler's message: a directory switch or flush has no effect on the walk.
- paging_create_userspace, which nothing calls.
- The exception path of init_idt.asm and isr_handler, which print and hang.
- GDT, IDT, PIC and PIT set-up, port I/O other than the cursor position, the keyboard, kshell and the C library.
- Number printing, kprintf and tty_printstr, which only choose the characters passed to tty_putc.
