# VortexOS kernel: a verified model

VortexOS is a small x86-64 kernel written in C++. This project models its memory
management, scheduler, NVMe driver, file system and network checks in Dafny, and proves
what those parts promise: what every step keeps, what whole runs keep, and that the
in-place code refines simple mathematical objects (a set of free pages, a flat map from
page to entry, FIFO queues, a byte sequence, a bounded map).

`dafny verify dfyconfig.toml` checks all of it.

## How it is organised

Each component has two layers. The first is a state machine on values (`Buddy`,
`SlabLists`, `Paging`, `ReadyQueues`, `CompletionRing`, `Paths`, ...), and the theorems are
lemmas about it. The second is a class or a method that works in place as the C++ does,
with arrays, linked lists and counters, and whose contract equates its abstract state with
the first layer's function of the old one.

| modules | models |
|---|---|
| `Bits`, `Lists`, `Buddy`, `BuddyTheory`, `Pmm`, `PmmInit` | the buddy page allocator of `src/kernel/mm.cpp` |
| `Slab`, `SlabLists`, `HeapRanges`, `Heap` | the slab heap of `src/kernel/heap.cpp` |
| `Paging`, `Vmm`, `Clone`, `Child`, `Fork` | page tables and cloning in `src/kernel/vmm.cpp` |
| `PageFault`, `Cow`, `CowRun` | copy-on-write in `src/kernel/pf.cpp`, fork and fault together, and whole runs |
| `Bytes`, `Needs`, `Elf` | the loader of `src/kernel/elf.cpp` |
| `ReadyQueues`, `Scheduler` | `src/kernel/scheduler.cpp` and the states of `src/kernel/thread.cpp` |
| `CompletionRing`, `Nvme` | the queue pair of `src/kernel/nvme.cpp` |
| `Checksum`, `Arp` | the Internet checksum and the ARP cache of `src/kernel/net.cpp` |
| `Paths`, `Vfs`, `Tmpfs` | path resolution, directories, mounts and files of `src/kernel/vfs.cpp` |
| `Examples` | one concrete input for every failure listed below |

## Main results

- The allocator never loses a page and never hands one out twice: in every run the free and
  the live blocks tile exactly the usable pages, and the counter is the number of free pages
  (`BuddyTheory.RunSafe`, started by `PmmInit.Init`).
- Freeing what was just allocated always restores the set of free pages, and restores the
  very same lists exactly under a stated condition, which after start-up is that nothing was
  split and the block's buddy is not listed beside it (`RoundTripExactly`,
  `RoundTripFresh`).
- A heap object has the smallest object size that holds the request, comes from a slab that
  is already there if its cache has one with a free object, and takes one page otherwise
  (`Kmalloc`). Heap objects never overlap each other, a slab header or a block of somebody
  else, and no call writes into a live object or moves somebody else's block (`Kmalloc`,
  `Kfree`, `ObjectsDisjoint`, `ObjectsClear`).
- Mapping and unmapping change one page of the flat map and no other, and leave the user and
  write access of every path as it was; mapping succeeds exactly when there is a free page
  for every missing table.
- A clone succeeds exactly when there is a free page for the root, for the address space
  object if its slab cache is used up, and for each of the parent's tables reached by
  indices below 256, and takes exactly those. It gives parent and child the same words,
  write-protected exactly when the page's table indices are all below 256, and along every
  walk the child has the access the parent has. The child maps a page that the parent does
  not exactly when a table's copy inherited a present word from the page it was made in
  (`Fork.CloneAddressSpace`).
- After fork, a write fault of either side at a page whose table indices are all below 256
  moves it to a frame of its own while the other keeps frames and contents, exactly when the
  clone left a page free (`Cow.ParentWrites`, and with blank free pages `Cow.ChildWrites`).
- Over whole runs, copy-on-write is copying at the fork: after any stores of both sides to
  such pages, with the faults they cause, each side sees what the page held at the fork and
  its own stores, and nothing of the other's. Each page a side stores to takes one free
  page, at the first store; exactly the pages whose first store found none are on frame 0
  (`CowRun.ForkAndRun`).
- The ELF loader's pages, which are those the segments' memory overlaps, are mapped exactly
  when there is a free page for each of them and for each distinct table missing on the way.
  The last segment that has a page decides it: every address on it reads that segment's file
  byte, or what the page's frame held before (`Elf.Load`). So a file byte is in place if and
  only if that owner makes the same byte and permission of its address
  (`Elf.InPlaceExactly`).
- `schedule()` refines a declarative choice with a unique answer, loses no runnable thread
  in any run, and makes a waiting thread current on exactly the call its place predicts.
- The NVMe host takes completions in posting order, never a stale or missing one, across any
  number of wraps and in any interleaving.
- The header test accepts exactly the headers of at least five words for which the bytes it
  reads pass the sum test of section 1 of RFC 1071, except a checksum field of 0xFFFF. For a
  header without options these bytes are the header (`AcceptsExactly`).

## Where the code falls short of what it seems to promise

The model follows the code. In each case the exact condition is proved, and `Examples` has
an input on which the code fails.

- Allocating and freeing does not restore the free lists: halves that were split off keep
  PAGE_RESERVED, which the merge test rejects (`RoundTripExactly`, `RoundTripFresh`; input:
  `ListsNotRestored`).
- A clone shares, and leaves writable, every page with a table index of 256 or more at any
  level (`Fork.ClonedPages`; input: `SharedWritable`).
- A clone's new tables are not cleared. A copied table has a present entry exactly where the
  parent's has one or the fresh page held a present word (`Child.TableLeak`), and the child
  maps an unmapped page of the parent exactly when such a word leads to one
  (`Fork.LeaksExactly`; input: `LeakedPage`). With blank free pages it maps exactly the
  parent's pages (`Fork.BlankPages`).
- The page fault handler does not test its allocation: exactly when no page is free, it
  overwrites and maps frame 0 (`PageFault.HandleFault`; input: `FrameZeroLost`).
- The ELF loader does not test whether a page could be mapped. With free pages for all but
  the tables that only the last page needs, it returns the entry address with that page
  unmapped and all others loaded, and in no other case (`Elf.Load`; input:
  `LoadedUnmapped`).
- Segments that share a page: the later one maps a new page, which is not cleared, over the
  earlier one's. A byte of the earlier is then in place if and only if the permissions are
  the same and the later segment has the same byte there, or has no byte there and the new
  frame happened to hold it, as a zeroed one does for 0 (`Elf.InPlaceExactly`,
  `WhateverHeld`, `ZeroedInPlace`; input: `FirstReplaced`, for segments at one address or
  side by side).
- Threads of levels 100 to 139 without an urgent deadline never run while the idle thread
  lives, because idle is an ordinary thread of real-time level 0 (`NormalChosen`,
  `NormalStarves`; input: `IdleAgain`).
- After a timed-out NVMe command, a later call can return the status of an earlier command:
  whatever the controller, every completion a call could take is its own if and only if no
  earlier call timed out (`TimeoutExactly`; input: `OthersCompletion`). With a controller
  that completes in order it is that of as many calls back as there were timeouts
  (`TimeoutSkew`).
- Going down to a directory and up again leads back exactly when nothing is mounted on it;
  otherwise it leads to the covered directory, while `tests/test_vfs.cpp:190-198` expects
  the root for `/dev/..` (`UpAgain`; input: `UpIntoCovered`, in the tree that `vfs_init`
  builds).
- A directory name longer than 255 characters is cut when it is stored, but not when it is
  looked up, so it can hide an existing child: exactly when the cut name is a child's and
  has no slash (`MkdirExactly`, `ShadowedChild`; input: `Hidden`).
- A tmpfs write at an offset past the first page clears bytes beyond it (`StaysInPage`,
  `RestKeptExactly`; input: `BeyondPage`).
- A correct header checksum field of 0xFFFF is rejected (`AcceptsExactly`; input:
  `CorrectRejected`).
- The check of a header with options reads past its 20-byte copy of the header. A correct
  header with options is accepted if and only if its options and the bytes read instead of
  them have the same sum modulo 65535 (`OptionsExactly`; input: `OptionsRejected`).
- The checksum of 128 KiB or more can lose a carry (`WrapExactly`; input: `CarryLost`).

## Conventions

- Addresses are physical; the fixed offset of the kernel's direct map is left out. A null
  pointer is 0 for addresses and NIL (-1) for list nodes.
- Page tables and frames live in one memory of 512-word pages. The words of heap pages are a
  memory of their own, and slab headers are records beside it.
- What the code takes from outside is a parameter: the memory map, the current root table,
  whether the slab cache of the address space object has a free object (`slabReady`) and
  what a page holds once it is a slab (`slabPage`), whether a small object could be
  allocated (`memoryOk`), the page tmpfs is handed, the bytes after a received header's copy
  (`after`), what the NVMe controller tries to post before each poll. A panic is a failure
  result.
- The memory map is what the Limine boot protocol guarantees: USABLE entries are page
  aligned, do not overlap and do not include page 0, and addresses fit in 64 bits. No frame
  records a slab when the heap starts.
- `pmm_alloc_pages` is given at most 2^63 pages, past which its shift is undefined;
  `pmm_free_pages` is given the head of a live block or 0, and `kfree` an object that was
  handed out, a null pointer, or an address outside memory.
- Page tables are tree-shaped with small pages, and addresses are user addresses.
- A thread is enqueued only when it is neither queued nor current, and has a level below
  140, as `queue_push_back` insists.

## Model

| member | source | states |
|---|---|---|
| Lists.ListPool.PushFront | src/kernel/mm.cpp:42-51 | pushing a node of no list in front of one list: heads and links stay threaded through exactly the nodes of every list |
| Lists.ListPool.Remove | src/kernel/mm.cpp:53-63 | unlinking a node from anywhere in its list removes it there, keeps the order of the others and leaves all other lists alone |
| Bits.FlipBit | src/kernel/mm.cpp:38-40 | exclusive-or with 2^order of an aligned page number gives the other half of the enclosing block of the next order |
| BuddyTheory.BuddiesAreHalves | src/kernel/mm.cpp:38-40 | a block and its buddy are the two halves of one aligned block of the next order, whose pages are theirs together |
| BuddyTheory.OrderForLeast | src/kernel/mm.cpp:155-158 | the order searched for is the least whose blocks hold count pages, and exceeds the maximum exactly for count > 1024 |
| BuddyTheory.AllocFails | src/kernel/mm.cpp:152-181 | allocation fails exactly for 0, for more than 1024 pages, or when no listed block is large enough, and then changes nothing |
| BuddyTheory.AllocEffect | src/kernel/mm.cpp:152-182 | a successful allocation returns a previously free aligned run of the least sufficient power of two, takes exactly those pages from the free set and the counter, and keeps the invariant |
| BuddyTheory.AllocView | src/kernel/mm.cpp:152-182 | failure condition and effect of an allocation in one statement for clients |
| BuddyTheory.AllocExactly | src/kernel/mm.cpp:152-182 | which block is taken: the first of the smallest listed blocks that hold the pages; each upper half of a larger one goes in front of the list of its order, and no other list changes |
| BuddyTheory.OnePage | src/kernel/mm.cpp:184 | a single page can be had exactly while any page is free, and then one page leaves the free set |
| BuddyTheory.SplitSound | src/kernel/mm.cpp:167-172 | one turn of the split loop: the listed half is the upper one, was on no list, and blocks still tile the pages |
| BuddyTheory.SplitDownSound | src/kernel/mm.cpp:166-172 | the split loop keeps the tiling and moves exactly 2^o - 2^t pages to the lists |
| BuddyTheory.SplitDownAt | src/kernel/mm.cpp:166-172 | each order from the target below the found one gains its upper half in front; no other list changes |
| BuddyTheory.MergeSound | src/kernel/mm.cpp:201-218 | one turn of the merge loop: the merged block is aligned, consists of the block and its buddy, and blocks still tile the pages |
| BuddyTheory.MergeUpSound | src/kernel/mm.cpp:200-218 | the whole merge loop: one block made of the freed pages and the absorbed buddies, every other listed block untouched, pages accounted for |
| BuddyTheory.MergeUpChain | src/kernel/mm.cpp:200-218 | the merge climbs exactly while the buddy of the enclosing block is listed at that order and not reserved; each passed list loses that buddy only |
| BuddyTheory.FreeEffect | src/kernel/mm.cpp:188-221 | freeing gives back exactly the pages of the block, which were not free, adds their number to the counter and keeps the invariant |
| BuddyTheory.FreeListsOne | src/kernel/mm.cpp:188-221 | a free lists one aligned block, found by the buddy chain, covering the freed pages and the absorbed buddies |
| BuddyTheory.CountIsSize | src/kernel/mm.cpp:138-138 | the sum of 2^order over the lists is the number of free pages |
| BuddyTheory.StepKeeps | src/kernel/mm.cpp:152-221 | every allocation and every free of a live block keeps the invariant |
| BuddyTheory.RunSafe | src/kernel/mm.cpp:152-221 | after any run of allocations and frees, free and live pages are disjoint and together exactly the usable pages, and the counter is the number of free pages |
| BuddyTheory.RoundTripPages | src/kernel/mm.cpp:152-221 | allocating and freeing again restores free pages, counter and live blocks |
| BuddyTheory.RoundTripExactly | src/kernel/mm.cpp:152-221 | it restores the very same lists if and only if no half split off is reserved and the block itself could not merge |
| BuddyTheory.RoundTripFresh | src/kernel/mm.cpp:96-141 | while only block heads are unreserved, that is exactly when nothing is split and the buddy is not listed beside the block |
| Pmm.PageAllocator.constructor | src/kernel/mm.cpp:96-104 | all frames reserved, lists empty, counter zero |
| Pmm.PageAllocator.ListAdd | src/kernel/mm.cpp:42-51 | the frame gets PAGE_FREE and its order and goes to the front; a frame has PAGE_FREE exactly when it is on the list of its recorded order |
| Pmm.PageAllocator.ListRemove | src/kernel/mm.cpp:53-63 | the frame loses PAGE_FREE and leaves its list; the same equivalence is kept |
| Pmm.PageAllocator.Split | src/kernel/mm.cpp:166-172 | the in-place split loop computes the split lists and keeps frames and lists consistent |
| Pmm.PageAllocator.Take | src/kernel/mm.cpp:161-179 | the found branch refines the abstract allocation |
| Pmm.PageAllocator.AllocPages | src/kernel/mm.cpp:152-182 | the in-place allocation refines the abstract one in lists, live blocks, counter and result, for every count |
| Pmm.PageAllocator.AllocPage | src/kernel/mm.cpp:184 | fails exactly when no page is free and then changes nothing; else one free page, not page 0, leaves the free set and becomes live |
| Pmm.PageAllocator.CanAbsorb | src/kernel/mm.cpp:202-210 | the flag test on the buddy frame holds exactly when the buddy is a listed block of the same order and not reserved |
| Pmm.PageAllocator.Merge | src/kernel/mm.cpp:200-218 | the in-place merge loop computes the merged block and lists |
| Pmm.PageAllocator.Release | src/kernel/mm.cpp:188-221 | the in-place free refines the abstract one; address 0 is ignored |
| PmmInit.HighestAddress | src/kernel/mm.cpp:70-76 | the loop finds the largest end address of the map |
| PmmInit.PlaceMetadata | src/kernel/mm.cpp:81-92 | the loop finds the first USABLE entry that can hold the metadata, if any |
| PmmInit.LargestOrder | src/kernel/mm.cpp:123-134 | the largest order that is aligned, fits the region and does not run into the metadata: every smaller one could still grow and this one cannot |
| PmmInit.BlocksMaximal | src/kernel/mm.cpp:123-140 | every free block is at the largest order, or doubling it would misalign it, leave its region or run into the metadata |
| PmmInit.AddBlock | src/kernel/mm.cpp:136-139 | listing a new block extends the tiling by its pages |
| PmmInit.AddRegion | src/kernel/mm.cpp:111-140 | a region contributes exactly its pages outside the metadata, in blocks that could not be larger |
| PmmInit.Fill | src/kernel/mm.cpp:96-141 | the lists tile exactly the USABLE pages outside the metadata |
| PmmInit.Init | src/kernel/mm.cpp:67-141 | start-up panics exactly when no entry can hold the metadata; else there is a frame for every page below the highest address, the metadata starts at the base of the first USABLE entry long enough and takes no page it does not need, a page is free if and only if it lies whole in a USABLE entry and is not metadata, every free block could not be larger, and only block heads are unreserved |
| Slab.ChainPop | src/kernel/heap.cpp:141-144 | taking the first free object leaves a free list of the remaining slots |
| Slab.ChainPush | src/kernel/heap.cpp:177-180 | storing the old head in a returned object makes it the first of a well-formed free list |
| Slab.ChainFrame | src/kernel/heap.cpp:77-86 | writing inside an object that is not free leaves the free list alone |
| Slab.SizesDouble | src/kernel/heap.cpp:47-57 | the object sizes double from 8 bytes to 2048 |
| SlabLists.PopGood | src/kernel/heap.cpp:141-144 | taking an object keeps every slab well formed and returns the address of a free slot |
| SlabLists.PopHome | src/kernel/heap.cpp:146-158 | after taking an object the slab belongs on the full list exactly when its count is zero, else on the partial one |
| SlabLists.PushGood | src/kernel/heap.cpp:177-180 | returning an object keeps every slab well formed |
| SlabLists.PushHome | src/kernel/heap.cpp:182-202 | after returning an object the slab moves from full to partial when it was full, and on to empty exactly when nothing of it is live |
| SlabLists.CreateGood | src/kernel/heap.cpp:63-93 | a fresh page becomes a well-formed slab with every object free |
| SlabLists.ListedMove | src/kernel/heap.cpp:182-202 | moving a slab keeps each slab on exactly one list |
| HeapRanges.ObjectsDisjoint | src/kernel/heap.cpp:101-161 | two different live objects never overlap |
| HeapRanges.ObjectsClear | src/kernel/heap.cpp:101-161 | a live object never overlaps a slab header or a live block that is not the heap's |
| HeapRanges.ByAddress | src/kernel/heap.cpp:163-207 | an object is known by its address |
| HeapRanges.AtAddress | src/kernel/heap.cpp:170-206 | the slab recorded in the frame tells objects from whole blocks, and names the object's slab and slot |
| HeapRanges.WriteGood | src/kernel/heap.cpp:77-86 | what the owner of an object stores in it disturbs no slab |
| HeapRanges.WrappedCount | src/kernel/heap.cpp:113-116 | rounding a size up may wrap around 64 bits, and the wrapped count fits exactly when the true one does |
| Heap.KernelHeap.constructor | src/kernel/heap.cpp:47-57 | empty caches over a page allocator |
| Heap.KernelHeap.BuildFreeList | src/kernel/heap.cpp:77-86 | the loop threads all objects of the page in address order and touches no other page |
| Heap.KernelHeap.MakeSlab | src/kernel/heap.cpp:70-92 | the page becomes a slab of its cache, on the partial list |
| Heap.KernelHeap.NewSlab | src/kernel/heap.cpp:63-93 | fails exactly when no page is free; else exactly one page leaves the allocator and becomes a slab of as many free objects as fit behind its header, no allocation, no live page and no foreign block affected |
| Heap.KernelHeap.PickSlab | src/kernel/heap.cpp:122-139 | the first partial slab, else the first empty one, both without taking a page, else a new one; none exactly when there is neither and no page is free |
| Heap.KernelHeap.TakeObject | src/kernel/heap.cpp:141-158 | unlinks the first free object and puts the slab on the list its count calls for |
| Heap.KernelHeap.GiveBack | src/kernel/heap.cpp:173-202 | relinks the object and puts the slab on the list its count calls for |
| Heap.KernelHeap.CacheFor | src/kernel/heap.cpp:104-111 | the cache with the smallest objects that hold the size, none exactly above 2048 bytes |
| Heap.KernelHeap.AllocDirect | src/kernel/heap.cpp:113-120 | fails exactly when the page allocator has no fitting block; else a whole block of the least power of two of pages leaves it and is handed out |
| Heap.KernelHeap.AllocObject | src/kernel/heap.cpp:122-161 | succeeds exactly when the cache has a slab with a free object or a page is free; then one new object of the cache's size is handed out, the first on the free list of the preferred slab without taking a page, else the first slot of the one page taken |
| Heap.KernelHeap.Kmalloc | src/kernel/heap.cpp:101-161 | exact success condition for every size; on success one new object of exactly the smallest object size that holds the request, from the slab the cache prefers and without a page leaving the allocator, or from the one page taken when it prefers none; above 2048 bytes a block of the least power of two of pages; on failure nothing; no page of a live block is written and no foreign block changes |
| Heap.KernelHeap.FreeObject | src/kernel/heap.cpp:173-202 | exactly that object is given back, as the first on its slab's free list, and only its first word is written |
| Heap.KernelHeap.FreeDirect | src/kernel/heap.cpp:203-206 | exactly that block is given back to the page allocator |
| Heap.KernelHeap.Kfree | src/kernel/heap.cpp:163-207 | exactly the object at the address is given back, no word but the one at the address is written, no foreign block changes; a slab object heads its free list and no page moves, a whole block's pages return to the allocator; null and foreign addresses change nothing |
| Heap.KernelHeap.ClientWrite | src/kernel/heap.cpp:77-86 | storing a word in a live object writes that word only and keeps the heap intact |
| Paging.Encode | include/vortex/kernel/vmm.hpp:25-35 | entry fields and 64-bit words determine each other (with Paging.EncodeDecode) |
| Paging.EncodeDecode | include/vortex/kernel/vmm.hpp:25-35 | encoding a decoded word gives the word back |
| Vmm.PathIsPage | src/kernel/vmm.cpp:98-101 | the four indices of a user address name its page number |
| Vmm.PageIsPath | src/kernel/vmm.cpp:98-101 | and every user index path is that of exactly one page |
| Paging.LookupFrame | src/kernel/vmm.cpp:154-167 | a walk depends on the tables it reads and on nothing else |
| Paging.AddTableLookup | src/kernel/vmm.cpp:104-118 | creating and clearing a table changes no translation |
| Paging.AddTablePasses | src/kernel/vmm.cpp:104-118 | creating a table leaves what every user path passes, user and write access, as it was |
| Paging.PutWordFlat | src/kernel/vmm.cpp:181-181 | writing the entry a user path leads to changes that translation and no other |
| Paging.PutWordRights | src/kernel/vmm.cpp:181-181 | writing a last-level entry does too |
| Vmm.Machine.GetOrCreate | src/kernel/vmm.cpp:104-118 | fails exactly when the entry is absent and no page is free; uses one page exactly when absent; changes no translation and no other word of a table |
| Vmm.Machine.WalkTables | src/kernel/vmm.cpp:154-164 | finds the last-level table exactly when there is a free page for every missing table, using exactly that many |
| Vmm.Machine.WalkPageTable | src/kernel/vmm.cpp:154-167 | returns the frame address of the flat map's entry, or 0 when pages run out; changes no translation and no right; of the tables only absent entries above the last level change, to lead to new tables |
| Vmm.Machine.MapPage | src/kernel/vmm.cpp:169-183 | succeeds exactly when there is a free page for every missing table; then the flat map changes at one page only; a failed map changes no translation; no path passes more or less than before; above the last level, kernel half included, only absent entries change, to lead to new tables; with no table missing nothing but the last-level table is written |
| Vmm.Machine.UnmapPage | src/kernel/vmm.cpp:185-203 | the flat map becomes 0 at one page and is unchanged elsewhere, and so are rights; nothing but the page's last-level table is written |
| Vmm.PlainMapping | src/kernel/vmm.cpp:181-181 | flags below bit 12 leave the frame number alone |
| Vmm.MappingIsOr | src/kernel/vmm.cpp:181-181 | the word mapping writes is the bitwise or of the masked address, all 32 flag bits and PRESENT |
| Clone.CopySkip | src/kernel/vmm.cpp:41-41 | an absent entry is skipped and leaves the child's entry as its page held it |
| Clone.CopyShare | src/kernel/vmm.cpp:43-47 | an entry of index 256 or more is shared at every level: child and parent read the same word over the parent's tables |
| Clone.CopyProtect | src/kernel/vmm.cpp:50-53 | a last-level entry ends write-protected in both tables |
| Clone.TableEntryIs | src/kernel/vmm.cpp:65-65 | the child's table entry is the new frame with the low twelve bits of the parent's |
| Clone.CopyTable | src/kernel/vmm.cpp:54-66 | copying a lower table to a fresh page extends what has been copied by every path through it, which passes what it did |
| Child.KeptLookup | src/kernel/vmm.cpp:38-69 | even after a copy that stopped early, a parent's word is unchanged or has lost the write bit only |
| Child.ClonedWalk | src/kernel/vmm.cpp:38-69 | every mapped page has the cloned word in both spaces, and the child reaches one with low indices over fresh pages only |
| Child.AbsentWalk | src/kernel/vmm.cpp:38-69 | where the parent has no table or no page, the child's walk goes on from the word its own copy inherited, or ends as the parent's does |
| Child.TableLeak | src/kernel/vmm.cpp:56-63 | a copied table has a present entry exactly where the parent's table has one or the fresh page held a present word |
| Child.ChildTree | src/kernel/vmm.cpp:38-69 | when no copy inherited a present word, the child's tables are tree-shaped: the copies, and the parent's tables beyond an index of 256 or more |
| Child.ChildOwns | src/kernel/vmm.cpp:38-69 | the child's tables are pages taken for it or shared tables of the parent; none is free |
| Clone.NeededSame | src/kernel/vmm.cpp:38-69 | copying changes no table above the last level, so the number of pages a copy needs is fixed at the start |
| Fork.CopyLevel | src/kernel/vmm.cpp:38-69 | the recursive copy succeeds exactly when there is a free page for every lower table reached by indices below 256, takes exactly those, and then every entry is skipped, shared, protected or copied; a failed copy leaves the parent's frames |
| Fork.MakeRoot | src/kernel/vmm.cpp:121-140 | fails exactly when no page is free; the new root has a cleared user half and the current kernel half |
| Fork.MakeObject | src/kernel/vmm.cpp:142-147 | the object takes a page exactly when its slab cache has no free object |
| Fork.CreateAddressSpace | src/kernel/vmm.cpp:120-152 | succeeds exactly when there is a free page for the root and, when the slab cache is used up, one for the object |
| Fork.ClonedPages | src/kernel/vmm.cpp:71-85 | every page of the parent is in the child with the same word and frame, write-protected in both exactly when all indices are below 256 or it was read-only; the entries above the last level grant the child the user and write access they grant the parent |
| Fork.LeaksExactly | src/kernel/vmm.cpp:56-63 | an unmapped path of the parent is mapped in the child if and only if the walk found a copied table whose page held a word there that leads to a present entry |
| Fork.UnmappedPages | src/kernel/vmm.cpp:56-63 | so for every page the parent does not map |
| Fork.BlankPages | src/kernel/vmm.cpp:56-63 | with blank free pages the child maps exactly the parent's pages |
| Fork.CloneMeaning | src/kernel/vmm.cpp:71-85 | what a finished clone means for the flat maps, the kernel half and the child's own tables |
| Fork.CloneAddressSpace | src/kernel/vmm.cpp:71-85 | succeeds exactly when there are pages enough, and takes exactly those; of the parent's tables only last-level words change, by losing the write bit, and no frame in use does, even on failure; on success the same word and the same access along the walk in parent and child, the exact condition for extra pages of the child, its kernel half, and a tree-shaped child when free pages were blank |
| PageFault.CopyFrame | src/kernel/pf.cpp:51-56 | the loop copies one frame to another |
| PageFault.ReplaceFrame | src/kernel/pf.cpp:48-59 | the page moves to a fresh writable frame with the same contents; every other translation and everything but that frame and the page's last-level table are unchanged |
| PageFault.HandleFault | src/kernel/pf.cpp:17-70 | a fault is handled exactly when it is a user write to a present page with a frame; the new frame is fresh exactly when a page was free, else frame 0; nothing else but the page's last-level table is written; other faults change nothing, and one without a frame at most adds tables, as many as the walk needs |
| Cow.OtherUntouched | src/kernel/pf.cpp:26-64 | a fault of one side leaves the translations of the other over its own tables alone |
| Cow.ForkThenFault | src/kernel/vmm.cpp:38-85 | fork and a fault of one side compose to isolation of every page with low indices |
| Cow.ParentWrites | src/kernel/pf.cpp:26-64 | after fork and a write fault of the parent: with one page more than the clone takes, the parent has its own copy and the child the old frames with the old contents; with exactly as many, the page ends on frame 0 |
| Cow.ChildWrites | src/kernel/pf.cpp:26-64 | the same with the roles exchanged, when free pages were blank |
| Needs.MissingCount | src/kernel/vmm.cpp:104-118 | the missing table positions on the way to a page are as many as mapping it needs pages |
| Needs.NextCost | src/kernel/elf.cpp:45-49 | after some pages are loaded, the next needs exactly the tables that none of them needed |
| Needs.OutcomeNext | src/kernel/elf.cpp:45-49 | one more load keeps the exact outcome: it goes on exactly when all but the last page's own tables can be paid for, and everything is mapped exactly when those can too |
| Vmm.AddTableGained | src/kernel/vmm.cpp:104-118 | creating a table makes exactly one more table position reachable |
| Paging.AddTableReached | src/kernel/vmm.cpp:104-118 | a created table is reached at its position, nothing is reached below it, and every other position is as before |
| CowRun.AfterLast | src/kernel/pf.cpp:26-64 | what a side sees when pages are copied at the fork: the word of its own last store, else the old one |
| CowRun.AllServed | src/kernel/pf.cpp:48-49 | every first store finds a free page if and only if there are as many as pages are stored to |
| CowRun.ForkViews | src/kernel/vmm.cpp:71-85 | right after a fork every protected page is read-only in both spaces, on its old frame with its old contents |
| CowRun.FaultReplaces | src/kernel/pf.cpp:48-64 | a fault of one side at a low page changes no word, no table and no frame of the other, and keeps both spaces tree-shaped |
| CowRun.FaultKeeps | src/kernel/pf.cpp:26-64 | a fault keeps what both sides see of every page; the page then has its frame for itself, or frame 0 when none was free |
| CowRun.StoreKeeps | src/kernel/pf.cpp:26-64 | a store to a page of one's own changes that side's view of that page and no other view |
| CowRun.Put | src/kernel/pf.cpp:17-70 | one store, with the fault it causes on a read-only page, keeps all views, and takes a free page exactly at the first store to the page |
| CowRun.Run | src/kernel/pf.cpp:17-70 | any stores of both sides do |
| CowRun.ForkAndRun | src/kernel/vmm.cpp:38-85 | fork and any stores: each side sees the page at the fork and its own stores, unless the first store found no free page; then, and only then, the page is on frame 0; a page is writable exactly when its side stored to it, every page not stored to has the word the clone gave it, no frame that was in use but frame 0 is written, and the number of free pages left |
| Elf.CopyPage | src/kernel/elf.cpp:51-71 | every byte of the frame: the file's where the segment has one, else what it was |
| Elf.PageRange | src/kernel/elf.cpp:37-39 | the pages of a segment are exactly those that its memory size overlaps |
| Elf.LoadListExactly | src/kernel/elf.cpp:34-49 | the pages loaded are exactly those that some loadable segment overlaps |
| Elf.MappedBy | src/kernel/elf.cpp:34-72 | after a load with pages enough, every page that a loadable segment overlaps is mapped for user mode on a frame of its own that was free, writable exactly as the last such segment says |
| Elf.OthersUntouched | src/kernel/elf.cpp:34-72 | a page that no loadable segment overlaps keeps its entry |
| Elf.LoadPage | src/kernel/elf.cpp:45-72 | one turn: goes on exactly when a page is free; the page is mapped, with the segment's permission, exactly when there is one more for each missing table, and its frame holds the segment's bytes and else what it held at the start; other loaded pages are kept either way |
| Elf.LoadSegment | src/kernel/elf.cpp:34-72 | the exact outcome for the segment's pages after earlier ones; every page of the segment is loaded but for the one that could not be mapped, and other pages are kept |
| Elf.SegmentBytes | src/kernel/elf.cpp:51-71 | what an address on a loaded page reads through the tables |
| Elf.ImageNext | src/kernel/elf.cpp:34-72 | loading one more segment: each page is as the last segment that has it wants it |
| Elf.InPlaceExactly | src/kernel/elf.cpp:45-72 | a file byte on a page whose last segment is another or the same is in place if and only if that segment has the same permission and makes the same byte of the address, its own file byte or the one the frame held before |
| Elf.OwnInPlace | src/kernel/elf.cpp:45-72 | a segment's bytes are in place on the pages that no later segment has |
| Elf.ApartInPlace | src/kernel/elf.cpp:34-72 | when no two segments share a page, every file byte of every loadable segment is in place |
| Elf.WhateverHeld | src/kernel/elf.cpp:51-71 | an address reads a byte whatever the frame held if and only if it is the owner's file byte |
| Elf.ZeroedInPlace | src/kernel/elf.cpp:51-71 | with zeroed free pages, a replaced byte where the owner has no file byte is in place if and only if it is zero and the permissions agree |
| Elf.Load | src/kernel/elf.cpp:18-79 | unknown images are refused untouched; with a free page for each page and each distinct missing table, every address on a page of the image reads what the last segment that has the page makes of it, on a frame that was free and with its permission; with pages for all but the last page's own tables the entry is returned, that page is not mapped and all others are loaded; with fewer the result is 0 |
| ReadyQueues.ScanFinds | src/kernel/scheduler.cpp:82-92 | the scan finds the first thread with the earliest deadline below the sentinel, or none |
| ReadyQueues.ChooseIsChoice | src/kernel/scheduler.cpp:77-128 | the code's choice is the declarative one |
| ReadyQueues.ChoiceUnique | src/kernel/scheduler.cpp:77-128 | the declarative choice has one answer |
| ReadyQueues.ScheduleSafe | src/kernel/scheduler.cpp:66-137 | schedule() keeps the invariant, makes the declared choice current and running, and keeps the set of runnable threads (idle when there is none); at every level the queue after is the queue before, behind it the outgoing thread when it is of that level, with only the chosen thread taken out, and no other thread changes state |
| ReadyQueues.EnqueueSafe | src/kernel/scheduler.cpp:198-200 | enqueueing keeps the invariant and adds exactly that thread to the runnable ones, at the back of its level and no other |
| ReadyQueues.ExitSafe | src/kernel/thread.cpp:175-177 | exit keeps the invariant and removes exactly the current thread from the runnable ones |
| ReadyQueues.NoneLost | src/kernel/scheduler.cpp:66-137 | in every run a runnable thread stays runnable until it exits |
| ReadyQueues.CalmSchedule | src/kernel/scheduler.cpp:114-118 | with no urgent thread and no higher level occupied, the head of the level becomes current and the rest moves up by one |
| ReadyQueues.MovesUp | src/kernel/scheduler.cpp:66-137 | after k such calls in any run the thread at index i is at index i - k |
| ReadyQueues.BoundedWait | src/kernel/scheduler.cpp:66-137 | the thread at index i of a real-time level becomes current on exactly the (i+1)-th call, whatever arrives meanwhile |
| ReadyQueues.NormalChosen | src/kernel/scheduler.cpp:114-125 | a normal thread is chosen if and only if no thread is urgent, every real-time level is empty and some normal one is not |
| ReadyQueues.NormalStarves | src/kernel/thread.cpp:81-81 | while the idle thread lives, no run makes a normal thread current |
| Scheduler.Scheduler.constructor | src/kernel/thread.cpp:74-89 | idle is current and running, nothing is queued |
| Scheduler.Scheduler.QueuePushBack | src/kernel/scheduler.cpp:42-52 | the thread goes to the back of its queue; head, tail, links and counter stay consistent with all queues |
| Scheduler.Scheduler.QueuePopFront | src/kernel/scheduler.cpp:54-62 | the head leaves its queue, or null for an empty one; consistency is kept |
| Scheduler.Scheduler.FindPrev | src/kernel/scheduler.cpp:100-107 | the search finds the thread's predecessor |
| Scheduler.Scheduler.QueueRemove | src/kernel/scheduler.cpp:95-112 | a thread leaves from anywhere in its queue; head, tail, links and counter stay consistent |
| Scheduler.Scheduler.FindEarliest | src/kernel/scheduler.cpp:80-92 | the nested loops compute the scan over all queues in order |
| Scheduler.Scheduler.PopTop | src/kernel/scheduler.cpp:114-125 | the loops pop the head of the first occupied level in the order tried |
| Scheduler.Scheduler.PickNext | src/kernel/scheduler.cpp:77-128 | the chosen thread is found and unlinked, all others keep their order |
| Scheduler.Scheduler.Schedule | src/kernel/scheduler.cpp:66-137 | the in-place schedule() refines the abstract one, and does nothing while disabled |
| Scheduler.Scheduler.EnqueueThread | src/kernel/scheduler.cpp:198-200 | the in-place enqueue refines the abstract one |
| Scheduler.Scheduler.ThreadExit | src/kernel/thread.cpp:175-177 | the current thread is dead and everything else unchanged |
| Scheduler.Scheduler.Start | src/kernel/scheduler.cpp:214-218 | scheduling is enabled, no thread is affected |
| Scheduler.Scheduler.ReadyQueueSize | src/kernel/scheduler.cpp:212-212 | the counter is the total length of the queues |
| CompletionRing.CreateInv | src/kernel/nvme.cpp:144-190 | a new queue satisfies the protocol invariant |
| CompletionRing.SeesExactly | src/kernel/nvme.cpp:264-268 | the phase test succeeds exactly when an entry is posted and not taken, and the entry seen is the next in posting order |
| CompletionRing.PostInv | src/kernel/nvme.cpp:264-268 | a post by a controller that keeps the tag rule and does not overrun the host keeps the invariant |
| CompletionRing.PollInv | src/kernel/nvme.cpp:268-277 | a poll keeps the invariant and takes one entry exactly when one is waiting |
| CompletionRing.InOrderDelivery | src/kernel/nvme.cpp:261-287 | in every interleaving what the host took is a prefix of what was posted, at most one per poll |
| CompletionRing.Drains | src/kernel/nvme.cpp:261-287 | with the controller silent, k polls take the next k entries or all that are left |
| CompletionRing.ServeTakesNext | src/kernel/nvme.cpp:261-287 | a call takes exactly the next posted completion, and times out exactly when none was posted by the last poll |
| CompletionRing.SessionStart | src/kernel/nvme.cpp:144-190 | a new driver session has taken nothing and lost nothing |
| CompletionRing.OwnCompletion | src/kernel/nvme.cpp:249-288 | while no call has timed out, a call takes the completion of its own command |
| CompletionRing.SessionOwn | src/kernel/nvme.cpp:249-288 | over a whole session, up to the first timeout call k returns the completion of command k |
| CompletionRing.TimeoutExactly | src/kernel/nvme.cpp:249-288 | whatever arrives, every completion a call could take is its own if and only if no earlier call timed out |
| CompletionRing.TimeoutSkew | src/kernel/nvme.cpp:262-287 | with an in-order controller a call's completion is its own if and only if no earlier call timed out; else it is as many commands back as there were timeouts |
| Nvme.NvmeQueue.constructor | src/kernel/nvme.cpp:144-190 | cleared rings, head 0, phase 1 |
| Nvme.StatusCode | src/kernel/nvme.cpp:269-269 | the status word is twice the code and the phase tag |
| Nvme.NvmeQueue.TakeHead | src/kernel/nvme.cpp:268-279 | advancing the head, toggling the phase at the wrap and ringing the doorbell is the protocol's poll |
| Nvme.NvmeQueue.Wait | src/kernel/nvme.cpp:261-287 | the spin loop refines serving one call, and returns the code that with the phase tag makes up the completion's status word |
| Nvme.NvmeQueue.Submit | src/kernel/nvme.cpp:249-288 | the command goes to the tail slot and the doorbell says so; the status word of the next posted completion is twice the result and its phase tag; the timeout code is returned exactly when none was posted |
| Nvme.NvmeQueue.Transfer | src/kernel/nvme.cpp:509-534 | a block read or write reports success exactly when a completion came with all status bits clear |
| Checksum.FoldStep | src/kernel/net.cpp:334-336 | adding the carry to the low half keeps the representative modulo 65535 |
| Checksum.RepMeaning | src/kernel/net.cpp:334-336 | the representative is 0 for 0 only and otherwise in 1..65535, congruent to the sum |
| Checksum.RfcTotalIsRep | src/kernel/net.cpp:325-338 | folding the plain sum at the end gives the end-around-carry sum of section 1 of RFC 1071 |
| Checksum.Fold | src/kernel/net.cpp:334-336 | the fold loop computes the representative |
| Checksum.WrapExactly | src/kernel/net.cpp:326-333 | dropping carries out of 32 bits changes the folded sum unless their number is a multiple of 65535 and the rest is not zero |
| Checksum.IpChecksum | src/kernel/net.cpp:325-338 | the loop computes the complement of the RFC's sum, odd lengths included, exactly when the 32-bit sum wraps harmlessly, as it does below 128 KiB |
| Checksum.StoredChecks | src/kernel/net.cpp:522-535 | storing the checksum in a zeroed even-offset field makes the whole range check to 0 |
| Checksum.AcceptsExactly | src/kernel/net.cpp:451-461 | the receive test accepts exactly the headers of at least five words whose checked bytes pass the RFC's sum test, except a field of 0xFFFF; with five words these are the header |
| Checksum.OptionsExactly | src/kernel/net.cpp:451-461 | a correct header with options is accepted if and only if the options and the bytes read instead have the same sum modulo 65535 |
| Checksum.SentAccepted | src/kernel/net.cpp:513-535 | every header that is built for sending passes the receive test and the RFC's |
| Checksum.SentFields | src/kernel/net.cpp:513-535 | the header says version 4, five words, the whole length, the identification, do not fragment, 64 hops, the protocol and both addresses |
| Checksum.EchoReplyChecks | src/kernel/net.cpp:570-597 | there is a reply exactly to an echo request of at least eight bytes; it is the request cut to 512 bytes with its type changed, and checks to 0 |
| Arp.InsertKeeps | src/kernel/net.cpp:213-224 | an insert keeps at most one entry per address and at most sixteen, and its address is found with its MAC |
| Arp.OneInsert | src/kernel/net.cpp:213-224 | an insert moves every entry up by one exactly when the oldest gives way, and changes no other MAC |
| Arp.Lives | src/kernel/net.cpp:213-234 | over any inserts an entry is found with its latest MAC as long as its place lasts |
| Arp.SixteenSlots | src/kernel/net.cpp:213-234 | an address is found until sixteen further inserts took new slots, and is gone with the sixteenth |
| Arp.ArpCache.constructor | src/kernel/net.cpp:210-211 | an empty cache of sixteen slots |
| Arp.ArpCache.CacheInsert | src/kernel/net.cpp:213-224 | the slot array with its cursor refines the first-in first-out bounded map |
| Arp.ArpCache.CacheLookup | src/kernel/net.cpp:226-234 | the slot scan finds what the bounded map holds |
| Paths.TokensExactly | src/kernel/vfs.cpp:341-357 | the components read are the non-empty names between slashes if and only if every name fits the buffer |
| Paths.TokensJoin | src/kernel/vfs.cpp:341-357 | the components of a/b are those of a followed by those of b, however long |
| Paths.ResolveAppend | src/kernel/vfs.cpp:341-375 | resolving is a fold: resolving two lists of names is resolving the second from where the first leads |
| Paths.OpenJoin | src/kernel/vfs.cpp:341-375 | opening a/b is resolving b from what a opens to |
| Paths.DotsDropped | src/kernel/vfs.cpp:359-359 | components "." make no difference |
| Paths.OpenIsFold | src/kernel/vfs.cpp:341-375 | for names that fit, resolving is the fold over the names with empty and "." ones dropped |
| Vfs.MkdirExactly | src/kernel/vfs.cpp:464-479 | making a directory changes no path that resolves, if and only if the name it keeps is not already a child's or has a slash |
| Vfs.MkdirVisible | src/kernel/vfs.cpp:464-479 | in a directory that can be looked into, the new directory is found under the name it keeps, leads back up and is empty, and one made in it is found below it |
| Vfs.MountExactly | src/kernel/vfs.cpp:313-326 | a mount changes exactly the entries that name the mount point itself, which now lead to the new root, and the way up from that root |
| Vfs.ShortNamesSafe | src/kernel/vfs.cpp:464-479 | a name of at most 255 characters never is |
| Vfs.ShadowedChild | src/kernel/vfs.cpp:45-52 | otherwise the kept name resolved to the old child before and to the new directory after |
| Paths.NoSlashes | src/kernel/vfs.cpp:351-356 | no component has a slash |
| Paths.OneToken | src/kernel/vfs.cpp:351-356 | a name without slashes that fits is one component |
| Vfs.MkdirParts | src/kernel/vfs.cpp:464-479 | making a directory is creating a node and adding it |
| Vfs.CreatedParented | src/kernel/vfs.cpp:56-73 | a created node is in no directory and mounted nowhere, and every parent link stays right |
| Vfs.AttachedParented | src/kernel/vfs.cpp:75-79 | adding such a node to a directory keeps every parent link right |
| Vfs.InitialParented | src/kernel/vfs.cpp:381-436 | the initial tree has right parent links |
| Vfs.MkdirParented | src/kernel/vfs.cpp:464-479 | making a directory keeps every child's parent the directory it is in |
| Vfs.MountParented | src/kernel/vfs.cpp:313-326 | mounting a root keeps that, and gives the root the directory it covers as its parent |
| Vfs.UpAgain | src/kernel/vfs.cpp:359-371 | down to a child and up again leads back if and only if nothing is mounted on the child; else it leads to the covered child |
| Vfs.UpAllAgain | src/kernel/vfs.cpp:341-375 | down any number of uncovered children and up as many times leads back |
| Vfs.FileSystem.DirOpen | src/kernel/vfs.cpp:133-147 | the child loop finds the first child with the name; "." and ".." as given |
| Vfs.FileSystem.MountResolve | src/kernel/vfs.cpp:328-337 | the loop finds the newest mount on a node, else the node |
| Vfs.FileSystem.NextComponent | src/kernel/vfs.cpp:351-356 | the copy loop reads one component, cut at 255 characters |
| Vfs.FileSystem.StepTo | src/kernel/vfs.cpp:359-371 | one turn of the loop is one step of the fold |
| Vfs.FileSystem.ResolvePath | src/kernel/vfs.cpp:341-375 | the loop over the path string computes the fold over its components |
| Vfs.FileSystem.Open | src/kernel/vfs.cpp:442-449 | with or without a leading slash, opening is resolving from the root |
| Vfs.FileSystem.constructor | src/kernel/vfs.cpp:384-391 | the root directory, its own parent |
| Vfs.FileSystem.CreateNode | src/kernel/vfs.cpp:56-73 | fails exactly without memory; else a new node that is in no directory |
| Vfs.FileSystem.AddChild | src/kernel/vfs.cpp:75-79 | the child is the first of the directory and has it as its parent |
| Vfs.FileSystem.AddDevice | src/kernel/vfs.cpp:411-428 | a device node is created and added |
| Vfs.FileSystem.Init | src/kernel/vfs.cpp:381-436 | the tree vfs_init builds, with right parent links |
| Vfs.FileSystem.MakeDir | src/kernel/vfs.cpp:464-479 | exact success condition; on success the new node is the first child, on failure nothing changes |
| Vfs.FileSystem.MountAdd | src/kernel/vfs.cpp:313-326 | on success the newest mount and the new parent of the mounted root, on failure nothing |
| Tmpfs.ReadBack | src/kernel/vfs.cpp:83-131 | reading the range just written returns what was stored |
| Tmpfs.LogLastWrite | src/kernel/vfs.cpp:98-131 | after any sequence of writes each byte is that of the last write covering it, a byte no write covers is zero, and the length is the furthest end |
| Tmpfs.WrittenBy | src/kernel/vfs.cpp:98-131 | what the two loops make of memory is the written file in its first bytes |
| Tmpfs.RestKeptExactly | src/kernel/vfs.cpp:107-125 | a write leaves what follows the page as it was if and only if the part of the gap beyond the page was zero already |
| Tmpfs.StaysInPage | src/kernel/vfs.cpp:107-125 | whatever the memory holds, that is if and only if the offset is at most the page size |
| Tmpfs.ClearGap | src/kernel/vfs.cpp:114-119 | the loop clears exactly the gap |
| Tmpfs.StoreBytes | src/kernel/vfs.cpp:121-125 | the loop stores exactly the bytes |
| Tmpfs.TmpfsFile.FileWrite | src/kernel/vfs.cpp:98-131 | the page with its size refines the byte sequence capped at 4096, whatever the fresh page held and at every offset, and memory after the page is that of the two loops; without a buffer or a page nothing changes |
| Tmpfs.TmpfsFile.FileRead | src/kernel/vfs.cpp:83-96 | a read returns exactly the slice of the byte sequence |
| Examples.OneBlockInv | src/kernel/mm.cpp:96-141 | the free list of the next example meets the allocator's invariant |
| Examples.ListsNotRestored | src/kernel/mm.cpp:152-221 | one free block of two pages: allocating one page and freeing it leaves two blocks of one page |
| Examples.SharedWritable | src/kernel/vmm.cpp:43-47 | every clone of a concrete address space shares its frame and leaves it writable in both exactly for slots from 256 on |
| Examples.LeakedPage | src/kernel/vmm.cpp:56-63 | every clone of a concrete address space into pages full of present words maps a page that the parent does not |
| Examples.ChainCost | src/kernel/vmm.cpp:71-85 | cloning that address space takes four pages |
| Examples.CloneChain | src/kernel/vmm.cpp:71-85 | so both happen in any machine of sixteen frames with four free |
| Examples.FrameZeroLost | src/kernel/pf.cpp:48-59 | with no page free, the contents of frame 0 are lost and the page is on it |
| Examples.FaultChain | src/kernel/pf.cpp:17-70 | the handler does that in any machine of sixteen frames with none free |
| Examples.BlankCost | src/kernel/elf.cpp:34-72 | loading page 0 below a blank root takes four pages, and a second time one more |
| Examples.LoadedUnmapped | src/kernel/elf.cpp:18-79 | given an image with one page and one to three free pages, the loader returns the entry address and the page is not mapped |
| Examples.FirstReplaced | src/kernel/elf.cpp:18-79 | given an image whose second segment is anywhere on the page of the first, the loader leaves the first segment's byte out of place |
| Examples.IdleAgain | src/kernel/scheduler.cpp:114-125 | with idle running and a thread of level 100 ready, schedule() picks idle |
| Examples.OthersCompletion | src/kernel/nvme.cpp:261-287 | after a timeout the next call returns the completion of the first command |
| Examples.UpIntoCovered | src/kernel/vfs.cpp:359-371 | in the tree that vfs_init builds, /dev/.. is the covered directory |
| Examples.OpenUp | tests/test_vfs.cpp:190-198 | opening it after vfs_init does not give the root |
| Examples.Hidden | src/kernel/vfs.cpp:464-479 | a directory of 256 characters hides one of the first 255 |
| Examples.BeyondPage | src/kernel/vfs.cpp:114-119 | a write at offset 4097 clears byte 4096 |
| Examples.CorrectRejected | src/kernel/net.cpp:451-461 | a header that passes the sum test with a field of 0xFFFF is rejected |
| Examples.OptionsRejected | src/kernel/net.cpp:451-461 | a header of six words that passes the sum test is rejected when zeros follow its copy |
| Examples.CarryLost | src/kernel/net.cpp:326-333 | the sum over 128 KiB and four bytes of ones loses a carry |

## Left out

- Vmm.Machine.MapPage: flushing the TLB, and kernel addresses, whose tables are shared by all address spaces, so that mapping there changes more than one space; and tables that are not tree-shaped.
- Vmm.Machine.WalkTables: kernel addresses, likewise.
- Vmm.Machine.WalkPageTable: kernel addresses, likewise.
- Vmm.Machine.UnmapPage: kernel addresses, likewise, and tables that are not tree-shaped.
- Elf.Load: no-execute permissions, because the loader keeps its flags in 32 bits and PAGE_NX is bit 63; it asks that segments lie in user space and their bytes in the file, which the loader does not test.
- PageFault.HandleFault: faults at kernel addresses, and frames that are free or are the faulting space's own tables.
- Cow.ChildWrites: children whose tables inherited present words, which are not tree-shaped.
- CowRun.ForkAndRun: the same; pages with a table index of 256 or more, which both sides share; and which bytes pages on frame 0 hold.
- Fork.MakeObject: the state of the slab cache is a parameter, not that of `Heap`.
- Tmpfs.TmpfsFile.FileWrite: sizes that wrap around 64 bits.
- CompletionRing.OwnCompletion: command identifiers are numbers that never wrap; the driver leaves the 16-bit field at zero.
- Nvme.NvmeQueue.Submit: the null queue test.
- Nvme.NvmeQueue.Transfer: the fields of the command, and the null buffer test.
- Arp.ArpCache.constructor: the cache's slots are an array of records; network byte order of addresses is not modelled.
- Heap.KernelHeap.constructor: the words of slab headers are records beside the page's words, so overlap is stated for ranges of addresses.
- Vfs.FileSystem.MakeDir: null arguments; sibling links and the mount list are sequences, not linked nodes.
- Context switch, first entry of a new thread, timer interrupts and re-arming the timer: assembly and hardware.
- Preemption of FIFO threads by the timer handler: a single test in front of schedule().
- Frame fields refcount and numa_node, statistics and getters: only easy members.
- User half teardown: vmm_destroy_address_space is empty.
- DHCP, UDP, TCP, ARP packets and Ethernet frames: single-branch transitions and byte copying.
- Device registry, process list, readdir, devfs and initramfs nodes: simple lists.
- execve, system calls, SMP start-up, APIC, HPET, PCI, GDT, IDT, serial, framebuffer and virtio-net: hardware access or stubs.
