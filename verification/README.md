# Memory management of the AIM teaching kernel: a Dafny model

The project models the memory-management stack of the kernel and proves what it promises: the buddy page
allocator and the slub object allocator on top of it, the hand-over of physical memory at boot, and the boot
page tables. Four smaller parts follow: the CRC-32 of the boot loader, `vsnprintf`, the armv7a spin lock, and
the loading of the kernel image.

| file | models |
|---|---|
| `Words.dfy` | `&`, `\|`, `^`, `& ~`, `>>` on unsigned words, the alignment macros, and the arithmetic they stand for |
| `Blocks.dfy` | naturally aligned blocks, and the maximal free ones: what free lists must hold, with no allocator in sight |
| `ListHead.dfy` | the intrusive cyclic lists, as pointer maps |
| `BuddySpec.dfy`, `BuddyTheorems.dfy`, `Buddy.dfy` | the buddy allocator: what its records and lists stand for, what follows, the methods |
| `Pvbridge.dfy` | physical to kernel addresses and back |
| `SlubSpec.dfy`, `Slub.dfy` | the slub allocator: slots, headers, lists; the methods over the buddy allocator |
| `Bootstrap.dfy`, `Handover.dfy` | the bump allocator, the zones, the freeing of the machine memory map |
| `Kernel.dfy` | `vmm_bootstrap` as a whole, and where every object allocated afterwards lies |
| `EarlyMapping.dfy`, `PageTable.dfy` | the queue of early mappings, and the two table formats that refine it |
| `Crc32.dfy`, `Crc32Order.dfy` | the CRC-32 with its table against bit-by-bit division; what its constants are for |
| `Snprintf.dfy`, `Spinlock.dfy`, `BootLoader.dfy` | the other smaller parts |

## How it is built

**Buddy allocator.** A page record means something only at the head of a block; after a merge the records inside
keep what they last said. So the invariant (`BuddySpec.Rep`) goes through two things the records do not hold: the
map of live blocks and the set of free pages. The lists hold exactly the *maximal* free blocks, those that are not
half of a larger free block, and `Blocks` shows that taking a maximal block out, or putting one in whose buddy is not
a maximal block of its order, changes nothing else about which blocks are maximal. Completeness of the search, the
canonical form of the lists, and the safety of every record that `free` looks at follow from that. Every method also
says how the lists change, in order (`MallocLists`, `FreeLists`), so its new state is determined.

**Slub allocator.** `SlubSpec.Inv` says of one state: every slot of every block is either on the free list of its block
or a live small object, and every block is on the one list of its level where it belongs. `Slub.Backed` ties blocks
and large objects to live blocks of the page allocator. `Foreign()` are the live blocks of other users; no slub call
changes them. A live object is clear of every block header, every free slot and every page of another user, and so the
invariant survives whatever is written into objects (`Slub.WritesKeepValid`).

**Boot.** The run of `vmm_bootstrap` is one method over the other classes: bump allocator, three buddy allocators, the
double loop that frees page by page, the bridge and the slub allocator over the normal zone. Its result says which pages
are free, in which zone, and where all memory it took lies. `AfterBoot` is what it leaves and what every later call keeps,
those of other users of the pages included: the bridge's own `malloc` and `free`, `alloc_pages` and `free_pages`.
`Kernel.ObjectsInUsableMemory` puts it all together: every byte of every live object, after any such calls, lies on a page
that the machine's memory map calls usable and the kernel did not keep for itself.

**Page tables.** `Walk` is what the processor does with the tables (section 4.4.2 of the Intel SDM, volume 3A, and section
B3.6 of ARM DDI 0406C), `Translate` is what the queue says. They are equal for every address, for both
formats, also for mappings that overlap or pass the end of the address space (distances are taken modulo 2^32). The
walk decodes the attribute bits of the entry it finds as the manuals lay them out, and faults on reserved ones; what every
address of a mapping is to have, by its type, is `PageTable.RightFor`.

**CRC-32.** The table is the division, bursts of up to 32 bits are detected, and the polynomial is primitive: its powers of X
repeat after 2^32 - 1 and not before. The proof climbs to five powers of X digit by digit, by squaring, and excludes every
proper divisor of the order. It says exactly when zero bytes in front of a message go unnoticed, which is what the
complement of the register is for.

**C arithmetic.** Integers are unbounded, so every width is written out: `size_t` and pointers are 32 bits, `lsize_t` and
`addr_t` 64. A C string is the sequence of its characters before the terminator.

## What the code does that its documentation does not say

- `malloc` of the buddy allocator takes bytes; the comment at `include/aim/pmm.h:105` says pages.
- The page count of a request is stored in 32 bits. From 2^32 pages on it is cut, and the block is too small
  (`Buddy.CountIsEnough` has the exact condition). Then `aligned_malloc` can answer with a misaligned address; exactly when
  is `Buddy.AlignmentKept`, and `Buddy.MisalignedRun` is a run for every case in which it does not hold.
- The offset of a block in its zone is a 32-bit product. In a zone of more than 2^32 bytes, as a highmem zone may be, two
  pages get the same address (`Buddy.AddressExact`, `Buddy.LargeZoneCollides`).
- The memory after the kernel is counted in 32 bits: with a multiple of 4 GB left, boot panics for lack of memory
  (`Handover.NoFreeMemoryExact`).
- `OVERLAP` lets intersecting mappings pass: those with the same start, those below one that starts lower and reaches the
  top of the address space, and those that wrap around onto one that starts lower (`EarlyMapping.OverlapMisses` has both
  directions, for all mappings; `EarlyMapping.SameStartPasses` an input).
- `early_mapping_add_memory` with size 0 queues an empty mapping and returns 0, its failure value.
- On armv7a a queued mapping of type KMMAP makes the setup of the tables panic.
- The entry point of a kernel image is moved again by every later segment whose virtual range has the address it was
  moved to (`BootLoader.MovedOnce`, `BootLoader.MovedTwice`).
- `vsnprintf` returns the length only when there is one character of room to spare (`|t| + 1 < size`), and `size`
  otherwise. A numeric width is always padded with zeros, because of the `|` at `lib/libc/snprintf.c:128`, and a width
  smaller than the number of digits drops the high digits (`Snprintf.NumberReadsBack` says when the number can be
  read back).

## Model

| member | source | states |
|---|---|---|
| Words.IsPowOf2Sound | include/util.h:79-79 | whatever IS_POW_OF_2 accepts is a power of two |
| Words.IsPowOf2Complete | include/util.h:79-79 | every power of two is accepted |
| Words.AndMaskIsOffset | include/util.h:80-81 | masking with 2^k - 1 gives the offset in the aligned run; IS_ALIGNED is divisibility |
| Words.AndNotMaskIsDown | include/util.h:83-83 | ALIGN_BELOW gives the start of the aligned run of 2^k |
| Words.OrMaskFillsRun | include/util.h:82-82 | the `\|` in ALIGN_ABOVE gives the last number of the aligned run |
| Words.XorIsBuddy | kern/mm/pmm/buddy.c:17-17 | the `^` of get_buddy names the other half of the enclosing block, for every index and order |
| Words.BuddyHalves | kern/mm/pmm/buddy.c:17-17 | the halves of a block are exactly the block and its buddy; the buddy of the buddy is the block |
| Words.BuddyValue | kern/mm/pmm/buddy.c:17-18 | which half a block is, and where the other one starts |
| Words.AndNotClearsBit | kern/mm/pmm/buddy.c:18-18 | get_low_index of a block is the start of the enclosing block of the next order |
| Words.OrAddsBit | kern/mm/pmm/buddy.c:19-19 | get_high_index of the lower half is the start of the upper half |
| Blocks.RemoveMaximal | kern/mm/pmm/buddy.c:87-88 | taking out a maximal free block leaves all others maximal and makes no new one |
| Blocks.AddMaximal | kern/mm/pmm/buddy.c:155-158 | a block put in beside a buddy that is not a maximal free block adds itself to the maximal ones and changes no other |
| Blocks.InsideMaximal | kern/mm/pmm/buddy.c:59-65 | every aligned free run lies in a maximal one, so looking at the list heads is enough |
| Blocks.MaximalUnique | kern/mm/pmm/buddy.c:138-153 | two maximal free blocks that share a page are the same: fully merged free blocks are disjoint |
| Blocks.MaximalOfAll | kern/mm/pmm/buddy.c:197-220 | with all n pages free there is one block of order k iff bit k of n is set, above all higher bits |
| ListHead.RingAdd | include/list.h:74-77 | after list_add the cycle is the new node followed by the old ones, in both directions |
| ListHead.RingDel | include/list.h:88-98 | after list_del the cycle is the old one without that node, in both directions |
| ListHead.RingAddFrame | include/list.h:65-77 | list_add leaves every cycle alone that shares no location with the list and the node |
| ListHead.RingDelFrame | include/list.h:88-98 | list_del leaves every disjoint cycle alone |
| ListHead.FamilyAdd | include/list.h:74-77 | list_add of an unused node keeps a whole family of disjoint cycles |
| ListHead.FamilyDel | include/list.h:94-98 | list_del keeps a whole family of disjoint cycles, and the node is then on none |
| ListHead.ListMem.InitListHead | include/list.h:39-43 | the head points to itself both ways; nothing else changes |
| ListHead.ListMem.ListAddBetween | include/list.h:65-72 | exactly four pointers change |
| ListHead.ListMem.ListAdd | include/list.h:74-77 | the links afterwards are those of which RingAdd speaks |
| ListHead.ListMem.ListDel | include/list.h:88-98 | the links afterwards are those of which RingDel speaks |
| BuddySpec.TakeBlock | kern/mm/pmm/buddy.c:71-88 | list_del of a listed block keeps the representation, with exactly its pages no longer free |
| BuddySpec.PutBlock | kern/mm/pmm/buddy.c:155-158 | list_add of a block in hand keeps the representation, with exactly its pages free, if its buddy is not a free block of the same order |
| BuddySpec.RecordLive | kern/mm/pmm/buddy.c:75-83 | writing the record at the head makes the block in hand a live block |
| BuddySpec.ForgetLive | kern/mm/pmm/buddy.c:126-134 | freeing puts exactly the pages of the live block in hand |
| BuddySpec.BuddyRecord | kern/mm/pmm/buddy.c:141-146 | the three tests of `free` on the buddy's record are exactly the question whether the buddy is a free block of the same order: no stale record inside a block is ever acted upon |
| BuddySpec.TopHasNoBuddy | kern/mm/pmm/buddy.c:139-139 | at the top order no merge is possible, so the loop bound loses nothing |
| BuddyTheorems.SearchComplete | kern/mm/pmm/buddy.c:59-69 | the search fails exactly when no naturally aligned run of 2^order free pages exists |
| BuddyTheorems.ListsCountFreePages | kern/mm/pmm/buddy.c:84-85 | the sum of 2^order over all listed blocks is the number of free pages |
| BuddyTheorems.PagesConserved | kern/mm/pmm/buddy.c:132-135 | every page is free or in a live block and counted once |
| BuddyTheorems.LiveBlocksApart | kern/mm/pmm/buddy.c:48-102 | of two live blocks the one ends before the other begins |
| BuddyTheorems.Canonical | kern/mm/pmm/buddy.c:87-158 | the lists, as sets, are a function of the live blocks, whatever the history |
| BuddyTheorems.AllFreed | kern/mm/pmm/buddy.c:136-158 | with everything freed the lists are the binary expansion of the page count |
| BuddyTheorems.FreedIsFirst | kern/mm/pmm/buddy.c:59-72 | a freed block that does not merge is what the next request of its order gets |
| Buddy.OrderFits | kern/mm/pmm/buddy.c:55-57 | the order found is the least whose blocks hold the pages |
| Buddy.CountIsEnough | kern/mm/pmm/buddy.c:52-53 | the pages counted hold the request iff their number needs no more than 32 bits |
| Buddy.LeastBlockFound | kern/mm/pmm/buddy.c:52-57 | as long as the count is not cut, the order is that of the least block that holds the request, and the count is the request rounded up to pages |
| Buddy.MallocGives | kern/mm/pmm/buddy.c:48-102 | a request fails iff there is no free run of the least order; otherwise exactly the least block is added, from the front of the first list that has one |
| Buddy.AlignmentExact | kern/mm/pmm/buddy.c:101-116 | all blocks of an order that fit a zone have an alignment that the base has iff it is at most their size, or only the first one fits |
| Buddy.AlignedAddress | kern/mm/pmm/buddy.c:104-116 | an address given has the alignment whenever AlignmentKept holds |
| Buddy.UncutRequestKeepsAlignment | kern/mm/pmm/buddy.c:52-57 | AlignmentKept holds for every request of at least `align` bytes whose page count is not cut |
| Buddy.MisalignedRun | kern/mm/pmm/buddy.c:104-159 | whenever AlignmentKept fails there is a run of constructor, frees and `aligned_malloc` that ends with a misaligned address: the condition is exact |
| Buddy.CutRequestLosesAlignment | kern/mm/pmm/buddy.c:52-57 | for 2^44 bytes in a zone of at least two 4 KB pages AlignmentKept fails for an alignment of 2^44 and holds for one of 4096 |
| Buddy.CutRequestRun | kern/mm/pmm/buddy.c:104-159 | that request, in a zone of two pages, is answered with a misaligned address |
| Buddy.AddressExact | kern/mm/pmm/buddy.c:101-101 | every page gets its own address iff the last one starts less than 2^32 bytes after the first |
| Buddy.LargeZoneCollides | kern/mm/pmm/buddy.c:101-101 | in a larger zone another page gets the address of the first one |
| Buddy.SplitHalf | kern/mm/pmm/buddy.c:89-99 | the upper half is always in range, so the test at line 92 always holds, and can be listed |
| Buddy.HandBoth | kern/mm/pmm/buddy.c:138-153 | a block and its free buddy are one block of the next order at get_low_index |
| Buddy.FindMaxOrder | kern/mm/pmm/buddy.c:197-197 | the largest order with 2^order at most the page count, 0 for an empty zone |
| Buddy.BuddyPmalloc.constructor | kern/mm/pmm/buddy.c:175-222 | valid from the start, with every page a live block of its own |
| Buddy.BuddyPmalloc.MarkAllInUse | kern/mm/pmm/buddy.c:210-215 | every record says in use, order 0, one page |
| Buddy.BuddyPmalloc.InitLists | kern/mm/pmm/buddy.c:217-220 | one empty, well-formed cycle for every order up to the largest |
| Buddy.BuddyPmalloc.TargetOrder | kern/mm/pmm/buddy.c:55-57 | the loop finds the order of which OrderFits speaks |
| Buddy.BuddyPmalloc.FindList | kern/mm/pmm/buddy.c:59-69 | the loop finds the first order from the target on with a non-empty list |
| Buddy.BuddyPmalloc.Malloc | kern/mm/pmm/buddy.c:48-102 | fails iff there is no aligned free run of the order, and then changes nothing; otherwise exactly one live block is added, the least that holds the request, from the front of the first list that has one; lists and counters follow |
| Buddy.BuddyPmalloc.Hand | kern/mm/pmm/buddy.c:74-88 | the block found leaves its list and its head becomes the live block; the asserts at lines 74 and 79 hold |
| Buddy.BuddyPmalloc.Split | kern/mm/pmm/buddy.c:89-99 | all pages of the block beyond the wanted order are free again, as upper halves in front of their lists |
| Buddy.BuddyPmalloc.AlignedMalloc | kern/mm/pmm/buddy.c:104-116 | panics iff `align` is no power of two or the base lacks it; otherwise the least block for `align` bytes if that is more than `size`, and for `size` bytes if not, with an aligned address whenever AlignmentKept holds |
| Buddy.BuddyPmalloc.Free | kern/mm/pmm/buddy.c:118-159 | exactly the block at the address is no longer live, and its pages are merged as far as possible; the asserts at lines 123, 128-130 and 135 hold |
| Buddy.BuddyPmalloc.Merge | kern/mm/pmm/buddy.c:138-153 | stops with a block whose buddy is not free in the same order, having taken exactly the merged buddies off their lists |
| Buddy.BuddyPmalloc.PutOnList | kern/mm/pmm/buddy.c:155-158 | the block is in front of the list of its order and its pages are free |
| Buddy.BuddyPmalloc.TakeOffList | kern/mm/pmm/buddy.c:150-150 | the block is off its list and its pages are in hand |
| Buddy.BuddyPmalloc.GetSize | kern/mm/pmm/buddy.c:161-167 | the size asked for, for every live block |
| Buddy.BuddyPmalloc.GetFreeBytes | kern/mm/pmm/buddy.c:169-173 | the page size times the number of pages in no live block |
| Buddy.FreeUndoesMalloc | kern/mm/pmm/buddy.c:48-159 | malloc and then free restore live blocks, lists as sets, and both counters |
| Buddy.SameLiveSameState | kern/mm/pmm/buddy.c:87-158 | two zones with the same live blocks have the same lists as sets and the same counters: any order of frees gives the same result |
| Buddy.Conservation | kern/mm/pmm/buddy.c:78-85 | the free counter is the sum of 2^order over the lists, the waste counter the sum of unused pages over the live blocks; free and live pages are all pages; no counter underflows |
| Buddy.NoDoubleAllocation | kern/mm/pmm/buddy.c:48-102 | in every state the blocks at two live addresses are disjoint and inside the zone |
| Buddy.EverythingFreed | kern/mm/pmm/buddy.c:136-158 | with everything freed, the lists are the binary expansion of the page count and the counters are full and 0 |
| Pvbridge.KoffsetPvbridge.Malloc | kern/mm/vmm/pvbridge.c:16-22 | NULL iff the page allocator has no block; otherwise the address of its block plus KOFFSET, without wrap |
| Pvbridge.KoffsetPvbridge.AlignedMalloc | kern/mm/vmm/pvbridge.c:24-30 | the same for an aligned block; panics iff the page allocator does |
| Pvbridge.KoffsetPvbridge.Free | kern/mm/vmm/pvbridge.c:32-38 | frees exactly the block behind the pointer; NULL frees nothing |
| Pvbridge.NewLivePage | kern/mm/vmm/pvbridge.c:24-30 | a pointer returned is that of a page that was not live and now heads the least block for the request |
| SlubSpec.SlotsFillBlock | kern/mm/vmm/slub.c:16-17 | at every level the first slot is the first place behind the header that is aligned, and the slots fill the 4 KB block to its last byte |
| SlubSpec.SlotInBlock | kern/mm/vmm/slub.c:16-17 | a slot lies behind the header, inside its block, and is never block-aligned |
| SlubSpec.SlotAtIsSlot | kern/mm/vmm/slub.c:36-41 | every address of the initialisation loop is a slot, and they follow each other |
| SlubSpec.PopSlot | kern/mm/vmm/slub.c:46-52 | taking the first free slot keeps the invariant, with one more small object |
| SlubSpec.PushSlot | kern/mm/vmm/slub.c:91-94 | putting the slot of a small object back keeps the invariant, with one less |
| SlubSpec.UnlinkBlock | kern/mm/vmm/slub.c:76-76 | list_del takes a block off the one list it is on |
| SlubSpec.LinkBlock | kern/mm/vmm/slub.c:77-77 | list_add puts a block that is on no list on the list wanted |
| SlubSpec.NewBlock | kern/mm/vmm/slub.c:32-34 | setting up a header on a fresh page disturbs no list |
| SlubSpec.SmallObjectsApart | kern/mm/vmm/slub.c:46-80 | two small objects occupy disjoint byte ranges of the sizes asked for |
| SlubSpec.SmallObjectInBlock | kern/mm/vmm/slub.c:16-17 | a small object stays clear of the header and of the end of its block |
| Slub.ObjectsApart | kern/mm/vmm/slub.c:54-80 | two live objects of either kind occupy disjoint byte ranges of the sizes asked for |
| Slub.LargeClearOfBlock | kern/mm/vmm/slub.c:24-64 | a large object shares no byte with any block: not with its header, its list node or its slots |
| Slub.ClearOfForeign | kern/mm/vmm/slub.c:24-64 | an object shares no byte with the pages of another user |
| Slub.DispatchExact | kern/mm/vmm/slub.c:82-99 | a live pointer is block-aligned iff it came from the large-object path |
| Slub.LevelOf | kern/mm/vmm/slub.c:57-59 | the level is the least whose slots hold the size, and is a slub level iff the size is at most 1024 |
| Slub.SlubVmalloc.constructor | kern/mm/vmm/slub.c:130-143 | valid and empty |
| Slub.SlubVmalloc.NewPage | kern/mm/vmm/slub.c:29-30 | NULL iff no page is free; otherwise one page that was not live, from the front of the first list that has one |
| Slub.SlubVmalloc.InitBlock | kern/mm/vmm/slub.c:32-43 | all slots of the new block are on its free list, the last one in front; no object and no other list changes |
| Slub.SlubVmalloc.LinkSlots | kern/mm/vmm/slub.c:36-41 | the loop puts every slot of the block on its free list, the last one in front |
| Slub.SlubVmalloc.LevelFor | kern/mm/vmm/slub.c:57-58 | the loop finds the level of which LevelOf speaks |
| Slub.SlubVmalloc.Refill | kern/mm/vmm/slub.c:67-71 | succeeds iff a page is free; then one new block of the level is in front of its avail list |
| Slub.SlubVmalloc.AddBlock | kern/mm/vmm/slub.c:32-70 | a block set up on a page that was no block is in front of the avail list of its level, and the invariant holds again |
| Slub.SlubVmalloc.MallocFromSlub | kern/mm/vmm/slub.c:46-52 | the front slot of the free list, which was no object, becomes one and the list keeps the rest; the assert holds for every block on an avail list |
| Slub.SlubVmalloc.TakeSlot | kern/mm/vmm/slub.c:73-79 | the slot is the front one of the first avail block, and that block is on the full list iff it was its last one |
| Slub.SlubVmalloc.MoveBlock | kern/mm/vmm/slub.c:75-98 | the block leaves the one list of its level and is in front of the other; all other lists, and the order of both, are kept |
| Slub.SlubVmalloc.Unlink | kern/mm/vmm/slub.c:76-76 | the block leaves the list it is on, the others there keep their order, and no other list changes |
| Slub.SlubVmalloc.Link | kern/mm/vmm/slub.c:77-77 | the block is in front of that list of its level, and no other list changes |
| Slub.SlubVmalloc.Malloc | kern/mm/vmm/slub.c:54-80 | exactly one object is added. Up to 1024 bytes: the front slot of the first avail block, or the last slot of a new block only if no block has a free slot; above: the least block of pages, from the front of the first list that has one. Fails iff there is neither a slot nor the pages, and then changes nothing; no page of another user changes |
| Slub.SlubVmalloc.MallocLarge | kern/mm/vmm/slub.c:59-64 | one large object on the least block that holds it, or NULL iff there is no free run of its order |
| Slub.SlubVmalloc.Free | kern/mm/vmm/slub.c:82-99 | exactly that object goes away, to the allocator it came from; its slot is in front of the free list, and a block that had none is in front of the avail list of its level; blocks and all pages but those of a large object stay |
| Slub.SlubVmalloc.PutSlot | kern/mm/vmm/slub.c:91-98 | the slot is in front of the free list of its block, a block that had no free slot moves to the front of the avail list, no other list changes, and the invariant holds again |
| Slub.SlubVmalloc.LinkSlot | kern/mm/vmm/slub.c:91-94 | the move flag says whether the block had no free slot, and the slot is in front of its free list |
| Slub.ReuseFreedSlot | kern/mm/vmm/slub.c:54-99 | a slot freed in a block that had none is what the next request of that level gets |
| Slub.SlubVmalloc.FreeLarge | kern/mm/vmm/slub.c:85-90 | the pages of a large object go back to the page allocator; NULL is ignored |
| Slub.WholeStackSafe | kern/mm/vmm/slub.c:24-99 | in every state of the allocator two live objects are disjoint, and alignment tells the two kinds apart |
| Slub.ObjectsClearOfBlocks | kern/mm/vmm/slub.c:16-64 | in every state no live object touches a block, its header or its free slots, except that a small object fills one slot of its own block |
| Slub.ObjectsClearOfForeign | kern/mm/vmm/slub.c:24-64 | in every state no live object touches a page of another user |
| Slub.WritesKeepValid | kern/mm/vmm/slub.c:24-99 | the invariant survives any change of list pointers and header fields that share a byte with a live object: there are none in use |
| Bootstrap.BootstrapVmalloc.constructor | kern/mm/vmm/bootstrap.c:45-57 | empty, with the limit as a 32-bit pointer |
| Bootstrap.BootstrapVmalloc.Malloc | kern/mm/vmm/bootstrap.c:18-32 | NULL iff the rounded-up request, in 32 bits, passes the limit; as long as nothing wraps what is given is page-aligned, disjoint from everything given before, between base and limit |
| Handover.TryFreePage | kern/arch/i386/arch_mmu.c:287-292 | the page is freed in this zone iff the zone has it, and only once |
| Handover.FreePage | kern/arch/i386/arch_mmu.c:308-310 | after the loop over the zones the page is freed in every zone that has it |
| Handover.FreeRegion | kern/arch/i386/arch_mmu.c:301-312 | the pages of one usable region, rounded inward and outside the kernel, are freed, none of them twice |
| Handover.ArchInitFreePmmZone | kern/arch/i386/arch_mmu.c:294-314 | freed are exactly the pages in some inward-rounded usable region and outside [kstart, kend) |
| Handover.ArchInitPmmZone | kern/arch/i386/arch_mmu.c:242-262 | the tops of which NormalTopExact and TopExact speak |
| Handover.NormalTopExact | kern/arch/i386/arch_mmu.c:244-257 | below the normal top lie exactly the pages wholly in the kernel's region and below KTOP - KOFFSET |
| Handover.TopExact | kern/arch/i386/arch_mmu.c:253-258 | below the upper top lie exactly the pages wholly below the end of some region |
| Handover.PageInExact | kern/arch/i386/arch_mmu.c:302-304 | the page loop over a region visits exactly the pages that lie wholly in it |
| Handover.ZonesPlaced | kern/arch/i386/arch_mmu.c:264-278 | which page belongs to which zone, by the memory map: the first 16 MB, the kernel's region and window above them, and the rest below the last end |
| Handover.ZonesEndTight | kern/mm/vmm/bootstrap.c:156-164 | the allocators take no more than three objects, one record a page, and six roundings to a page |
| Handover.KernelRegionUnique | kern/arch/i386/arch_mmu.c:246-252 | with disjoint usable regions the region found is the one that holds the kernel |
| Handover.ZoneTops | kern/arch/i386/arch_mmu.c:254-262 | the tops are in order and page-aligned, the normal zone ends below KTOP - KOFFSET, the highmem zone has less than 2^32 bytes |
| Handover.SizeAfterKernel | kern/arch/i386/arch_mmu.c:156-175 | the rest of the kernel's region, in 32 bits and cut to the kernel's window; panics iff that is 0 |
| Handover.NoFreeMemoryExact | kern/arch/i386/arch_mmu.c:156-175 | with disjoint usable regions it is what is left of the kernel's region modulo 2^32, or 0x7E000000 if that is less; so it is 0 iff a multiple of 2^32 bytes is left |
| Handover.BumpInUsable | kern/mm/vmm/bootstrap.c:18-32 | what lies between the end of the kernel and the limit that this size gives is usable memory |
| Handover.BumpZone | kern/mm/vmm/bootstrap.c:159-160 | succeeds iff object and records fit under the limit; then exactly these two were taken |
| Handover.NewZone | kern/mm/vmm/bootstrap.c:156-164 | a zone whose pages are all live, or a panic iff its memory does not fit |
| Handover.MakeZones | kern/mm/vmm/bootstrap.c:153-164 | the three zones tile the memory below the top; panics iff their memory does not fit |
| Handover.HandOverMemory | kern/mm/vmm/bootstrap.c:141-171 | panics iff the memory of the allocators passes the 32-bit limit; otherwise the zones tile memory, exactly the usable pages outside [kstart, real_kend) are freed, and all six bump allocations lie disjoint inside that range |
| Handover.FreeAfterBoot | kern/arch/i386/arch_mmu.c:294-314 | a page of a zone is free iff it lies in an inward-rounded usable region and outside the kernel's range |
| Handover.ExactlyOneZone | kern/arch/i386/arch_mmu.c:264-278 | every usable page outside the kernel's range is free in exactly one zone |
| Handover.FreeExactly | kern/arch/i386/arch_mmu.c:294-314 | a page is free in exactly one zone if it is usable and outside the kernel's range, and in none otherwise |
| Kernel.InstallVmalloc | kern/mm/vmm/bootstrap.c:177-186 | the normal zone fits the bridge, and the object allocator over it is valid and empty |
| Kernel.VmmBootstrap | kern/mm/vmm/bootstrap.c:141-186 | panics iff the allocators' memory does not fit; otherwise every page is in the zone the memory map says, and free in exactly that one iff usable and outside the kernel's range, which is little more than the image and the records; the six bump allocations are disjoint, inside that range and in usable memory; the object allocator is in a state after boot |
| Kernel.NormalFree | kern/mm/vmm/bootstrap.c:171-186 | the object allocator can have exactly the usable pages of the normal zone outside the kernel's range |
| Kernel.FirstRequest | kern/mm/vmm/bootstrap.c:141-186 | progress: if there is such a page, boot is followed by a request of at most 1024 bytes that succeeds |
| Kernel.AllocAdapter | kern/mm/vmm/vmm.c:175-178 | NULL iff there is neither a free slot of the least level nor a free page, or for a large size no free run of the least order; otherwise exactly one object of that size is added; all others and the states after boot are kept |
| Kernel.FreeAdapter | kern/mm/vmm/vmm.c:179-182 | removes exactly that object, keeps all others, and stays within the states after boot |
| Kernel.BridgeMalloc | kern/arch/i386/arch_mmu.c:340-346 | another user of the bridge gets pages new to everybody, or NULL iff there is no run; all objects and the states after boot are kept |
| Kernel.BridgeFree | kern/mm/vmm/pvbridge.c:32-38 | exactly that block leaves the pages of other users; all objects and the states after boot are kept |
| Kernel.PmmAllocAdapter | kern/mm/pmm/pmm.c:118-124 | the same for `alloc_pages` |
| Kernel.PmmFreeAdapter | kern/mm/pmm/pmm.c:126-133 | panics iff the size is not the one asked for; otherwise as BridgeFree |
| Kernel.PageWasFreed | kern/mm/vmm/bootstrap.c:165-186 | every page of a live block that boot did not withhold was freed at boot |
| Kernel.ByteWasFreed | kern/mm/vmm/bootstrap.c:165-186 | a byte of a slub block or a large object lies on a page that was freed at boot |
| Kernel.ObjectsInUsableMemory | kern/mm/vmm/bootstrap.c:141-186 | in every state after boot, every byte of every live object lies on a usable page of the memory map outside [kstart, real_kend) |
| Kernel.PagesInUsableMemory | kern/mm/vmm/bootstrap.c:141-186 | the same of every page given to other users after boot |
| EarlyMapping.IntersectExact | include/util.h:113-115 | two mappings, around the end of the address space or not, intersect iff one covers the start of the other |
| EarlyMapping.OverlapMisses | include/util.h:113-115 | for any two mappings: exactly which intersections OVERLAP misses, and exactly which empty mappings it takes for one |
| EarlyMapping.SameStartPasses | include/util.h:113-115 | the same mapping twice is not seen as overlapping |
| EarlyMapping.AcceptedApart | kern/mm/kmmap/early_kmmap.c:66-72 | two accepted mappings intersect exactly in the cases OVERLAP misses; with distinct starts below the top they are disjoint |
| EarlyMapping.CursorRanges | kern/mm/kmmap/early_kmmap.c:79-119 | the ranges given by one cursor follow each other in order between its start and where it stands |
| EarlyMapping.EarlyMappings.constructor | kern/mm/kmmap/early_kmmap.c:48-54 | the empty queue, with both cursors at their starts |
| EarlyMapping.EarlyMappings.Clear | kern/mm/kmmap/early_kmmap.c:48-54 | the empty queue again, whatever was before |
| EarlyMapping.EarlyMappings.Add | kern/mm/kmmap/early_kmmap.c:56-77 | appended iff there is room, it is aligned and OVERLAP finds nothing; which error otherwise; nothing changes then |
| EarlyMapping.EarlyMappings.AddMemory | kern/mm/kmmap/early_kmmap.c:79-98 | the next contiguous range upward from KERN_BASE, cut at KMMAP_BASE, or 0 and no change, and when which |
| EarlyMapping.EarlyMappings.AddKmmap | kern/mm/kmmap/early_kmmap.c:100-119 | the next contiguous range upward from KMMAP_BASE below RESERVED_BASE, or NULL and no change, and when which |
| EarlyMapping.InitJmphighMapping | kern/mm/kmmap/early_kmmap.c:147-166 | both mappings of low memory are queued; from an empty queue it panics iff the low one passes KERN_BASE |
| EarlyMapping.JumpSizeExact | kern/mm/kmmap/early_kmmap.c:154-163 | their sizes are the given ones rounded up to 2 MB, as long as that fits 32 bits |
| PageTable.FrameNumbers | include/aim/mmu.h:230-231 | the shift-and-mask macros are the quotients and remainders the processor indexes with |
| PageTable.BigPageDecodes | include/arch/i386/arch-mmu.h:277-296 | an entry made for a 2 MB page and a type is decoded, in both formats, to that page and the attributes of the type |
| PageTable.FlagsDecoded | kern/arch/armv7a/arch_mmu.c:79-92 | the attribute bits of the entries, as the manuals lay them out: writable for the kernel only and cached (i386); access flag, kernel read and write, memory attribute and shareability by type (armv7a) |
| PageTable.LastDecides | kern/mm/mmu.c:54-58 | the last queued mapping that covers an address decides what the queue says about it |
| PageTable.TableDecodes | include/arch/armv7a/arch-mmu.h:82-82 | a first-level entry leads back to the table it was made for, for the processor and for WKPGINDEX, in both formats, with no reserved or restricting bit set |
| PageTable.EntryTranslates | kern/arch/i386/arch_mmu.c:54-60 | the entry for an address is decoded to what the queue says about the address |
| PageTable.WalkRefinesQueue | kern/mm/mmu.c:47-60 | tables that hold the queue translate every 32-bit address as the last mapping that covers it, and as not present if none does |
| PageTable.BootPageTable.PageIndexClear | kern/arch/i386/arch_mmu.c:72-83 | the tables of the empty queue |
| PageTable.BootPageTable.MapBigPage | kern/arch/i386/arch_mmu.c:56-58 | exactly the entry of that address changes |
| PageTable.BootPageTable.PageIndexEarlyMap | kern/arch/armv7a/arch_mmu.c:72-99 | the tables of a queue become those of the queue with the mapping appended; panics iff the type is unknown to the format |
| PageTable.BootPageTable.PageIndexInit | kern/mm/mmu.c:47-60 | afterwards the walk of every 32-bit address gives what the queue says: the address in the last mapping that covers it, with the attributes right for its type; panics iff some queued type is unknown |
| PageTable.KernelView | kern/mm/kmmap/early_kmmap.c:147-166 | the two mappings of init_jmphigh_mapping say: low memory at its own address and at KERN_BASE, nothing else |
| PageTable.EarlyMmInit | kern/arch/i386/arch_mmu.c:179-188 | from the cleared queue it does not panic, and afterwards the walk of every 32-bit address gives exactly that view of the kernel's window, readable and writable for the kernel only |
| Crc32.ComputeCrc32 | boot/crc32.c:96-108 | the table loop computes the remainder of the bit-by-bit division, for every seed and buffer |
| Crc32.TableIsDivision | boot/crc32.c:50-94 | all 256 table entries are eight steps of the division by 0xEDB88320 |
| Crc32.ByteDivides | boot/crc32.c:104-105 | one turn of the loop is eight steps of the division |
| Crc32.StepLinear | boot/crc32.c:104-105 | a step is linear in the register and the message |
| Crc32.CrcContinues | boot/crc32.c:96-108 | the checksum of a part as the seed for the rest gives the checksum of the whole |
| Crc32.OnlyOneReachesZero | boot/crc32.c:104-105 | at most 32 message bits take only one register to zero |
| Crc32.BurstDetected | boot/crc32.c:96-108 | two buffers of equal length that differ, and only inside a window of 32 bits, have different checksums |
| Crc32Order.Primitive | boot/crc32.c:50-94 | X^n is 1 modulo the polynomial exactly for the multiples n of 2^32 - 1 |
| Crc32Order.OnesReturn | boot/crc32.c:102-105 | the register division starts from comes back exactly after multiples of 2^32 - 1 zero bits |
| Crc32Order.LeadingZeros | boot/crc32.c:96-108 | with seed 0, zero bytes in front of a buffer leave its checksum as it was exactly if their number is a multiple of 2^32 - 1 |
| Crc32Order.Residue | boot/crc32.c:96-108 | a buffer followed by its own checksum, lowest byte first, has the checksum 0x2144DF1C |
| Crc32Order.CheckValue | boot/crc32.c:96-108 | the check value 0xCBF43926 of the digits 1 to 9 |
| Snprintf.Vsnprintf | lib/libc/snprintf.c:42-198 | the first characters of the ideal output that fit, a terminator, nothing beyond; and the result by this code's rule |
| Snprintf.Directive1 | lib/libc/snprintf.c:77-189 | one directive writes what the unbounded formatter says, or fills the buffer with a prefix of it |
| Snprintf.ReadModifiers | lib/libc/snprintf.c:79-83 | length flags, zeros and widths are read as the unbounded formatter reads them, and no width overflows |
| Snprintf.Number | lib/libc/snprintf.c:84-115 | each numeric conversion prints its argument in its base, sign and width |
| Snprintf.Text | lib/libc/snprintf.c:153-162 | the string and then spaces up to the width, or a prefix of them and a full buffer |
| Snprintf.FillDigits | lib/libc/snprintf.c:116-122 | the digits, lowest first, at most 22: the array of 25 is never overrun |
| Snprintf.Writer.SetCh | lib/libc/snprintf.c:53-60 | one more character, or the terminator in place of the last one when the buffer is full |
| Snprintf.Writer.SetText | lib/libc/snprintf.c:157-158 | the text, or a prefix of it and a full buffer |
| Snprintf.Writer.SetNumber | lib/libc/snprintf.c:116-136 | sign and digits, or a prefix of them and a full buffer |
| Snprintf.NumberReadsBack | lib/libc/snprintf.c:117-136 | printed digits read back as the number in every base: always without a width, with one exactly when the digits fit |
| Snprintf.ConversionReadsBack | lib/libc/snprintf.c:84-136 | by its character, every numeric conversion reads back as its argument: 8 for `%o`, 10 for `%d` and `%u`, 16 for `%x` and `%p`, in 32 bits or in 64 with two `l`, with a sign for `%d` |
| Snprintf.StringFirst | lib/libc/snprintf.c:153-162 | a string is printed as it is, then spaces up to the width |
| Spinlock.OneInstruction | include/arch/armv7a/asm.h:51-73 | where a core is decides which single instruction it can run next |
| Spinlock.ControlFlow | include/arch/armv7a/asm.h:51-73 | each instruction leads to the next, the test back or out by `result`, the unlock outside; the lock word is written by the successful exclusive store and the unlock only |
| Spinlock.NextInv | include/arch/armv7a/asm.h:51-73 | every step of every core keeps the invariant of lock word, monitors and registers |
| Spinlock.RunInv | include/arch/armv7a/asm.h:47-73 | the invariant holds at every point of every run, for any number of cores |
| Spinlock.MutualExclusion | include/arch/armv7a/asm.h:51-73 | at most one core is inside; `locked` is 1 exactly when some core's store took the lock and it was not given back |
| Spinlock.RefinesPlainLock | include/arch/armv7a/asm.h:51-73 | every step is one of a plain lock: taken only when free, by the store that succeeds; given back only by its owner |
| Spinlock.UndisturbedCoreEnters | include/arch/armv7a/asm.h:54-63 | a core that finds the lock free and is not disturbed has it after one turn |
| Spinlock.TakenLockKeepsOut | include/arch/armv7a/asm.h:54-63 | a core that finds the lock taken goes round again |
| BootLoader.KernReader.ReadFile | boot/arch/i386/kernreader.c:43-71 | the sector loop is a plain copy of a byte range, for every size and offset; panics iff a sector it touches is missing |
| BootLoader.AllSectorsRead | boot/arch/i386/kernreader.c:49-70 | the loop stops after exactly as many sectors as the range touches |
| BootLoader.SectorsEndExact | boot/arch/i386/kernreader.c:43-71 | these end with the least multiple of 512 at or above the end of the range |
| BootLoader.LoadSegment | boot/bootmain.c:82-99 | one segment: file bytes, zeros up to the memory size, every other byte as before; the entry point moved, in 32 bits, iff the segment has it |
| BootLoader.LoadSegments | boot/bootmain.c:82-102 | every byte of memory is as the last segment that has it says |
| BootLoader.SegmentsIntact | boot/bootmain.c:87-92 | with disjoint targets every segment is in memory complete, file bytes and then zeros |
| BootLoader.NothingElseWritten | boot/bootmain.c:87-92 | bytes outside all targets are as before |
| BootLoader.NotMoved | boot/bootmain.c:94-98 | without a segment that has it the entry point stays |
| BootLoader.MovedOnce | boot/bootmain.c:94-98 | the entry point is moved once, to its physical address, exactly when no later segment has that address in its virtual range |
| BootLoader.MovedTwice | boot/bootmain.c:94-98 | two segments for which it is moved twice |

## Left out

- Buddy.BuddyPmalloc.constructor: demands whole pages of a power of two, fewer than 2^30 of them, so that the shift of an `int` at line 197 has a value, and below 2^32 bytes in all, which `Buddy.AddressExact` shows the code to need. The memory of the records comes from the bump allocator in `Handover`, by size only.
- Buddy.BuddyPmalloc.Malloc: excludes requests of more than 2^30 counted pages, for which the shift of an `int` at line 57 has no defined value.
- Buddy.BuddyPmalloc.Free: demands the address of a live block, where the code asserts what it can see of that; other addresses are errors of the caller that the code does not detect reliably.
- Buddy.BuddyPmalloc.GetSize: demands the address of a live block; for others the code returns what the record happens to say.
- Buddy.BuddyPmalloc.Hand: the fields of one record are written in one assignment, where the code writes them one by one.
- Slub.SlubVmalloc.Free: demands NULL or a live object, as above.
- Bootstrap.BootstrapVmalloc.Malloc: promises nothing about what was given once a request passes 2^32; the junk written into the memory is left out.
- Kernel.VmmBootstrap: demands disjoint usable regions, one of them with the kernel and reaching to 16 MB, a highmem zone below 2^32 bytes, and an image that ends below 0x7A000000, so that no bump allocation can wrap.
- Kernel.BridgeMalloc: excludes requests of more than 2^30 counted pages, as `Buddy.BuddyPmalloc.Malloc` does.
- Kernel.BridgeFree: demands NULL or a block that another user got after boot; pages withheld at boot are not given to anybody.
- Kernel.PmmFreeAdapter: demands a block got from `alloc_pages`, as above.
- PageTable.BootPageTable.PageIndexInit: demands physical ranges inside the format, 52 or 40 bits.
- EarlyMapping.InitJmphighMapping: how it fails on a queue that is not empty follows from `Add`.
- PageTable.EarlyMmInit: the test of the processor is left out, and the copying of the memory map is `Handover.SizeAfterKernel`.
- Snprintf.Vsnprintf: excludes size 0, a format that ends inside a directive, and a width beyond 2^31 - 1, which overflows. Missing arguments and those of the wrong kind, for which C promises nothing, are read as 0 or NULL; the most negative number prints as its magnitude. The result is given as a number; as an `int` it is the same below 2^31.
- BootLoader.KernReader.ReadFile: demands a size of at most 2^32 - 512, beyond which line 51 would wrap. The bounce buffer at 0x1000 is left out: the disk is a sequence of bytes.
- BootLoader.LoadSegments: the ELF header, its magic number and the search for the program headers are left out; segments do not overwrite the headers or the loader itself.
- Crc32.TableIsDivision: the table is a function of its index, sixteen entries a row, instead of an array.
- Spinlock.MutualExclusion: loads and stores are atomic and in program order; the barriers `dmb` and `dsb` are not modelled.
- `KERN_BASE`, `KMMAP_BASE` and `RESERVED_BASE` have the defaults of `configure.ac`.
- `list_add_tail` and the other list helpers are not used by the two allocators.
- `alloc_aligned_pages`: it frees the padding around a block piece by piece, which `free_pages` refuses over the buddy allocator (`Kernel.PmmFreeAdapter`).
- `devlist.c`, handler queues and initcalls, `strlcpy`, the console cursor: a sorted insert, calls in link order, a bounded copy, and a position on the screen.
- The freeing loop of the rpi2 machine differs from that of i386 by also skipping the page at `kend`.
- Printing, self-tests, devices, trap entry, and the loading of control registers: input, output and machine state.
