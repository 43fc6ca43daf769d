# Kraftwerk memory management and runtime, in Dafny

This project models the parts of the Kraftwerk kernel that do the most with the least: the buddy
allocator for physical frames, the four-level page tables edited through a recursive slot, the
first-fit allocator for virtual regions, the bitmap chunk allocator behind `kmalloc`, the
reference counts of `shared_ptr` and `weak_ptr`, and the number and format printing of `printf`.

## How to read it

Each component has a file about values (what its data mean, what an operation does to them, and
the theorems) and a file with the operations as methods on objects, linked records and arrays,
whose contracts tie them to the functions of the first.

| component | meaning and theorems | imperative |
|---|---|---|
| physical frames | `Bits`, `FreeLists`, `BuddyRuns`, `BootMemory` | `PhysicalMemory` |
| page tables | `PageEntries`, `PageWalk`, `PageTree` | `PageTables` |
| virtual regions | `Regions` | `VirtualMemory` |
| chunk pages | `Chunks` | `ChunkPage` |
| smart pointers | `RefCounts` | `SmartPointers` |
| numbers and formats | `Numbers`, `Conversions`, `Formatting`, `FormatText`, `PrintBuffers` | the first three files |

The model follows the code as it is written, slips included. Where the code does not do what it
is for, that is a theorem: an `...Exact` lemma says for all inputs that the operation meets its
purpose if and only if a condition on the state or the arguments holds, and where it helps a
concrete failing input is given beside it. What the hardware would do after a fault is not
modelled; the fault itself is an outcome: `Trap` (a null list head is dereferenced, an array is
left, frames run out or a page fault is not expected), `Hangs` (a loop that never advances),
`Crashes` (a null link is followed), `Dangles` (a node is given back while still linked),
`Stuck`/`UndefinedShift`, `Overruns`/`TooLong`, `ReadsOutside`, `NullWrite` and `BadFormat`.

Conventions:

- Words are unbounded numbers, and masks, shifts and exclusive-ors are written as arithmetic. `Bits`
  proves which bits `Align` and `Flip` touch; `PageEntries` packs flags bit by bit. Wrap-around is
  written out where an operation can reach it: addresses of regions and pages (64 bits), the page
  counts and offsets of `reserve_region` and `initialize` (32 bits), the 16-bit allocation counter of a
  chunk page, counting down a reference count from zero, and the conversions of an argument to the type its
  length asks for; `atoi` stops where it leaves the range of an int. Counting up past 2^32 is not.
- The top order of the buddy allocator is any number (18 in the code), so that no mask there
  needs more than 31 bits.
- `1 << k` in the chunk bitmap has two readings: with a 32-bit one, shifting by 32 or more is
  undefined and by 31 sets the upper bits of the word too; with a 64-bit one it is the single bit. All
  theorems about chunks hold for both (`Reading`).
- Physical memory is a function from frame and index to an entry. A frame handed out for a table
  is required to be zero, aligned and not yet a table: the code does not clear it. The root table is
  required to hold the recursive entry. Tables never contain large pages, which the code never makes.
- In the page tables only presence and frames matter: permission bits are stored and not interpreted,
  and there is no translation cache, so `refresh_table` does nothing.
- `kmalloc` and `kfree` of list records make and retire objects; a record may be retired only when
  it is no longer linked.
- Moves leave the moved-from handle empty, as intended; the source declares those parameters `const`.
- In `Formatting`, what memory holds behind a text that was copied without its terminator is a parameter
  (the residue, up to the next zero byte) that may differ from pass to pass. In conversions the blocks
  returned by kmalloc are taken to be as large as what is written to them; `PrintBuffers` says for which
  numbers that is so. A directive that meets the end of the format, an argument that is missing or of the
  wrong kind, and a number that itoa cannot write are the fault `BadFormat`.

Where code and comments disagree the code was followed: the comment on `bisect_node` gives the new node
the size `new_size`, the code gives it the rest; the comment in `virtual_mem.cpp` announces two bisections
for a reservation, of which the first cannot happen; the region called 128 TiB is 0x800000000 pages
and its end wraps to address zero.

## Model

| member | source | states |
|---|---|---|
| `Bits.AlignClearsLowBits` | os/core/physical_mem.cpp:29-31 | align_block clears exactly the bits below the block size and keeps all others |
| `Bits.FlipTogglesOneBit` | os/core/physical_mem.cpp:75-117 | the exclusive-or with the block size changes that one bit and no other |
| `Bits.Buddies` | os/core/physical_mem.cpp:75-117 | a block and its buddy are the two halves of one aligned block of the next order, and each is the other's buddy |
| `Bits.Halves` | os/core/physical_mem.cpp:40-73 | the halves fill_free_list makes of a block are the block's own start and its flipped start, both aligned to the smaller order |
| `FreeLists.TakeExact` | os/core/physical_mem.cpp:40-73 | from canonical lists a request gets an aligned block, part of the head of the smallest non-empty list that is large enough, and the free addresses lose exactly that block; the lists stay canonical |
| `FreeLists.FillExact` | os/core/physical_mem.cpp:40-73 | fill_free_list conserves the free addresses exactly and keeps all blocks aligned and apart; where it splits it leaves a block beside its buddy, and popping the head, as allocate does next, ends that |
| `FreeLists.AddFreeExact` | os/core/physical_mem.cpp:75-117 | freeing an aligned block that overlaps nothing adds exactly its addresses and keeps the form canonical if and only if the merging does not reach the top order from an upper half |
| `FreeLists.UncleanMerge` | os/core/physical_mem.cpp:75-80 | in the failing case the top list gets the address of the upper half for the whole block |
| `FreeLists.TakeThenAddFree` | os/core/physical_mem.cpp:145-177 | freeing what was just taken gives back the very same lists, order included, if and only if the block was not split off the top order |
| `FreeLists.CoveringBlock` | os/core/physical_mem.cpp:179-215 | in canonical lists a wholly free aligned block lies inside one listed block |
| `FreeLists.CanonicalUnique` | os/core/physical_mem.cpp:75-117 | the free addresses determine which blocks canonical lists hold |
| `FreeLists.CanonicalForm` | os/core/physical_mem.cpp:75-117 | two canonical states with the same free addresses have the same lists up to order |
| `FreeLists.FreeIffInside` | os/core/physical_mem.cpp:179-215 | a block is wholly free exactly when it is listed or lies inside a larger listed block |
| `FreeLists.IsAllocatedExact` | os/core/physical_mem.cpp:179-215 | is_allocated is false exactly for wholly free blocks that are not a proper part of a top-order block (the loop stops short of that order) |
| `FreeLists.ReserveExact` | os/core/physical_mem.cpp:217-316 | reserve succeeds exactly on free blocks and takes out exactly the block if and only if the block is not strictly inside a listed one; in every other case it wrongly refuses or faults |
| `FreeLists.LookupFailures` | os/core/physical_mem.cpp:179-316 | the failing inputs of both: any smaller block inside the only free block looks allocated and is refused (top order), or makes reserve fault (any other order) |
| `FreeLists.DecomposeExact` | os/core/physical_mem.cpp:119-143 | decompose_block adds exactly the addresses of the block it cuts; without the block of the target order at its start the lists are canonical |
| `FreeLists.DecomposeLeavesBuddies` | os/core/physical_mem.cpp:119-143 | with that block they are not: it is listed beside its buddy |
| `BuddyRuns.RequestOrderFits` | os/core/physical_mem.cpp:15-27 | the order for 1 to 2^top frames is the smallest that holds them: n <= 2^order < 2n |
| `BuddyRuns.RequestOrderBeyond` | os/core/physical_mem.cpp:15-27 | above 2^top frames it is the order above the top up to 2^(top+1), and 0 from there on, as for no frames |
| `BuddyRuns.AllocateExact` | os/core/physical_mem.cpp:145-167 | an allocation of 1 to 2^top frames is served exactly when some aligned block of its order is wholly free, and gets such a block |
| `BuddyRuns.StepExact` | os/core/physical_mem.cpp:145-177 | a call keeps free blocks canonical, handed-out blocks aligned and everything apart if and only if it is not an unclean free; then free plus handed-out addresses stay the same |
| `BuddyRuns.RunExact` | os/core/physical_mem.cpp:145-177 | the same for every run of calls |
| `BuddyRuns.HistoryIndependence` | os/core/physical_mem.cpp:145-177 | two clean runs that end with the same free addresses end with the same lists, up to order |
| `BuddyRuns.SmallMemoryRuns` | os/core/physical_mem.cpp:145-177 | every run is clean when no whole aligned block of the top order is managed |
| `BuddyRuns.FreeUndoesAllocate` | os/core/physical_mem.cpp:145-177 | free undoes allocate exactly, unless the block was split off the top order; then the invariant is lost |
| `BuddyRuns.AllocatedAndFreedIsARun` | os/core/physical_mem.cpp:145-177 | the two calls of the previous row are a run of the state machine |
| `BuddyRuns.SmallestLostBlock` | os/core/physical_mem.cpp:75-80 | one free top-order block, one frame allocated and freed: the invariant is gone |
| `BootMemory.OneBlock` | os/core/physical_mem.cpp:327-359 | a range of at least one frame and fewer than twice the top block's yields one block at its beginning, of more than half its frames |
| `BootMemory.PushRangeExact` | os/core/physical_mem.cpp:327-359 | in bytes, for any range: nothing for less than 4096, one block of `Size(k) <= bytes < 2 * Size(k)` at its beginning below twice the top block, otherwise one frame at every 4096 bytes (the offset wrapping at 2^32); every other listed block stays |
| `BootMemory.InitialListed` | os/core/physical_mem.cpp:320-363 | which blocks initialize lists for any map, by the byte sizes and beginnings of its ranges |
| `BootMemory.InitialCanonical` | os/core/physical_mem.cpp:320-363 | for any map, initialize establishes the canonical form if and only if the order loop recognises every range and, empty ranges aside, each starts aligned to its own order and no two blocks overlap or are buddies |
| `BootMemory.HugeMap` | os/core/physical_mem.cpp:331-341 | a map with a range too large for the order loop never yields canonical lists, whatever comes before or after it |
| `PhysicalMemory.Allocator.GetAllocOrder` | os/core/physical_mem.cpp:15-27 | the loop computes the order of a request |
| `PhysicalMemory.Allocator.GetBlockFromStack` | os/core/physical_mem.cpp:33-38 | unlinks the head of a list; null stands for the null head dereferenced |
| `PhysicalMemory.Allocator.FillFreeList` | os/core/physical_mem.cpp:40-73 | the recursive splitting on linked records does what `Fill` does to the lists, and stops exactly when no larger block is left |
| `PhysicalMemory.Allocator.AddFreeList` | os/core/physical_mem.cpp:75-117 | the recursive merging on linked records does what `AddFree` does; the record of the buddy goes back to kfree unlinked |
| `PhysicalMemory.Allocator.DecomposeBlock` | os/core/physical_mem.cpp:119-143 | the recursive cutting on linked records does what `Decompose` does |
| `PhysicalMemory.Allocator.Allocate` | os/core/physical_mem.cpp:145-167 | result and new lists of allocate: refusal above the top order, `Take`, or a null dereference when nothing is left |
| `PhysicalMemory.Allocator.Free` | os/core/physical_mem.cpp:169-177 | the new lists are `AddFree` of the old; a page count whose order is above the top leaves the array of lists |
| `PhysicalMemory.Allocator.IsAllocated` | os/core/physical_mem.cpp:179-215 | the search through the orders answers what `FreeLists.IsAllocated` says, or leaves the array of lists |
| `PhysicalMemory.Allocator.Reserve` | os/core/physical_mem.cpp:217-316 | result and new lists of reserve, or the array of lists is left |
| `PhysicalMemory.Allocator.FindParent` | os/core/physical_mem.cpp:256-287 | the search for a larger block succeeds exactly when one below the top order holds the address |
| `PhysicalMemory.Allocator.CarveUpwards` | os/core/physical_mem.cpp:290-311 | the carving loop never completes |
| `PhysicalMemory.Allocator.Initialize` | os/core/physical_mem.cpp:320-363 | the lists built from a memory map are `Initial` of it |
| `PhysicalMemory.Allocator.AddRange` | os/core/physical_mem.cpp:327-359 | the blocks of one range of the map |
| `PhysicalMemory.Allocator.CutRange` | os/core/physical_mem.cpp:329-345 | order and number of the blocks of a range |
| `PhysicalMemory.Allocator.BlockStart` | os/core/physical_mem.cpp:345-359 | the start of each, its offset shifted in 32 bits |
| `PageEntries.EncodeDecode` | os/include/arch/x86-64/page_manip.h:16-41 | decoding and encoding a word keeps it if and only if bits 9 to 11 are clear |
| `PageEntries.DecodeEncode` | os/include/arch/x86-64/page_manip.h:16-41 | encoding and decoding an entry loses only the low twelve bits of the address |
| `PageEntries.FlagsBelow` | os/arch/x86-64/page_manip.cpp:94-107 | the encoded flags take nine bits |
| `PageEntries.DecodedFlags` | os/include/arch/x86-64/page_manip.h:16-27 | each flag of a decoded word is its own bit, 0 to 8, of the word |
| `PageEntries.EncodedFlags` | os/arch/x86-64/page_manip.cpp:94-107 | flags_to_x86_64 sets bit 0 for present, 1 writable, 2 user, 3 write-through, 4 cache disabled, 5 accessed, 6 dirty, 7 size, 8 global, each exactly when the flag is set, whatever address is or-ed in |
| `PageEntries.EncodedEntry` | os/include/arch/x86-64/page_manip.h:29-41 | the same for a whole entry |
| `PageWalk.Compose` | os/include/arch/x86-64/page_manip.h:43-57 | an address put together from four indices and an offset has those indices and that offset |
| `PageWalk.RootWindow` | os/include/arch/x86-64/page_manip.h:59-74 | through the recursive slot the PML4 addresses translate to the root table's own entries |
| `PageWalk.PdptWindow` | os/include/arch/x86-64/page_manip.h:59-81 | the four-level walk of MEM_PDPT_ADDR(va)[i] ends at entry i of the PDPT the walk of va goes through, and faults exactly if there is none |
| `PageWalk.PdirWindow` | os/include/arch/x86-64/page_manip.h:59-82 | the same for MEM_PDIR_ADDR and the page directory |
| `PageWalk.PtblWindow` | os/include/arch/x86-64/page_manip.h:59-83 | the same for MEM_PTBL_ADDR and the page table |
| `PageWalk.ShiftedWindows` | os/include/arch/x86-64/page_manip.h:68-83 | the window of a page table is itself an address whose PDPT, directory and page table are, one level up, the PML4, PDPT and directory of the address it serves |
| `PageTree.FollowInTree` | os/include/arch/x86-64/page_manip.h:59-83 | a walk inside the tree of tables reaches the frame that holds the table its path names |
| `PageTree.TranslateIsLeaf` | os/include/arch/x86-64/page_manip.h:59-83 | outside slot 510 the hardware walk of an address is exactly its page-table entry |
| `PageTree.DistinctEntries` | os/include/arch/x86-64/page_manip.h:59-83 | different pages outside slot 510 have their entries in different words of memory |
| `PageTree.LeafAfterWrite` | os/arch/x86-64/page_manip.cpp:120-121 | writing a page's entry changes no other ordinary page's, and keeps the tree |
| `PageTree.LinkKeepsTree` | os/arch/x86-64/page_manip.cpp:8-40 | linking a fresh zeroed frame as a table keeps the tables a tree without sharing |
| `PageTree.LinkKeepsLeaves` | os/arch/x86-64/page_manip.cpp:8-40 | and changes no page's entry |
| `PageTree.LinkKeepsTables` | os/arch/x86-64/page_manip.cpp:8-29 | linking an upper table gives no address a page table |
| `PageTree.DifferentPages` | os/arch/x86-64/page_manip.cpp:116-125 | the pages of a range of fewer than 2^32 pages are different |
| `PageTree.FrameAtRounded` | os/arch/x86-64/page_manip.cpp:120-124 | rounding down page by page is rounding the start down |
| `PageTree.RangeTranslated` | os/arch/x86-64/page_manip.cpp:109-126 | after map_range, page k of the range leads to (pa rounded down) + k*4096 if the flags say present, and to nothing if not |
| `PageTree.OutsideRange` | os/arch/x86-64/page_manip.cpp:109-126 | and every other ordinary address leads where it led before |
| `PageTree.RangeFlags` | os/arch/x86-64/page_manip.cpp:116-122 | every page of the range carries each flag in its own bit |
| `PageTree.LeafEntryFlags` | os/arch/x86-64/page_manip.cpp:120-121 | so does the one entry that is written |
| `PageTree.LinkBits` | os/arch/x86-64/page_manip.cpp:8-29 | the entry for a new table has the bits present and global and no other below bit 12, and the frame of the table |
| `PageTree.UnmapExact` | os/arch/x86-64/page_manip.cpp:128-138 | unmap_range unmaps its whole range if and only if nothing is mapped from the first page without a page table on |
| `PageTree.UnmapStuck` | os/arch/x86-64/page_manip.cpp:128-138 | a two-page range of which it leaves the second page mapped |
| `PageTree.EmptyTree` | os/include/arch/x86-64/page_manip.h:64-72 | there is a tree to start from: a root table holding only its recursive entry |
| `PageTables.Machine.CheckPagetable` | os/arch/x86-64/page_manip.cpp:42-54 | answers whether the address has a page table, and none of its reads through the recursive slot can fault |
| `PageTables.Machine.CreatePagetable` | os/arch/x86-64/page_manip.cpp:7-40 | afterwards there is a page table, in a tree, with no page's entry changed; it needs at most three frames |
| `PageTables.Machine.GetMmuEntry` | os/arch/x86-64/page_manip.cpp:56-61 | the decoded page-table entry, each flag from its own bit, or zero without a page table |
| `PageTables.Machine.GetPhysicalAddress` | os/arch/x86-64/page_manip.cpp:63-68 | its page |
| `PageTables.Machine.GetFlags` | os/arch/x86-64/page_manip.cpp:70-75 | its low twelve bits |
| `PageTables.Machine.SetMmuEntry` | os/arch/x86-64/page_manip.cpp:77-80 | replaces exactly this page's entry, each flag in its own bit, going through the page-fault handler where there is no page table |
| `PageTables.Machine.SetPhysicalAddress` | os/arch/x86-64/page_manip.cpp:82-86 | changes the page and keeps the flags, likewise |
| `PageTables.Machine.SetFlags` | os/arch/x86-64/page_manip.cpp:88-92 | changes the flags and keeps the page, likewise |
| `PageTables.Machine.MapRange` | os/arch/x86-64/page_manip.cpp:109-126 | each page of the range gets its frame and each flag in its own bit, every other page keeps its entry, the tables stay a tree; only running out of frames cuts it short, and 3 per page are enough |
| `PageTables.Machine.UnmapRange` | os/arch/x86-64/page_manip.cpp:128-138 | clears the pages up to the first one without a page table, and no others |
| `PageTables.Machine.HandlePagefault` | os/arch/x86-64/page_manip.cpp:145-187 | maps the faulting page, and only it, to a new frame; halts on nested faults and on the null page |
| `PageTables.Machine.HandleTableFault` | os/arch/x86-64/page_manip.cpp:145-187 | a fault on the entry of an address without a page table makes the handler create that page table and the tables above it, zeroed, from at most three frames, without faulting itself and without changing any page |
| `PageTables.Machine.Reach` | os/arch/x86-64/page_manip.cpp:77-92 | so an access that ignored a failed check ends at an entry all the same |
| `PageTables.Windows` | os/include/arch/x86-64/page_manip.h:59-83 | in a tree all four kinds of access translate to the tables they are meant for |
| `Regions.AllocateExact` | os/core/virtual_mem.cpp:56-84 | allocate_region returns the start of the lowest free node that is large enough, or NULL when there is none, if and only if no allocated node stands before it; otherwise it hangs |
| `Regions.HangsForever` | os/core/virtual_mem.cpp:64-67 | hanging means a loop that no number of rounds completes |
| `Regions.AllocateFromHead` | os/core/virtual_mem.cpp:56-84 | in a coalesced tiling only the first node can be allocated from |
| `Regions.AllocatesOnce` | os/core/virtual_mem.cpp:56-84 | after one allocation every further one hangs |
| `Regions.AllocateKeeps` | os/core/virtual_mem.cpp:56-84 | the nodes stay a coalesced tiling; exactly the pages handed out stop being free, and they were free |
| `Regions.ReserveKeeps` | os/core/virtual_mem.cpp:109-149 | reserving keeps the coalesced tiling whatever it marks |
| `Regions.MatchesExact` | os/core/virtual_mem.cpp:121-124 | the test of reserve_region and is_allocated_region in numbers: a node that ends below 2^64 is accepted when it starts at or below the address and ends at or above the requested end, both shortened (the page count to 20 bits, the end to 64); one that ends at 2^64 only when the requested end wraps to zero |
| `Regions.MatchesPlain` | os/core/virtual_mem.cpp:121-124 | for fewer than 2^20 pages, where nothing reaches 2^64, it asks exactly whether the node holds the pages |
| `Regions.ReserveAnswer` | os/core/virtual_mem.cpp:117-149 | answer and list, node by node, for a list whose first node is free |
| `Regions.ReserveExact` | os/core/virtual_mem.cpp:109-149 | reserve_region succeeds exactly when the pages lie in one free node, and takes exactly those, if and only if the first node is free and is the request, or has it as its second half (or the only node is free and neither holds nor seems to hold it) |
| `Regions.FreeFrom` | os/core/virtual_mem.cpp:151-180 | the answer and the list of free_region for every list, node by node: marked, hung on, followed off the end, or merged with the size of the node after next and left dangling |
| `Regions.FreeExact` | os/core/virtual_mem.cpp:151-180 | freeing an allocated node returns, gives back exactly its pages and keeps the coalesced tiling if and only if no free node stands before it and its successor exists and is allocated |
| `Regions.FreeUndoesAllocate` | os/core/virtual_mem.cpp:58-180 | freeing what was just allocated restores the very same nodes if and only if the allocation took the whole first node and was not the only one |
| `Regions.IsAllocatedExact` | os/core/virtual_mem.cpp:86-107 | is_allocated_region answers correctly if and only if the first node is free and holds the pages; it never answers "allocated" for a list with a node |
| `Regions.InitialReserveFails` | os/core/virtual_mem.cpp:8-30 | the reservation made at start-up fails, because the region's end wraps to zero, and the first allocation gets those addresses |
| `Regions.RunKeeps` | os/core/virtual_mem.cpp:36-180 | over every run of calls that return, the nodes stay a coalesced tiling |
| `Regions.RunExact` | os/core/virtual_mem.cpp:36-180 | all calls of a run do what they are for if and only if each finds the list in one of the shapes that suit it |
| `VirtualMemory.BisectNode` | os/core/virtual_mem.cpp:36-54 | splits a linked node in place: its first pages stay, the rest becomes a new free node behind it |
| `VirtualMemory.AllocateRegion` | os/core/virtual_mem.cpp:58-84 | result and new list of allocate_region; the head node stays the same |
| `VirtualMemory.ReserveRegion` | os/core/virtual_mem.cpp:109-149 | result and new list of reserve_region; the first bisection is unreachable |
| `VirtualMemory.AbsorbNext` | os/core/virtual_mem.cpp:162-166 | a free successor is unlinked before its size is read: the size and node of its successor are used instead |
| `VirtualMemory.FreeRegion` | os/core/virtual_mem.cpp:151-180 | result and new list of free_region; a node given to kfree is still linked |
| `VirtualMemory.IsAllocatedRegion` | os/core/virtual_mem.cpp:86-107 | one round decides, since the loop does not advance |
| `VirtualMemory.Initialize` | os/core/virtual_mem.cpp:8-30 | the list after start-up is one free node: nothing was reserved |
| `Chunks.Geometry` | os/core/malloc.cpp:38-44 | chunks of different slots do not overlap and lie in the page, and exactly the reserved slots touch the header |
| `Chunks.PrepareExact` | os/core/malloc.cpp:55-70 | the prepared page satisfies the invariant if and only if the bitmap bits it leaves alone were clear |
| `Chunks.MarkFinds` | os/core/malloc.cpp:96-108 | the search marks and returns the lowest open slot, returns 0 when there is none, or runs into an undefined shift |
| `Chunks.OpenSlot` | os/core/malloc.cpp:96-108 | an open slot exists exactly when the live chunks do not fill the page |
| `Chunks.FullExact` | os/core/malloc.cpp:426-427 | a page is refused exactly when one more live chunk would make 256, 128, 64, 32, 16, 8 or 4, by order |
| `Chunks.FullMeansFull` | os/core/malloc.cpp:426-427 | from order 2 on (order 3 with 32-bit shifts) it is refused exactly when every slot behind the header is live |
| `Chunks.Capacities` | os/core/malloc.cpp:96-108 | the chunks that the search can hand out, by order and reading |
| `Chunks.MaskIs` | os/core/malloc.cpp:96-108 | the bits set and tested for a slot are those of the shifted constant |
| `Chunks.AllocateExact` | os/core/malloc.cpp:426-452 | any page that keeps the invariant is refused exactly by that count; otherwise it yields a new chunk clear of the header, invariant kept, if and only if its live chunks do not fill the slots the search can reach |
| `Chunks.TestSuffices` | os/core/malloc.cpp:426-427 | the fullness test is strict enough exactly from order 2 on (order 3 with 32-bit shifts) |
| `Chunks.FreedSlotExact` | os/core/malloc.cpp:459-461 | kfree recovers the slot if and only if the chunk lies in the first 1024 bytes |
| `Chunks.FreedSlotIs` | os/core/malloc.cpp:459-461 | for any chunk it clears the slot at the same place in the first quarter of the page |
| `Chunks.FreeExact` | os/core/malloc.cpp:454-476 | kfree keeps bitmap, counter and live chunks in agreement if and only if the chunk lies in the first 1024 bytes, and then clears exactly its bit |
| `Chunks.FreeUndoesAllocate` | os/core/malloc.cpp:444-476 | freeing a chunk just handed out restores the page, bitmap included, under the same condition |
| `Chunks.RunExact` | os/core/malloc.cpp:426-476 | a run keeps the invariant throughout if and only if every call meets the conditions above |
| `Chunks.SmallChunksFree` | os/core/malloc.cpp:454-476 | with 32-bit shifts every free of a 16- or 32-byte chunk meets them |
| `Chunks.RequestFits` | os/core/malloc.cpp:387-396 | the chunk is as large as the request if and only if that is at most 16 bytes or a power of two |
| `Chunks.RequestOrderIs` | os/core/malloc.cpp:387-396 | the order for up to 1024 bytes: 0 below 32 bytes, otherwise the largest whose chunks are no larger than the request |
| `ChunkPages.ChunkPage.PrepareHeader` | os/core/malloc.cpp:55-70 | the header fields and the bitmap after preparing a page |
| `ChunkPages.ChunkPage.MarkOpenSlot` | os/core/malloc.cpp:96-108 | the loop over the bitmap words does what `MarkFrom` says |
| `ChunkPages.ChunkPage.HasRoom` | os/core/malloc.cpp:426-427 | the fullness test is a count of live chunks: one more would make as many as there are slots |
| `ChunkPages.ChoosePage` | os/core/malloc.cpp:408-433 | the walk along the pages of an order finds the first with fewer than all but one of its chunks live, or none exactly if there is no such page |
| `ChunkPages.ChunkPage.AllocateChunk` | os/core/malloc.cpp:426-452 | address and new page state of an allocation |
| `ChunkPages.ChunkPage.FreeChunk` | os/core/malloc.cpp:454-476 | new page state of a free, from the address alone |
| `ChunkPages.OrderOf` | os/core/malloc.cpp:387-396 | the shift loop computes the order of a request |
| `RefCounts.RefersAfter` | auxlib/standalone_std/memory/shared_ptr.h:34-142 | what each shared handle refers to after each operation, by the handles before it |
| `RefCounts.WatchesAfter` | auxlib/standalone_std/memory/weak_ptr.h:18-132 | the same for weak handles |
| `RefCounts.CopyCounts` | auxlib/standalone_std/memory/shared_ptr.h:49-53 | a copy raises the strong count of the counter it takes by one, and no other |
| `RefCounts.WeakCountAfter` | auxlib/standalone_std/memory/weak_ptr.h:18-113 | the weak count goes up by one where a reference is copied or taken from a shared handle, down by one where a weak handle is destroyed, and never otherwise |
| `RefCounts.DeletedAfter` | auxlib/standalone_std/memory/shared_ptr.h:13-23 | a counter is deleted by the operation that takes its last shared handle, exactly when its weak count is zero then |
| `RefCounts.RetargetKeeps` | auxlib/standalone_std/memory/shared_ptr.h:99-108 | letting go first and counting afterwards is safe, even when both are the same counter |
| `RefCounts.MoveKeeps` | auxlib/standalone_std/memory/shared_ptr.h:67-87 | moving keeps every count |
| `RefCounts.LockKeeps` | auxlib/standalone_std/memory/weak_ptr.h:149-155 | lock gives a counted handle exactly while the object lives, never revives it, and never touches a deleted counter |
| `RefCounts.WatchKeeps` | auxlib/standalone_std/memory/weak_ptr.h:18-91 | a new weak reference keeps the counts |
| `RefCounts.SwapExact` | auxlib/standalone_std/memory/shared_ptr.h:127-136 | swap keeps the counts if and only if the other handle is the same one or refers to nothing |
| `RefCounts.AssignMovedExact` | auxlib/standalone_std/memory/weak_ptr.h:104-113 | weak assignment from a moved shared handle keeps the counts if and only if that refers to nothing |
| `RefCounts.StepExact` | auxlib/standalone_std/memory/shared_ptr.h:11-142 | every other operation always keeps: strong_count is the number of shared handles, weak_count at least that of weak ones, destroyed once exactly when no shared handle is left, deleted only without handles |
| `RefCounts.RunExact` | auxlib/standalone_std/memory/shared_ptr.h:11-142 | the same for every run |
| `RefCounts.StepForgetsNothing` | auxlib/standalone_std/memory/shared_ptr.h:13-23 | no operation takes back a destruction, or deletes a counter later than its last shared handle lets go |
| `RefCounts.DestroyedForGood` | auxlib/standalone_std/memory/shared_ptr.h:13-65 | over every sound run a destroyed object stays destroyed, exactly once, with no shared handle on it; a counter that outlived it is never deleted |
| `RefCounts.StepTouchesLive` | auxlib/standalone_std/memory/shared_ptr.h:11-142 | no operation reads or counts a deleted counter, not even between letting go and counting again in an assignment |
| `RefCounts.DeletedLeftAlone` | auxlib/standalone_std/memory/shared_ptr.h:11-142 | the same over every sound run |
| `SmartPointers.SharedPtr.FromPointer` | auxlib/standalone_std/memory/shared_ptr.h:34-36 | a new counter with one handle |
| `SmartPointers.SharedPtr.Copy` | auxlib/standalone_std/memory/shared_ptr.h:49-53 | copy construction on the heap is the protocol's step |
| `SmartPointers.SharedFromWeak` | auxlib/standalone_std/memory/shared_ptr.h:55-65 | construction from a weak handle is the protocol's step; an empty handle has its null counter dereferenced |
| `SmartPointers.SharedPtr.Move` | auxlib/standalone_std/memory/shared_ptr.h:67-87 | move construction is the protocol's step |
| `SmartPointers.SharedPtr.Increment` | auxlib/standalone_std/memory/shared_ptr.h:12 | counts up the handle's counter and changes nothing else |
| `SmartPointers.SharedPtr.Decrement` | auxlib/standalone_std/memory/shared_ptr.h:13-23 | counts down, destroys at zero, deletes the counter if no weak count is left |
| `SmartPointers.SharedPtr.CopyAssign` | auxlib/standalone_std/memory/shared_ptr.h:99-108 | copy assignment is the protocol's step |
| `SmartPointers.SharedPtr.MoveAssign` | auxlib/standalone_std/memory/shared_ptr.h:110-122 | move assignment is the protocol's step |
| `SmartPointers.SharedPtr.Reset` | auxlib/standalone_std/memory/shared_ptr.h:138-142 | reset is the protocol's step |
| `SmartPointers.SharedPtr.Destroy` | auxlib/standalone_std/memory/shared_ptr.h:124-125 | the destructor is the protocol's step |
| `SmartPointers.SharedPtr.Swap` | auxlib/standalone_std/memory/shared_ptr.h:127-136 | swap, made of a move out, an assignment back and a destructor, is the protocol's step |
| `SmartPointers.WeakPtr.Copy` | auxlib/standalone_std/memory/weak_ptr.h:18-32 | copy construction |
| `SmartPointers.WeakPtr.FromShared` | auxlib/standalone_std/memory/weak_ptr.h:34-40 | construction from a shared handle |
| `SmartPointers.WeakPtr.Move` | auxlib/standalone_std/memory/weak_ptr.h:42-58 | move construction |
| `SmartPointers.WeakPtr.Destroy` | auxlib/standalone_std/memory/weak_ptr.h:60-63 | the destructor counts down and deletes nothing |
| `SmartPointers.WeakPtr.CopyAssign` | auxlib/standalone_std/memory/weak_ptr.h:65-82 | copy assignment; the old counter is not counted down |
| `SmartPointers.WeakPtr.AssignFromShared` | auxlib/standalone_std/memory/weak_ptr.h:84-91 | assignment from a shared handle |
| `SmartPointers.WeakPtr.MoveAssign` | auxlib/standalone_std/memory/weak_ptr.h:93-102 | move assignment |
| `SmartPointers.WeakPtr.MoveAssignShared` | auxlib/standalone_std/memory/weak_ptr.h:104-113 | move assignment from a shared handle |
| `SmartPointers.WeakPtr.Swap` | auxlib/standalone_std/memory/weak_ptr.h:123-132 | swap |
| `SmartPointers.WeakPtr.Expired` | auxlib/standalone_std/memory/weak_ptr.h:142-147 | true exactly when the handle refers to a counter with no shared handle left |
| `SmartPointers.WeakPtr.Lock` | auxlib/standalone_std/memory/weak_ptr.h:149-155 | lock is the protocol's step, without a null dereference |
| `Numbers.DigitsValue` | os/include/interface/print.h:45-47 | the digits evaluate back to the number in bases 8, 10 and 16 |
| `Numbers.DigitsCount` | os/include/interface/print.h:12-21 | both division loops run equally often for a positive number; for zero one runs once, the other never |
| `Numbers.DigitsProper` | os/include/interface/print.h:45-47 | the digits belong to the base and the first is not a superfluous zero |
| `Numbers.DigitTable` | os/core/printf.cpp:5-5 | the sixteen digit characters |
| `Numbers.TextParts` | os/include/interface/print.h:49-66 | what stands in front of the digits: minus, space or plus, then the prefix 0 or 0x of bases 8 and 16 |
| `Numbers.NegativeText` | os/include/interface/print.h:42-47 | a negative number in base 8 or 16 is written only if the base divides it, and then as zero |
| `Numbers.RequestedNoDigits` | os/include/interface/print.h:26-40 | what is requested for a number that is not positive has no room for digits |
| `Numbers.BufferExact` | os/include/interface/print.h:26-40 | the requested buffer is exactly filled, terminator included, if and only if the number is positive; else it is too small |
| `Numbers.TextValue` | os/include/interface/print.h:23-72 | in bases 8, 10 and 16 and with any flags the text of a non-negative number evaluates to it |
| `Numbers.GetNDigits` | os/include/interface/print.h:12-21 | the sizing loop |
| `Numbers.Strlen` | os/core/printf.cpp:50-56 | finds the terminator |
| `Numbers.Reverse` | os/core/printf.cpp:142-148 | reverses the string in place and leaves the rest of the array alone |
| `Numbers.Itoa` | os/include/interface/print.h:23-72 | writes sign, prefix and digits in reading order exactly when they fit the block, and says when a digit is looked up outside the table |
| `Numbers.Atoi` | os/core/printf.cpp:150-168 | the loop evaluates the text from left to right, unless a step leaves the range of an int |
| `Numbers.DecimalTable` | os/core/printf.cpp:8-33 | digit_to_int: the ten digits, and zero for every other character |
| `Numbers.RoundTrip` | os/core/printf.cpp:150-168 | atoi of itoa in base ten is the number, whatever the flags, if and only if its magnitude fits an int and it is not the least of a signed type |
| `Numbers.LongOverflows` | os/core/printf.cpp:150-168 | 2^31 as a long is written, and overflows atoi |
| `Numbers.LeastNotWritten` | os/include/interface/print.h:42-47 | the least number of each signed width is not written |
| `Numbers.DecValueGrows` | os/core/printf.cpp:159-162 | no intermediate value of atoi exceeds the final one, so only the final one decides whether it overflows |
| `Numbers.CopyOut` | os/core/printf.cpp:35-48 | copies exactly the text, up to a limit, and nothing else |
| `Numbers.Justify` | os/core/printf.cpp:95-121 | pads to the width on the chosen side with the chosen character |
| `Numbers.IntPrecision` | os/core/printf.cpp:123-138 | fills up with leading zeros; the new text is not terminated and runs on into what memory holds |
| `Numbers.JustifiedShape` | os/core/printf.cpp:95-121 | a justified text fills the width, with the text at one end and zeros or spaces at the other |
| `Numbers.LengthenedShape` | os/core/printf.cpp:123-138 | a lengthened one has zeros in front |
| `Numbers.JustifyExact` | os/core/printf.cpp:95-121 | a justified text reads back as its number if and only if an int holds that and nothing was padded, or it is non-negative (right) or zero (left) |
| `Numbers.PrecisionExact` | os/core/printf.cpp:123-138 | a text with a precision reads back as its number if and only if an int holds that, and it is non-negative or no zero was added |
| `Numbers.PrintedExact` | os/core/printf.cpp:95-138 | the two together: precision, then width |
| `PrintBuffers.ItoaBlock` | os/include/interface/print.h:40-40 | every 64-bit number is written to a chunk of 16 bytes, since kmalloc rounds the request down |
| `PrintBuffers.WordsFit` | os/include/interface/print.h:40-66 | every 32-bit number fits that chunk, in every base and style |
| `PrintBuffers.LongsOverrun` | os/include/interface/print.h:40-66 | no number from 2^60 on does |
| `FormatText.DirectiveReadBack` | os/core/printf.cpp:362-545 | whatever stands around it, the text of a directive (flags in any order, width, point and precision, length, specifier) is read as the flags, numbers, length and specifier it says |
| `FormatText.SpecReadBack` | os/core/printf.cpp:362-545 | round trip: any directive, written out, is read back as itself, provided its width is not zero and its specifier does not itself mean something before a specifier |
| `FormatText.StarWidth` | os/core/printf.cpp:414-417 | a star takes its width from the next argument |
| `FormatText.StarPrecision` | os/core/printf.cpp:445-447 | a star for the precision takes an argument and is then read as the specifier, an unknown one |
| `FormatText.FormatMeaning` | os/core/printf.cpp:320-932 | a format written from any sequence of ordinary characters, `%%` and directives prints what these do, in their order, each with the next argument |
| `FormatText.FormatPrints` | os/core/printf.cpp:956-970 | so does kvprintf, exactly if none of them is faulty or `%%` |
| `FormatText.OrdinaryPrefix` | os/core/printf.cpp:911-918 | text without a percent sign is printed as it stands and counted, whatever follows |
| `FormatText.OrdinaryPrints` | os/core/printf.cpp:911-970 | kvprintf of a format without a percent sign prints that format and returns its length |
| `FormatText.PercentPrints` | os/core/printf.cpp:362-365 | `%%` writes one percent sign and counts nothing, and without a buffer writes to null |
| `Formatting.BoundedExact` | os/core/printf.cpp:320-932 | with a buffer size the count is that of the counted text, and the buffer is not exceeded if and only if everything fits, the signs of `%%` included, or there are none and a piece ends exactly where the room does; without `%%` what is written is the beginning of the whole text; a faulty format gives no answer |
| `Formatting.CountingPass` | os/core/printf.cpp:320-932 | without a buffer the count is that of the whole text if and only if there is no `%%` and no fault; `%%` writes through the null pointer |
| `Formatting.Unbounded` | os/core/printf.cpp:934-945 | without a size everything is written, and the count leaves out the signs printed for `%%` |
| `Formatting.PassesExact` | os/core/printf.cpp:956-970 | a buffer sized by one scan takes all of another if and only if that is not longer |
| `Formatting.AlwaysPrintsExact` | os/core/printf.cpp:956-970 | kvprintf prints all its second pass has to print, whatever either pass finds in memory, if and only if the format has no `%%` and no fault, prints no string, and gives no integer a precision of at least the length of its text: a test on format and arguments alone |
| `Formatting.PassesAgree` | os/core/printf.cpp:956-970 | when both passes find the same memory, or the call is safe, it prints everything, and the count is its length, if and only if there is no `%%` and no fault |
| `Formatting.StringPasses` | os/core/printf.cpp:853-875 | for `%s` the passes disagree, past the end of the buffer, if and only if more follows the unterminated copy the second time |
| `Conversions.SignedIs` | os/core/printf.cpp:548-602 | an argument seen as a signed type differs from it by a multiple of the number of its values and lies in its range |
| `Conversions.SignedTypes` | os/core/printf.cpp:548-602 | the type of `%d` for each length, and that values of the type are kept |
| `Conversions.UnsignedTypes` | os/core/printf.cpp:603-707 | the types of `%u`, `%o` and `%x`, signed for the length t |
| `Conversions.Letters` | os/core/printf.cpp:547-903 | the conversion letters, those that take an argument, and the base of each |
| `Conversions.IntegerCharacters` | os/core/printf.cpp:548-707 | an integer conversion character by character: padding, zeros to the precision, sign, prefix, digits in the base of its letter |
| `Conversions.CharacterConversion` | os/core/printf.cpp:838-852 | `%c` prints the low byte, and nothing with the length l |
| `Conversions.PointerConversion` | os/core/printf.cpp:882-901 | `%p` prints the 64-bit value in hexadecimal, with 0x for the flag # |
| `Conversions.StringConversion` | os/core/printf.cpp:853-881 | `%s` prints its string, cut at a precision other than zero |
| `Conversions.SignedConversion` | os/core/printf.cpp:548-602 | `%d` fails exactly for the least value of its type; otherwise, where it does not run on into memory, atoi reads the text as the value if and only if an int holds it and neither zeros nor padding stand before a minus sign nor padding behind anything but zero, for every length, precision and width |
| `Conversions.UnsignedConversion` | os/core/printf.cpp:603-707 | `%u`, `%o` and `%x` where they do not run on into memory, print a text that evaluates to the value in base 10, 8 or 16 if and only if the value is not negative and padding does not stand behind anything but zero, for every length, flag, precision and width |
| `Conversions.ReadsMemoryExact` | os/core/printf.cpp:547-903 | a conversion prints what memory held exactly when it copies a string or lengthens a number to a precision of at least its length, and then prints all of it |
| `Conversions.Convert` | os/core/printf.cpp:547-903 | the conversions run on buffers, through itoa, copying, lengthening and padding, print the text the previous rows are about |
| `Conversions.ConvertString` | os/core/printf.cpp:853-875 | a string is copied up to its precision, runs on into memory, and is padded |
| `Formatting.DecimalPrints` | os/core/printf.cpp:956-970 | kvprintf of `%d` prints every int but the least as a text that atoi reads as that int |
| `Conversions.ReadFlags` | os/core/printf.cpp:366-393 | the flag loop |
| `Conversions.ReadWidth` | os/core/printf.cpp:399-421 | the width loop; a star takes an argument and ends it |
| `Conversions.ReadPrecision` | os/core/printf.cpp:427-453 | the precision loop; a star takes an argument and is not stepped over |
| `Formatting.WritePiece` | os/core/printf.cpp:906-924 | writing or discarding, counting, and the limit test after a piece |
| `Formatting.Kvsnprintf` | os/core/printf.cpp:320-932 | the main loop leaves in the buffer, terminated, exactly what `Run` says, or the fault it meets first |
| `Formatting.Kvprintf` | os/core/printf.cpp:956-970 | the two passes |

## Left out

- PhysicalMemory.Allocator.CarveUpwards: says only that the loop never completes, not what it leaves in memory; the block it starts from is still linked and is reshaped on the way.
- PageTables.Machine.HandlePagefault: takes its frames from a given sequence; that allocating one may need kmalloc and so fault again is not modelled.
- ChunkPages.ChunkPage.AllocateChunk: is about the page chosen; making a new page when all are full is not modelled.
- Formatting.WritePiece: `%n` consumes its argument but the store through it is not modelled.
- Interrupts, descriptor tables, boot code, `invlpg`, halting and the linker script: device and assembly effects.
- The terminal and every message written to it.
- `malloc_init`, the emergency store, `malloc_direct_alloc` and the descriptor pages: one-off set-up; a chunk page starts from any bitmap.
- Requests above 1024 bytes, which go to the region allocator with a page count rounded down.
- The loop between page faults, frame allocation and `kmalloc`, and any concurrency: the source has no locks.
- `weak_ptr::reset`, which names a parameter it does not have, and the aliasing and allocator constructors of `shared_ptr`.
- `dtoa`, `dtosn` and their disabled format cases, wide characters, `panic`, `concatentate_strings` and the mechanics of variable arguments.
- Widths and precisions of 2^31 and more, which wrap in the source.
- `vector`, `unique_ptr`, `allocator`, type traits, hashing, string stubs, ELF lookup and `misc_util`.
