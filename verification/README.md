# Espiral: memory management of a RISC-V GPU host runtime

Espiral runs kernels on a RISC-V GPU. Its host side hands out physical memory, builds Sv32 page tables in a scratchpad
copy of device memory, grows a heap per kernel, and moves data to and from the device through the page tables. This
project models these layers in Dafny and proves what they promise.

## How the model is built

* **Page allocator** (`Blocks`, `Pages`, `VortexAllocator`). Blocks and pages are objects with the three intrusive doubly
  linked lists of the program. Each method is proved against an operation on values: a sorted sequence of pages, each
  with its used blocks (`Intervals`, `AllocatorSpec`). The free lists do not appear in the values, because the free blocks
  of a page are proved to be exactly the maximal gaps between its used blocks. `Sums64` has the sums of the program
  modulo 2^64 and says exactly when they are right, `Rounding` does so for the bit operations. `AllocatorRuns` is about
  whole runs, and `FrameAllocation` about runs of page-sized requests.
* **Scratchpad** (`Memory`, `Scratchpad`). Lazily created pages behind a lock, refining a total map from 32-bit addresses
  to bytes.
* **Page tables** (`Bits`, `Sv32`, `Translation`, `Holes`, `HoleFrames`, `HoleRuns`, `PageTables`, `Mappings`, `Trees`,
  `Dumps`, `Hardware`, `AddressSpace`). `Hardware` is the translation of the RISC-V standard for programs in user mode, with
  permissions; like the load translation in `Translation` it reads memory byte by byte, in little-endian order.
  The class `AddressSpaceManager` works on the allocator and the scratchpad above. Its state as a value is a `Space`:
  memory, frames in use, and a ghost map `own` that says for each owned frame whether it is a root, the node under an
  entry of a root, or the page under an entry of a node. The invariant `PageTables.Inv` ties roles and entries together
  in both directions, and says that a page whose frame nobody owns is mapped to itself; mapping, isolation, dumping and
  freeing rest on it.
* **Threads** (`Interleaving`, `Transactions`). A state machine whose steps are the locked sections of the program. The
  operations of `AddressSpaceManager` are proved to be runs of these steps.
* **Clients** (`Bump`, `Heap`, `Device`, `Copies`, `Uploads`, `ImageLayout`, `Stacks`, `Kernels`,
  `SpinnerModel`). The heap of a kernel, transfers in page-sized chunks, the image and the stacks of a kernel, and `StartKernel`, which composes
  all of it. The device is an array of 2^32 bytes that accepts every transfer.

`dafny verify dfyconfig.toml` checks the whole project.

## What the program relies on

These conditions are preconditions in the model, because the code does not check them.

* Alignments are powers of two, base plus capacity is below 2^64, and a requested size is at most 2^64 minus the page
  alignment, so that its rounding does not wrap (`Rounding.AlignSizeIff`). Any address may be reserved.
* `FrameConfig`: the block alignment divides the page size and the page alignment is a multiple of the page size; the
  base is page-aligned and not zero (zero means failure); base plus capacity is at most 2^32 (addresses are narrowed to
  32 bits); one aligned page fits the capacity (the first page of an empty allocator is not checked against it; see
  `AllocatorSpec.AllocateWithin` for the exact condition).
* `HolesOk`: the one retry for a frame in a hole is enough, now and later. Either at most one frame of the allocator lies in
  a hole, or pages hold one frame, no two frames in holes are neighbours, and each of them is in use once a higher frame
  is. The constructor accepts every layout; requests and releases keep the condition. `HoleRuns.SequentialIff` and
  `HoleRuns.ConcurrentIff` say which layouts ever need more than one retry.
* Leaf flags contain R. Identity mappings beyond 2^32 - 4096 bytes name no frame that a page table could own.
* A heap request is not empty (an empty one calls itself forever) and its end, rounded up, fits 64 bits
  (`Bump.ServedInside` says exactly when a wrapped request is accepted by mistake).
* A kernel image ends at least a page below 4 GiB, and code does not reach past the image (`ImageOk`). Local memory and I/O
  name no frame that a page table could own.

## Where the code does less than one would expect

* `AllocatorSpec.AllocateWithin`, `AllocatorSpec.FirstPageIgnoresCapacity`: an allocation into an empty allocator
  passes the capacity exactly when the rounded request is larger than it.
* `Sums64.SearchIff`, `Sums64.SoundIff`, `Sums64.WrappedSearch`: the search for the address of a new page is right if and
  only if some gap fits, the sum of the last page's end and the rounded size is below 2^64, or that sum is the only one
  that wraps and still passes the limit, which needs a page that ends past the limit (`Sums64.WrappedRefused`,
  `Sums64.InsideTakes`). Otherwise the end of some page, or the base, is returned
  although nothing fits: for a full page at 0x10000 and 2^64 - 4096 bytes, the address of that page.
* `Sums64.GrantsIff`, `Sums64.OverlapIff`, `Sums64.WrappedReserve`: a reservation is granted or refused rightly if and only
  if its end is below 2^64, or its wrapped end is refused for another reason. The last 4096 bytes of the 64-bit
  address space are granted, whatever the capacity.
* `Rounding.AlignSizeIff`, `Sums64.RoundsToZero`, `Sums64.EmptyReserve`: the rounding of a size is right exactly when the sum
  in it fits 64 bits, and gives zero otherwise, so that a reservation of almost 2^64 bytes is tested as one of no bytes.
* `AllocatorSpec.TouchingRefused`: a reservation that only touches a page is refused as an overlap.
* `Translation.WalkIsLoadIff`, `Translation.LargePpnTruncated`: a walk that does not fault agrees with the architecture's
  load if and only if the page numbers on its way are below 2^20; a larger one gives the address modulo 2^32.
* `HoleRuns.SequentialIff`, `HoleRuns.ConcurrentIff`, `HoleFrames.HoleServed`: a frame in a hole is retried once. With pages
  of one frame, a run of requests and releases, one after the other, yields a frame in a hole if and only if two frames
  in holes are neighbours. When threads interleave between a request and its retry, it does if and only if two frames lie
  in holes at all. Because the end of a hole counts as inside, one hole of 4096 bytes at the base is enough for both.
* `AddressSpace.AddressSpaceManager.MapAddrInner`, `PageTables.LeafBreaks`, `Mappings.MapsShares`: the code writes a leaf
  without asking whether its page may be mapped there. The page tables stay right if and only if it may (`Mappable`): a frame
  in use that nothing owns, or an uncounted page mapped to itself. A frame that another page has as target is then shared.
* `AddressSpace.AddressSpaceManager.AllocateVmPages`: the 32-bit loop counter starts over beyond 2^32 - 4096 bytes; the
  call then never succeeds.
* `AddressSpace.AddressSpaceManager.AllocateOneVmPage`: the frame taken for the page stays in use, owned by nothing, if and
  only if the page was mapped already or no frame was left for a node. With pages of one frame this is decided by the state
  before the call (`AddressSpace.Wasted`): a frame outside the holes is left, and either the page is mapped, or that frame
  is the last and the node is missing. `AddressSpace.MappedTwice`: mapping the same page again is such a call.
* `Heap.HeapManager.Grow`: a growth that fails after its first page leaves a mapped page behind the heap, and a heap with
  a mapped page behind it never grows again.
* `Heap.BackedByte`, `SpinnerModel.Spinner.AllocateUserStack`: at a base that is not page-aligned, the last bytes of a heap
  or of the stacks are mapped only if they lie on one of the pages that the size needs.
* `ImageLayout.ImageCovered`, `ImageLayout.UncoveredImage`: an image that does not start at a page boundary and has no
  page shared by code and data is covered exactly when its offset in the first page leaves room for its last page.
  `ImageLayout.CodeHeld` says when the code is covered; otherwise `StartKernel` succeeds only if the page behind happens to
  be mapped. `ImageLayout.CodeOnCodePages` says when all code lies on pages that can be executed.

## Model

| member | source | states |
|---|---|---|
| Pages.Page.RemoveUsedList | mm/allocator/vortex_memory_allocator.hpp:397-408 | unlinking a block keeps all links of the used list right, in both directions, and removes that block only |
| Pages.Page.InsertUsedList | mm/allocator/vortex_memory_allocator.hpp:389-395 | the block becomes the head of the used list; the links of the others stay right |
| Pages.Page.InsertFreeMList | mm/allocator/vortex_memory_allocator.hpp:410-427 | the free list stays sorted by address with right links in both directions, and gains that block |
| Pages.Page.RemoveFreeMList | mm/allocator/vortex_memory_allocator.hpp:429-440 | the address list loses that block only and stays linked |
| Pages.Page.InsertFreeSList | mm/allocator/vortex_memory_allocator.hpp:442-459 | the free list stays sorted by decreasing size with right links, and gains that block |
| Pages.Page.RemoveFreeSList | mm/allocator/vortex_memory_allocator.hpp:461-472 | the size list loses that block only and stays linked |
| Pages.Page.constructor | mm/allocator/vortex_memory_allocator.hpp:256-262 | a new page satisfies the page invariant with nothing in use |
| Pages.Page.Allocate | mm/allocator/vortex_memory_allocator.hpp:275-298 | the page invariant is kept and the used blocks gain exactly the requested bytes at the start of the free block |
| Pages.Page.Release | mm/allocator/vortex_memory_allocator.hpp:300-352 | the page invariant is kept, with no two free blocks touching, and the used blocks lose exactly that block |
| Pages.Page.CoalesceLeft | mm/allocator/vortex_memory_allocator.hpp:307-328 | after the left merge no free block ends where the released one starts, and the page is still tiled |
| Pages.Page.CoalesceRight | mm/allocator/vortex_memory_allocator.hpp:330-348 | after the right merge no two free blocks touch, and the page is still tiled |
| Pages.Page.FindFreeBlock | mm/allocator/vortex_memory_allocator.hpp:354-369 | returns the smallest free block that is large enough, or null if and only if there is none |
| Pages.Page.FindUsedBlock | mm/allocator/vortex_memory_allocator.hpp:371-381 | returns the used block at an address, or null if and only if there is none |
| Pages.Page.Empty | mm/allocator/vortex_memory_allocator.hpp:271-273 | true if and only if no block is in use |
| Pages.Page.EmptyPage | mm/allocator/vortex_memory_allocator.hpp:264-269 | a page with nothing in use has exactly one free block, which spans it, as the destructor asserts |
| Pages.Page.FreePartition | mm/allocator/vortex_memory_allocator.hpp:275-352 | used and free blocks tile the page and no two free blocks are adjacent |
| Intervals.FreeAreHoles | mm/allocator/vortex_memory_allocator.hpp:300-352 | a block is free if and only if it is a maximal gap between used blocks |
| Intervals.FreeDetermined | mm/allocator/vortex_memory_allocator.hpp:300-352 | the used blocks of a page determine its free blocks |
| VortexAllocator.VortexMemoryAllocator.CreatePage | mm/allocator/vortex_memory_allocator.hpp:489-507 | inserts an empty page at its place in the list sorted by address |
| VortexAllocator.VortexMemoryAllocator.DeletePage | mm/allocator/vortex_memory_allocator.hpp:509-527 | takes exactly that page off the list |
| VortexAllocator.VortexMemoryAllocator.FindNextAddress | mm/allocator/vortex_memory_allocator.hpp:529-558 | what the search with sums modulo 2^64 finds; `Sums64.SearchIff` says when this is the lowest gap |
| VortexAllocator.VortexMemoryAllocator.HasPageOverlap | mm/allocator/vortex_memory_allocator.hpp:560-574 | the overlap test with sums modulo 2^64; `Sums64.OverlapIff` says when this is overlap or touch |
| VortexAllocator.VortexMemoryAllocator.FindPage | mm/allocator/vortex_memory_allocator.hpp:165-173 | the first page with a fitting free block, and its best fit; no earlier page has one |
| VortexAllocator.VortexMemoryAllocator.Allocate | mm/allocator/vortex_memory_allocator.hpp:156-198 | best fit in the first page that fits, else a new page in the lowest gap; failure means an empty request or exhausted memory, and changes nothing; the invariant is kept if and only if the sums of the request are right, and otherwise a page is placed whose end passes 2^64 |
| VortexAllocator.VortexMemoryAllocator.Release | mm/allocator/vortex_memory_allocator.hpp:200-231 | succeeds if and only if the address is in use; removes exactly that block, and its page when it becomes empty |
| VortexAllocator.VortexMemoryAllocator.Reserve | mm/allocator/vortex_memory_allocator.hpp:116-149 | grants what the tests modulo 2^64 grant and then adds a page that one block fills; the invariant is kept if and only if the page starts at or above the base and ends below 2^64 |
| VortexAllocator.VortexMemoryAllocator.Free | mm/allocator/vortex_memory_allocator.hpp:100-106 | capacity minus the bytes in use, which never underflows while pages stay inside the capacity |
| Sums64.SearchIs | mm/allocator/vortex_memory_allocator.hpp:529-558 | with unbounded sums the search finds the lowest gap that fits, and nothing only if no place below the limit is clear |
| Sums64.SearchIff | mm/allocator/vortex_memory_allocator.hpp:529-558 | the 64-bit search agrees with the unbounded one if and only if some gap fits, the last page's end plus the size is below 2^64, or that sum alone wraps and passes the limit |
| Sums64.SoundIff | mm/allocator/vortex_memory_allocator.hpp:156-198 | the sums of a request are right if and only if it is empty, a free block or a gap fits, the new page ends below 2^64 behind the last one, or the wrapped sum is refused |
| Sums64.NothingFound | mm/allocator/vortex_memory_allocator.hpp:529-558 | when the 64-bit search finds nothing there is no room, whether its sums wrap or not |
| Sums64.WrappedSearch | mm/allocator/vortex_memory_allocator.hpp:529-558 | a state and a size for which the search returns an address in use, although nothing fits |
| Sums64.InsideTakes | mm/allocator/vortex_memory_allocator.hpp:529-558 | while the pages stay inside the capacity, a last sum that wraps is never refused |
| Sums64.WrappedRefused | mm/allocator/vortex_memory_allocator.hpp:529-558 | a state whose first page passes the limit, and a size for which the last sum wraps and both searches find nothing |
| Sums64.OverlapIff | mm/allocator/vortex_memory_allocator.hpp:560-574 | the exact condition under which the 64-bit overlap test tells overlap or touch |
| Sums64.GrantsIff | mm/allocator/vortex_memory_allocator.hpp:116-149 | bounds test and overlap test of a reservation are right together if and only if its end is below 2^64 or the wrapped end is refused for another reason |
| Sums64.WrappedReserve | mm/allocator/vortex_memory_allocator.hpp:116-149 | a reservation past every limit that both tests let through |
| Sums64.RoundsToZero | mm/allocator/vortex_memory_allocator.hpp:576-579 | a size is rounded to zero if and only if it is within one alignment of 2^64 |
| Sums64.EmptyReserve | mm/allocator/vortex_memory_allocator.hpp:116-149 | a reservation of such a size passes both tests exactly where one of no bytes would |
| AllocatorSpec.AlignUp | mm/allocator/vortex_memory_allocator.hpp:576-579 | the smallest multiple of the alignment that is not below the size |
| Rounding.AlignSizeIff | mm/allocator/vortex_memory_allocator.hpp:576-579 | the bit operations on 64 bits compute that multiple if and only if the sum in them does not wrap |
| AllocatorSpec.AllocateKeeps | mm/allocator/vortex_memory_allocator.hpp:156-198 | allocation keeps pages sorted, disjoint and never empty, returns an address that was not in use, and releasing it restores the state |
| AllocatorSpec.AllocateWithin | mm/allocator/vortex_memory_allocator.hpp:529-558 | pages stay inside the capacity if and only if the list was not empty or the rounded request fits |
| AllocatorSpec.FirstPageIgnoresCapacity | mm/allocator/vortex_memory_allocator.hpp:530-533 | a first request larger than the capacity succeeds outside of it |
| AllocatorSpec.AllocateTotal | mm/allocator/vortex_memory_allocator.hpp:194-195 | the bytes in use grow by exactly the rounded size, so that a split leaves no slack |
| AllocatorSpec.ReleaseTotal | mm/allocator/vortex_memory_allocator.hpp:217-228 | the bytes in use shrink by exactly the size of the released block |
| AllocatorSpec.TotalWithin | mm/allocator/vortex_memory_allocator.hpp:100-106 | the bytes in use never exceed the capacity while pages stay inside it |
| AllocatorSpec.ReleaseKeeps | mm/allocator/vortex_memory_allocator.hpp:200-231 | releasing any set of addresses keeps the page invariant and removes exactly these addresses |
| AllocatorSpec.ReleaseOrder | mm/allocator/vortex_memory_allocator.hpp:200-231 | the state after any number of releases depends on the set of addresses only |
| AllocatorSpec.ReleaseSame | mm/allocator/vortex_memory_allocator.hpp:200-231 | two sequences of the same addresses, in any order and with any repetitions, lead to the same state |
| AllocatorSpec.ReserveKeeps | mm/allocator/vortex_memory_allocator.hpp:116-149 | reservation keeps the page invariant and the accounting, and releasing the address restores the state; it stays inside the capacity if and only if it starts at or above the base |
| AllocatorSpec.TouchingRefused | mm/allocator/vortex_memory_allocator.hpp:560-574 | a reservation right behind a page is always refused |
| AllocatorRuns.RunKeeps | mm/allocator/vortex_memory_allocator.hpp:116-231 | every state of every run of allocations, reservations and releases whose sums are right satisfies the page invariant, and no page starts below the base or ends past 2^64 |
| AllocatorRuns.RunWithin | mm/allocator/vortex_memory_allocator.hpp:100-231 | every run whose first requests are modest stays inside the capacity, in addresses and in bytes in use |
| AllocatorRuns.ReleaseEverything | mm/allocator/vortex_memory_allocator.hpp:200-231 | releasing every block of a reachable state, in any order, leaves no page and no byte in use |
| AllocatorRuns.AllocateThenRelease | mm/allocator/vortex_memory_allocator.hpp:156-231 | any number of allocations followed by the release of their addresses in any order restores the state exactly |
| FrameAllocation.AllocateFrame | mm/address_space_manager.hpp:277-288 | a page-sized request returns a page-aligned frame inside the memory that was not in use |
| FrameAllocation.LowestFrame | mm/allocator/vortex_memory_allocator.hpp:156-198 | with pages of one frame the frame served is the lowest that is not in use |
| FrameAllocation.ExhaustedFrames | mm/allocator/vortex_memory_allocator.hpp:529-558 | with pages of one frame a request fails only when every frame is in use |
| Scratchpad.ScratchpadMemory.Write | mm/scratchpad_memory.hpp:20-30 | under the lock, the memory changes in exactly the written range, across page boundaries; addresses are taken modulo 2^32 |
| Scratchpad.ScratchpadMemory.Read | mm/scratchpad_memory.hpp:37-49 | under the lock, returns the bytes of the memory at the addresses modulo 2^32 and does not change it, although pages may be created |
| Scratchpad.ScratchpadMemory.GetPageOrElseCreate | mm/scratchpad_memory.hpp:57-63 | the page exists afterwards and the memory is the same |
| Scratchpad.ScratchpadMemory.WriteAtomic | mm/scratchpad_memory.hpp:32-35 | a write under the lock, which is free before and after |
| Scratchpad.ScratchpadMemory.ReadAtomic | mm/scratchpad_memory.hpp:51-54 | a read under the lock, which is free before and after |
| Sv32.MakePte | mm/address_space_manager.hpp:318-320 | page number in bits 31 to 10, flags in bits 9 to 0, as in section 4.3.1 of the RISC-V Privileged Architecture v1.12 |
| Sv32.PtePa | mm/address_space_manager.hpp:321-323 | the page address modulo 2^32 |
| Sv32.PteRoundTrip | mm/address_space_manager.hpp:318-332 | page address and each of the ten flags survive the round trip through an entry |
| Sv32.PteIsLeaf | mm/address_space_manager.hpp:330-332 | a leaf if and only if R, W or X is set |
| Sv32.VaVpn | mm/address_space_manager.hpp:333-335 | the ten bits of the virtual page number of a level |
| Sv32.VaFields | mm/address_space_manager.hpp:333-336 | the two page number fields and the offset determine a virtual address |
| Sv32.SatpRoundTrip | mm/address_space_manager.hpp:300-306 | a page-aligned root survives the round trip through satp; mode is set and the ASID is zero, as in section 4.1.11 |
| Sv32.SuperpagePa | mm/address_space_manager.hpp:228-229 | upper bits of the page, lower 22 bits of the virtual address |
| Sv32.LeafFlags | mm/address_space_manager.hpp:189-190 | V, A and D are added to the requested flags, and nothing else |
| PageTables.EntryFlags | mm/address_space_manager.hpp:189-190 | the entry written for a mapping has the whole page number of its page, the requested flags, and V, A and D |
| Translation.WalkIsLoad | mm/address_space_manager.hpp:204-237 | for every memory whose page numbers on the way are below 2^20, the walk is the load translation of section 4.3.2 over little-endian words, privilege and A/D checks aside |
| Translation.WalkIsLoadIff | mm/address_space_manager.hpp:204-237 | a walk agrees with that load translation if and only if it faults or the page numbers on its way are below 2^20 |
| Hardware.UserLookup | mm/address_space_manager.hpp:161-237 | under the invariant, and wherever the tables lie in memory unchanged, the hardware in user mode makes of every address, for load, store and fetch, what the bits of the entry of its page allow |
| Hardware.PermittedAccess | mm/address_space_manager.hpp:189-190 | a user page can always be read, written if its entry has W, and executed if it has X |
| Translation.StepAgrees | mm/address_space_manager.hpp:212-231 | for one entry, walk and architecture agree on invalid, W without R, pointer, leaf, misaligned superpage and address |
| Translation.LargePpnTruncated | mm/address_space_manager.hpp:321-323 | on larger page numbers the walk returns the address modulo 2^32; the two agree if and only if the number is small |
| Holes.HoleList.AddHole | mm/hole_list.hpp:10-14 | an empty hole is dropped, another replaces the hole that starts at the same address |
| Holes.HoleList.AddrInHole | mm/hole_list.hpp:16-23 | true if and only if the address lies in a hole, its end included |
| HoleRuns.SequentialIff | mm/address_space_manager.hpp:277-288 | for requests and releases one after the other, no run is served from a hole if and only if no two frames in holes are neighbours |
| HoleRuns.ConcurrentIff | mm/address_space_manager.hpp:277-288 | for threads that interleave between a request and its retry, no run is if and only if at most one frame lies in a hole |
| HoleFrames.SpacedNext | mm/address_space_manager.hpp:277-288 | when lower frames in holes are in use already, the two lowest free frames lie in holes only if they are neighbours |
| HoleFrames.HoleServed | mm/address_space_manager.hpp:277-288 | a hole of 4096 bytes at the base: the first request is served from the hole, although a frame outside is free |
| HoleFrames.ServedInHole | mm/address_space_manager.hpp:277-288 | after a lowest frame in a hole, the retry lies in a hole if and only if the two lowest free frames did |
| AddressSpace.AddressSpaceManager.constructor | mm/address_space_manager.hpp:28-47 | an empty manager, for any layout; an address lies in a hole if and only if it lies in the I/O region or in local memory, their ends included, where an empty region is no hole and local memory replaces an I/O region that starts at the same address; the whole invariant holds if and only if at most one frame lies in a hole, or pages hold one frame and no two frames in holes are neighbours |
| AddressSpace.AddressSpaceManager.AllocateOnePage | mm/address_space_manager.hpp:277-288 | a fresh frame, or memory is exhausted; the frame lies in a hole if and only if two frames in holes were taken, with pages of one frame if and only if the two lowest free frames lie in holes; with pages of one frame it is a request of `HoleRuns`; when the retry was enough it stays enough |
| AddressSpace.AddressSpaceManager.ReleaseOnePage | mm/address_space_manager.hpp:290-295 | removes the frame from those in use, unless it lies in a hole |
| AddressSpace.AddressSpaceManager.AllocatePageTable | mm/address_space_manager.hpp:54-62 | an empty root on a fresh frame; failure means that memory is exhausted, with pages of one frame that no frame outside the holes was left, and only frames in holes came into use |
| AddressSpace.AddressSpaceManager.ReadPte | mm/address_space_manager.hpp:145-148 | the entry whose four bytes in memory, the lowest first, are those of its value |
| AddressSpace.AddressSpaceManager.ReadPteAtomic | mm/address_space_manager.hpp:150-153 | the same under the lock |
| AddressSpace.AddressSpaceManager.WritePte | mm/address_space_manager.hpp:155-159 | the four bytes of the entry, the lowest first, and nothing else |
| AddressSpace.AddressSpaceManager.NextNode | mm/address_space_manager.hpp:166-184 | the node under an entry of the root, created when the entry is not valid; the entry then has the node's page number and V alone |
| AddressSpace.AddressSpaceManager.MapAddrInner | mm/address_space_manager.hpp:161-202 | already mapped if and only if there was a leaf, and then nothing changes; without a frame for a node no table changes, and with pages of one frame this happens if and only if the node is missing and no frame outside the holes is left; else one leaf is written, whatever its page is, with the page number of the address, the requested flags, and V, A and D, and at most one node; the whole invariant holds afterwards if and only if nothing was mapped or the page may be mapped there |
| AddressSpace.AddressSpaceManager.PageTableWalk | mm/address_space_manager.hpp:204-237 | the loop computes the two-level walk and changes no memory |
| AddressSpace.AddressSpaceManager.Translate | mm/address_space_manager.hpp:81-88 | the address of the walk, or nothing on a fault |
| AddressSpace.AddressSpaceManager.AllocateOneVmPage | mm/address_space_manager.hpp:103-111 | the page gets a frame that was not in use, with the requested flags, and V, A and D; failure means that it was mapped already or that memory is exhausted, and changes no table; the frame taken for the page is lost if and only if the page was mapped or no node frame was left, with pages of one frame if and only if `Wasted` held before; no other page table changes in any case |
| AddressSpace.MappedTwice | mm/address_space_manager.hpp:103-111 | mapping a page that was just mapped wastes a frame whenever one is left |
| AddressSpace.AddressSpaceManager.AllocateVmPages | mm/address_space_manager.hpp:95-101 | each started page, once, gets its own new frame, with the requested flags; failure leaves a mapped prefix, has a mapped page or exhausted memory as its cause, and happens for every size beyond 2^32 - 4096; successful or not, only this page table grows and at most one frame is lost |
| AddressSpace.AddressSpaceManager.UnsafeMapIdentity | mm/address_space_manager.hpp:64-69 | each started page, once, is mapped to itself with the requested flags; failure leaves a mapped prefix; as long as no mapped page is one that a page table could own, the whole invariant is kept and only this page table grows |
| AddressSpace.AddressSpaceManager.FreePageTableInner | mm/address_space_manager.hpp:248-264 | releases a table and everything below it, each owned frame exactly once |
| AddressSpace.AddressSpaceManager.FreePageTable | mm/address_space_manager.hpp:90-93 | the frames in use become the old ones minus exactly what that root owned; memory and all other roles stay |
| AddressSpace.AddressSpaceManager.DumpPageTableInner | mm/address_space_manager.hpp:266-275 | terminates although it has no level argument, and adds exactly the table and the nodes below it |
| AddressSpace.AddressSpaceManager.DumpPageTable | mm/address_space_manager.hpp:113-118 | the root and its nodes with their contents, and nothing else |
| AddressSpace.AddressSpaceManager.DumpAddressMappingInner | mm/address_space_manager.hpp:127-142 | appends the mapped pages of the table in ascending order |
| AddressSpace.AddressSpaceManager.DumpAddressMapping | mm/address_space_manager.hpp:120-125 | all mapped pages in strictly ascending order, each with its frame |
| PageTables.NewNodeInv | mm/address_space_manager.hpp:172-181 | inserting a zeroed fresh node keeps the ownership invariant |
| PageTables.NewLeafInv | mm/address_space_manager.hpp:186-200 | writing a leaf over an invalid entry keeps the ownership invariant |
| PageTables.LeafBreaks | mm/address_space_manager.hpp:186-200 | a leaf whose page is counted and gets no role, or whose uncounted page is not mapped to itself, breaks the ownership invariant |
| PageTables.NewRootKeeps | mm/address_space_manager.hpp:54-62 | a new root, also on a recycled frame, maps nothing and changes no other translation |
| PageTables.NewNodeKeeps | mm/address_space_manager.hpp:172-181 | a new node, also on a recycled frame, changes no translation of any root |
| PageTables.WalkIsLookup | mm/address_space_manager.hpp:204-237 | under the invariant a walk is a lookup of two valid entries; no other fault than an invalid entry occurs |
| PageTables.MapRefinesUpdate | mm/address_space_manager.hpp:161-202 | mapping is map update: one page of one root translates to the new page, every other address of every root as before |
| PageTables.CountedOnce | mm/address_space_manager.hpp:103-111 | a frame that page tables count as their own is mapped by one page of one root |
| Mappings.MapsWrote | mm/address_space_manager.hpp:161-202 | the mapped page was not mapped before, and is the only one whose entry changes |
| Mappings.CreateMapFree | mm/address_space_manager.hpp:54-111 | creating a page table, growing it in any way and freeing it restores the frames in use, apart from frames in holes, and all roles |
| Mappings.CreateFailFree | mm/address_space_manager.hpp:54-111 | the same when the growth fails at some point: at most the one frame lost there stays in use |
| Mappings.Lifetime | spinner.hpp:79-118 | a page table is created, grows with or without failures, and is freed: at most one frame was lost, all roles are as before, and no other page table has changed |
| Mappings.FreeKeepsOthers | mm/address_space_manager.hpp:248-264 | freeing a page table keeps the map of every other root |
| Mappings.OneOwner | mm/address_space_manager.hpp:103-111 | two roots, or two pages of one, never have the same counted frame as target |
| Mappings.UncountedIsSelf | mm/address_space_manager.hpp:64-69 | a page whose target no page table owns is mapped to itself |
| Mappings.OneTarget | mm/address_space_manager.hpp:64-111 | no two pages of a page table have the same target, owned or not |
| Mappings.SomePageUnmapped | mm/address_space_manager.hpp:95-111 | no page table maps all 2^20 pages |
| Mappings.MapsShares | mm/address_space_manager.hpp:161-202 | when the code maps a page to a frame that another page has as target, both pages have it as target afterwards |
| Mappings.TablesUnreachable | mm/address_space_manager.hpp:161-202 | no page is mapped to a root or a node |
| Mappings.NewRootEmpty | mm/address_space_manager.hpp:54-62 | a new root has no target for any page, and no other root loses or gains one |
| Dumps.TablesReachable | mm/address_space_manager.hpp:266-275 | the dumped tables are the root and what its valid entries point to |
| Dumps.DumpWalks | mm/address_space_manager.hpp:113-118 | a walk over the dumped pages alone agrees with the walk over all memory, for every address |
| Dumps.GraphIsTranslation | mm/address_space_manager.hpp:120-142 | a page-aligned pair is listed if and only if the address translates to it |
| Interleaving.StepKeeps | mm/address_space_manager.hpp:150-202 | every locked step of every thread, the freeing of a root that is being walked included, keeps ownership and frames in flight consistent |
| Interleaving.EntryKept | mm/address_space_manager.hpp:166-201 | a valid entry of an owned table never changes |
| Interleaving.WalkIsAtomic | mm/address_space_manager.hpp:204-237 | the last read of a walk that is right so far returns what an atomic walk returns at that instant |
| Interleaving.WalkGoesOn | mm/address_space_manager.hpp:204-237 | no step of any thread spoils a walk in progress, unless it frees the root that is walked |
| Interleaving.WalksLinearize | mm/address_space_manager.hpp:81-88 | in every interleaving from the start, a walk whose root is not freed between its start and its last read returns what an atomic walk returns at that read; other roots may be freed under their walkers |
| Interleaving.TranslationStable | mm/address_space_manager.hpp:81-93 | a translation stays the same in every run until its page table is freed |
| Interleaving.RunsIsolate | mm/address_space_manager.hpp:95-111 | in every state of every interleaving, page tables share no counted frame and no page is mapped to a page table |
| Transactions.CreateIsRun | mm/address_space_manager.hpp:54-62 | creating a page table is a run of locked steps |
| Transactions.MapIsRun | mm/address_space_manager.hpp:161-202 | every mapping that `MapAddrInner` makes is a run of locked steps, in which the thread uses the frame it holds |
| Transactions.NewPageIsRun | mm/address_space_manager.hpp:103-111 | taking a frame and mapping a page to it is a run of locked steps |
| Transactions.FreeIsRun | mm/address_space_manager.hpp:90-93 | freeing a page table, walked or not, is a run of locked steps |
| Bump.ServedInside | mm/allocator/bump_allocator.hpp:57-65 | a request is served if and only if it is not empty and fits the region, or its end wraps around 64 bits |
| Bump.BumpAllocator.Allocate | mm/allocator/bump_allocator.hpp:50-66 | the next bytes of the region exactly when `Bump.Served` holds, and nothing otherwise |
| Bump.BumpAllocator.GrowCapacity | mm/allocator/bump_allocator.hpp:34-40 | grows a growable region, refuses otherwise |
| Bump.BumpAllocator.InitBaseAddress | mm/allocator/bump_allocator.hpp:12-15 | the region and the next address start at the base |
| Bump.BumpAllocator.InitCapacity | mm/allocator/bump_allocator.hpp:16-18 | sets the size of the region only |
| Bump.BumpAllocator.SetGrowable | mm/allocator/bump_allocator.hpp:27-33 | can be decided once; a different later decision is refused |
| Heap.HeapManager.constructor | mm/heap_manager.hpp:13-19 | an empty, growable heap at its base, aligned or not |
| Heap.HeapManager.Grow | mm/heap_manager.hpp:34-41 | new pages are mapped behind the heap, which stays a whole number of pages that can be read and written and not executed; after a failure the page behind it is mapped if and only if it was or if some page was mapped now, and a heap with a mapped page behind it cannot grow; only the page table of the heap grows in any case |
| Heap.HeapManager.Allocate | mm/heap_manager.hpp:26-43 | the next bytes of the heap, after at most one growth by exactly the pages needed; failure means that a page behind the heap was mapped or memory is exhausted, hands out nothing and keeps the heap valid; a blocked heap serves only what fits; only the page table of the heap grows in any case |
| Heap.RangesDisjoint | mm/heap_manager.hpp:26-43 | ranges handed out share no address, also where the heap runs around the end of the address space |
| Heap.BackedByte | mm/heap_manager.hpp:26-43 | every byte of the heap translates to its frame, on a page that can be read and written and not executed; from an unaligned base, the last bytes do if and only if the page behind the heap is mapped |
| Heap.BackedKept | mm/heap_manager.hpp:26-43 | the pages of a heap keep their targets and permissions while any page table grows |
| Heap.HeapManager.StillValid | mm/heap_manager.hpp:26-43 | a heap stays valid while the page table of another kernel grows or fails to |
| Heap.HeapManager.StillValidFree | spinner.hpp:79-84 | a heap stays valid when the page table of another kernel is freed |
| Heap.HeapManager.RangesTranslate | mm/heap_manager.hpp:26-43 | every byte of every range handed out translates to its place on the heap's frames, on a page that can be read and written; from an unaligned base, the bytes behind the last page do if and only if the page behind the heap is mapped |
| Heap.HeapManager.RangesApart | mm/heap_manager.hpp:26-43 | no two bytes handed out have the same physical address |
| Copies.UploadDownload | spinner.hpp:317-344 | over every mapped range, of any length and on owned or identity-mapped pages, the bytes come back |
| Copies.MappedApart | spinner.hpp:317-344 | no two bytes of a mapped range have the same physical address, so that the range is shorter than 4 GiB |
| Copies.UploadIsolated | spinner.hpp:331-344 | such an upload changes no byte that another page table maps, unless both map it to itself |
| Copies.ChunkPlaced | spinner.hpp:336-343 | storing a chunk in one piece is storing its bytes one by one through the page table |
| SpinnerModel.Spinner.CopyHostToDev | spinner.hpp:331-344 | device memory is as if each byte had been stored at its own translation; an unmapped page ends the transfer with a prefix stored |
| SpinnerModel.Spinner.CopyDevToHost | spinner.hpp:317-329 | the bytes at the translations of the range, or an error at the first unmapped page |
| SpinnerModel.Spinner.UploadSparseScratchpad | spinner.hpp:276-284 | the pages of the dump, in whatever order, and nothing else |
| SpinnerModel.Spinner.UploadPageTable | spinner.hpp:257-262 | afterwards a walk over device memory agrees with the host's walk for every address, and the hardware, reading device memory byte by byte, grants exactly the accesses in user mode that the host's entries allow |
| Uploads.DataKeepsTables | spinner.hpp:257-274 | data copied through any page table leaves every table on the device alone |
| Uploads.TablesKeepData | spinner.hpp:257-284 | uploaded tables leave every mapped byte alone |
| SpinnerModel.Spinner.AllocateVxbinSegments | spinner.hpp:155-205 | the parts of an image make one stretch of new pages; no page is requested twice; code pages can be read and executed, and written only when a page is shared with data; data pages can be read and written and not executed; successful or not, only this page table grows and at most one frame is lost |
| ImageLayout.ImageCovered | spinner.hpp:165-204 | the pages never reach past the image, and cover it if and only if the boundary is shared or the image does not straddle one page more than its size needs; always for a page-aligned start |
| ImageLayout.UncoveredImage | spinner.hpp:188-204 | an image with an unaligned start whose last byte is not covered |
| ImageLayout.CodeHeld | spinner.hpp:165-204 | all code lies on the image's own pages if and only if the boundary is shared or it straddles no more pages than the size of the image needs; always for a page-aligned start |
| ImageLayout.SharedIff | spinner.hpp:164-165 | a page is shared if and only if the code ends inside a page and data follows |
| ImageLayout.CodePagesAre | spinner.hpp:167-194 | the code pages reach up to the shared page, or are as many as the size of the code needs |
| ImageLayout.CodeOnCodePages | spinner.hpp:167-194 | all code lies on code pages if and only if a page is shared or the code straddles no more pages than its size needs; always for a page-aligned start |
| ImageLayout.CodeByte | spinner.hpp:167-194 | a byte on a code page can be executed, and written only when a page is shared |
| ImageLayout.DataByte | spinner.hpp:180-203 | a byte of the image behind the code pages can be written and not executed |
| ImageLayout.HeapBase | spinner.hpp:113-113 | the heap starts at the first page boundary behind the image |
| ImageLayout.HeapLeavesImage | spinner.hpp:103-114 | heap pages mapped before the image leave the image's pages unmapped |
| Stacks.CeilLog2 | spinner.hpp:234-235 | the least width that holds the number of values |
| Stacks.HartIdsDiffer | spinner.hpp:226-238 | different hardware threads have different encoded ids |
| Stacks.HartIdBound | spinner.hpp:236-239 | no encoded id exceeds the largest one |
| Stacks.LastSlot | spinner.hpp:236-246 | the largest id is that of the last hardware thread of the last of four cores, and its slot starts where the stacks do |
| Stacks.SlotsApart | spinner.hpp:239-246 | no address lies in the stack slots of two hardware threads |
| Stacks.SlotsCover | spinner.hpp:239-246 | every byte of the stacks lies in the slot of some id |
| Stacks.StackPages | spinner.hpp:239-251 | the pages mapped for the stacks never reach past their base, and reach it if and only if the stacks are covered |
| SpinnerModel.Spinner.AllocateUserStack | spinner.hpp:222-255 | a byte of a slot is mapped if and only if it lies on a page that the size of the stacks needs, or was before; every byte is when the stacks are covered, in particular below a page-aligned base; the pages can be read and written and not executed; successful or not, only this page table grows |
| SpinnerModel.Spinner.AllocateKernel | spinner.hpp:86-118 | a new empty page table and an empty heap behind the image; no other page table changes; a failure means exhausted memory and changes no page table |
| SpinnerModel.Spinner.MapKernel | spinner.hpp:50-59 | on success the image, local memory, stacks and I/O are all mapped: image and stacks on own frames, local memory and I/O to themselves, each page with the permissions of its part, and every byte of every stack slot on the pages that the stacks need; the mappings grow the kernel's own page table only, whether they succeed or not; when the four regions are unmapped and apart, they fail only for lack of memory |
| SpinnerModel.Spinner.StartKernel | spinner.hpp:50-72 | copying fails if and only if a byte of the image is not mapped, which cannot happen when the image's own pages hold the code; after a successful start everything that `MapKernel` mapped is mapped on the device as on the host, the hardware grants what the entries allow, and the image is found through the page table byte for byte; successful or not, the root remains one, no other page table has changed and at most one frame is lost; when the four regions are unmapped and apart, mapping fails only for lack of memory |
| Kernels.CodeWorks | spinner.hpp:155-205 | a program in user mode can fetch and load every byte on a code page, and store to it only when a page is shared with data |
| Kernels.RegionWorks | spinner.hpp:128-153 | it can load and store every byte of local memory and I/O at its own address, and fetch none |
| Kernels.StackWorks | spinner.hpp:222-255 | it can load and store every byte of a slot on the pages of the stacks, and fetch none |
| SpinnerModel.Spinner.FreeKernel | spinner.hpp:79-84 | the frames in use and the roles lose exactly what the root owned; device memory stays |
| SpinnerModel.Spinner.constructor | spinner.hpp:36-43 | a host with no kernel, for any layout; holes and invariant exactly as for the address-space manager |

## Left out

- VortexAllocator.VortexMemoryAllocator.Allocate: sizes within one page alignment of 2^64 are excluded. They are rounded to zero (`Sums64.RoundsToZero`), and the program goes on with a page or a block of no bytes, or without a free block at all; pages and blocks here are never empty. Results are not narrowed to 32 bits, which `FrameConfig` makes harmless for page tables.
- VortexAllocator.VortexMemoryAllocator.Reserve: excludes the same sizes; `Sums64.EmptyReserve` says what its tests make of them.
- AddressSpace.AddressSpaceManager.UnsafeMapIdentity: promises nothing about page tables once a page was mapped that a page table could own (`PageTables.LeafBreaks`); such pages are excluded beyond 2^32 - 4096 bytes, where the loop would have to end by an error that nothing guarantees. The callers in the program name local memory and I/O only.
- AddressSpace.AddressSpaceManager.AllocatePageTable: like every operation on page tables it requires `HolesOk`; what happens after a frame in a hole was handed out is not modelled.
- The read of the entry that is already there (mm/address_space_manager.hpp:195-196) and the walk after it: they follow the end of the transaction, read without holding the lock, may insert an empty page into the scratchpad there, and only feed an error message.
- The setters of the page allocator run once, in the constructor; its lock is a step boundary in `Interleaving` and not a field of the class; destructors at program end are left out.
- The lock of the scratchpad is a flag, and the order in which waiting threads get it is left out.
- Interleaving.WalksLinearize: says nothing about a walk whose own root is freed before its last read. Freeing is one step that turns the family of a root into frames in flight, followed by one step per released frame; the reads in between change nothing. Frames in holes are never handed out there; `HoleRuns.ConcurrentIff` says when that is so.
- Some methods of the program are split into smaller ones (`NextNode`, `MapStretch`, `CoalesceLeft` and others) so that each has its own contract.
- The recursive dump and the recursive free carry ghost arguments that name the level and the state they started from.
- `translate_or_else_allocate_page`, the Sv64 satp helpers, and unimplemented operations.
- `Hardware` has no supervisor mode, no MXR and SUM, and no update of A and D by the hardware; every leaf has A and D set.
- The binary logarithm of the stack layout is exact here; the program computes it in floating point.
- The kernel control block table, reading image files, waiting for kernels, logging, and the simulator back ends; the device accepts every transfer.
- How the hardware assigns stack slots to hardware threads is not part of this model; one slot per encoded id, downwards from the base, is assumed.
- Concrete platform constants are parameters.
