# The guest memory manager of libelkvm, modelled and proved in Dafny

libelkvm runs an ordinary Linux process inside a KVM guest. Its hard part is the memory manager: a
four-level page table built in a pool of pages, chunks of host memory handed to KVM, a region
allocator on top of the chunks, the process heap (brk, mmap, MAP_FIXED, munmap) on top of the
regions, and four clients that rely on all of it: the user stack, the initial process stack, the
split `read` and the loading of ELF segments. This project models these layers and proves what each
keeps over every run.

Where the program updates objects in place there is a class, and each of its methods is proved to do
what a function on values says (`View() == Spec(old(View()))`). The invariants and run theorems are
lemmas about those functions. `shared_ptr<Region>` becomes an index into a sequence of region
records, so that sharing and in-place update of a region are kept.

## Layers

| files | what they hold |
|---|---|
| PageArith, PageEntry | page arithmetic, the index shifts of the walk, the entry as a 64-bit word and as a record |
| PageTables, KernelPages | the table pool as a tree, the plain and the creating walk, the search for a free kernel page |
| Chunks, Pager, PagerRuns, PagerRanges | chunk translation, the abstract page map, the lookup cache, runs of the pager, ranges of pages |
| PagerX86 | class `PagerX86_64` |
| Allocator, RegionManager | the region allocator on values and class `RegionManager` |
| Mappings, BrkRuns, MmapRuns, HeapRuns | mappings, runs of brk, runs of mmap/MAP_FIXED/munmap, runs that mix them |
| HostRuns, FixedExample | where mmap without MAP_FIXED puts its mappings, over runs, and a run in which it fails |
| HeapManager, HeapStart | class `HeapManager`, and programs that use it from the start of a machine on |
| HostMemory, Lookups | bytes and words of host memory, lookups by the clients |
| StackRuns, Stack, Environ, SplitRead, ElfSegment | the clients |
| MachineStart | programs that use the clients from the start of a machine on |

## Results

* The four-level walk is a map from 36-bit page numbers to host pages with rights, in every state of
  every run of maps, frees, kernel maps, lookups and new chunks (`PagerRuns.RunRefines`). Effective
  rights over all four levels after a run are the options of the page's last successful map
  (`PagerRuns.RightsOfLastMap`).
* The lookup cache: after any run from an empty cache a lookup gives what the uncached walk gives if
  and only if a condition on the run holds (`PagerRuns.CacheExact`): the slot of the page was never
  filled, and it is not page 0, or it went to another page, or the page still has the host page that it
  had at its first lookup since. A wrong answer takes a lookup, a later `free_page` and now another host
  page or none (`PagerRuns.StaleTakesFree`), and freeing and mapping again, as MAP_FIXED does, is enough
  (`PagerRuns.StaleAfterRemap`).
* Page tables come from a pool of 4096 pages. Mapping charges three pages for each block of 512 pages
  that has no page table yet, once for a whole run (`PagerRanges.NeedStep`), so that a heap or a stack
  that has room for its blocks at the start never runs out (`HeapStart.BrkAll`).
* Regions tile the chunks in every run of allocating, freeing and cutting
  (`Allocator.RunConserves`), and the free-list search is complete (`Allocator.FindFreeComplete`).
* brk: contiguous mappings, exactly the pages from the segment's base to the break present, surviving
  pages keep their host page (`BrkRuns.RunKeeps`); every growth is recorded on the list of mmap
  (`BrkRuns.GrowthRecorded`). The assert in `HeapManager::init` holds exactly
  when the segment size is not a multiple of the page size (`BrkRuns.InitStarts`).
* mmap and munmap: lockstep of mapping, region and pages, and `mapped_pages` is the number of pages
  still present (`MmapRuns.RunKeeps`); MAP_FIXED replaces exactly its range in all three slice cases
  (`MmapRuns.FixedReplaces`), and the caller gets the rights, file and offset it asked for
  (`MmapRuns.GetMappingDelivers`). A slice does what it should if and only if every page of the mapping is
  mapped and one is left (`MmapRuns.SliceExact`).
* brk, mmap, MAP_FIXED and munmap in any order: both invariants hold in every state of every run, no
  region serves both, brk changes no page outside its range, mmap and munmap none inside
  (`HeapRuns.RunKeeps`, `HeapRuns.StepKeeps`).
* mmap without MAP_FIXED goes to the host address of its region. In every run of brk, such mmap calls
  and munmap the pages there are free, so that none of the asserts on the way can fail
  (`HostRuns.RunGoes`). MAP_FIXED ends this unless the hole stays with a region in use, exactly
  (`HostRuns.FixedKeepsIff`), and five calls are enough to make an mmap abort
  (`FixedExample.NextMmapAborts`).
* The stack is last in, first out across expansions (`StackRuns.RunRefines`,
  `StackRuns.LastInFirstOut`); the initial stack reads back as the ABI asks, with every string where
  the guest reads it (`Environ.Environment.Create`, `Environ.SetupEnvironment`); the split read is one
  read (`SplitRead.DoRead`), for a straight buffer under an exact condition (`SplitRead.PiecesRightIff`),
  and a read of no bytes reaches its handler, fails an assert or loops for
  ever, exactly as told by the byte before the buffer (`SplitRead.ZeroCount`, `SplitRead.ZeroLoops`); a
  segment is seen by the guest as its file bytes and zeros (`ElfSegment.LoadPhdr`).
* The preconditions can be met: `MachineStart.StartProcess` goes from a new machine to the initial process
  stack, `MachineStart.FirstRead` to a word read from a file onto the stack, `HeapStart.FirstMmap` to the
  first mapping.

## Model

| member | source | states |
|---|---|---|
| PageArith.PagesFromSize | src/pager.cc:734-740 | the least number of pages that hold a size |
| PageArith.PagesFromSizeFits | src/pager.cc:734-740 | the int that is returned is the page count if and only if the size is at most 2^31 - 1 pages |
| PageArith.PagesizeAlign | src/pager.cc:750-756 | the least page multiple not below a size, equal to the pages of that size |
| PageArith.PageRemain | src/pager.cc:742-744 | a positive distance, a whole page at most, to the next page boundary |
| PageArith.ShiftExtractsBits | src/pager.cc:377-383 | the 64-bit shift pair of find_table_entry extracts exactly bits low..high, for every pair of bounds |
| PageArith.WalkIndexIsDigit | src/pager.cc:377-383 | the index bits taken at the four levels are the base-512 digits of the page number |
| PageArith.DigitsInjective | src/pager.cc:603-635 | the four indices determine the 36-bit page number |
| PageArith.VpnInjective | src/pager.cc:603-635 | canonical addresses with one page number share their page |
| PageEntry.WordFields | src/pager.cc:704-706 | each bit test on an entry word sees the field of the record it stands for, and the address mask gives its frame |
| PageEntry.CreateEntryRefines | src/pager.cc:231-248 | create_entry, bit by bit, writes the word of the entry record with the given frame and rights |
| PageEntry.UpdateEntryRefines | src/pager.cc:651-666 | update_entry on a present word adds write and removes no-execute as asked and changes nothing else |
| PageTables.CreateTables | src/pager.cc:281-291 | a new table extends one path by one step and changes no other path at any level |
| PageTables.WalkCreateRefines | src/pager.cc:572-601 | a bare creating walk changes no translation, keeps the invariant, ends in a table of the pool and takes at most three pool pages, none if the path was there |
| PageTables.MapPageRefines | src/pager.cc:537-570 | a map sets the entry of one page and no other; it fails exactly if the entry is present with another frame, and then changes no answer |
| PageTables.FreePageRefines | src/pager.cc:385-394 | free removes one answer, fails exactly if there is none, and takes no pool page |
| PageTables.EffectiveRights | src/pager.cc:231-248 | user, write and execute rights over all four levels equal those of the leaf entry |
| PageTables.LeafSlotUnique | src/pager.cc:367-383 | two pages never share a page-table entry |
| PageTables.TablesFormATree | src/pager.cc:281-291 | a table occurs at one level only, and pages that meet in it agree on every index above: one upper entry refers to it |
| PageTables.EveryTableReached | src/pager.cc:271-291 | every pool page in use is a table on the path of some page |
| PageTables.EmptyTablesInv | src/pager.cc:271-279 | a zeroed top table satisfies the invariant and translates nothing |
| KernelPages.SearchKeeps | src/pager.cc:502-511 | while it moves inside a table and across tables the search stands on the entry of its address, passes only present pages, and stops at the first free candidate |
| KernelPages.SearchStops | src/pager.cc:502-511 | a search cannot pass more full page tables than the pool has tables |
| KernelPages.PoolUse | src/pager.cc:498-511 | all creating walks of one search together take at most three pool pages |
| KernelPages.MapKernelRefines | src/pager.cc:491-520 | the page found was free, is in the kernel half, gets the frame, and no other page changes |
| Chunks.AllocKeeps | src/pager.cc:206-229 | a chunk for a fresh range gets its own guest-physical range and its own slot |
| Chunks.ReleaseKeeps | src/pager.cc:441-449 | releasing one chunk keeps ranges and slots of the others distinct |
| Chunks.RunKeeps | src/pager.cc:206-229 | under any order of allocation and release live chunks have disjoint host and guest-physical ranges and distinct slots |
| Chunks.RunPlaces | src/pager.cc:206-229 | over every run guest-physical memory is handed out in order and never again: a chunk starts behind all bytes asked for before it |
| Chunks.SlotReused | src/pager.cc:441-449 | the slot of a released chunk is the next one to be used |
| Chunks.ByteOfChunk | src/pager.cc:412-439 | byte i of a chunk in host memory is byte i of it in guest-physical memory, both ways |
| Chunks.NullOutside | src/pager.cc:431-439 | the lookups give 0 if and only if no chunk holds the address, but for guest-physical address 0 itself |
| Chunks.HostRoundTrip | src/pager.cc:412-439 | host to guest-physical and back is the identity on every address of a chunk, through the same chunk |
| Chunks.PhysRoundTrip | src/pager.cc:412-439 | guest-physical to host and back is the identity on every address of a chunk |
| Chunks.AllocKeepsTranslations | src/pager.cc:206-229 | a later chunk changes no existing translation |
| Pager.MapUserPageRefines | src/pager.cc:537-570 | on the page map, map_user_page sets exactly one key to the given host page and rights; it fails without change exactly if the key is present with another host page (-1) or the offsets in the page differ (-5) |
| Pager.FreePageRefines | src/pager.cc:385-394 | free_page removes exactly one key and fails exactly if the page is not present |
| Pager.MapKernelPageRefines | src/pager.cc:491-520 | the returned address is 0xFFFF_0000_0000_0000 plus 4096 times the first free page of the search plus the offset of the host address, hence 0xFFFF_8000_0000_0000 if that page is free; the search looks at the first 512 pages from there on and then at the upper half of each table; the page now translates to the host page and no other key changes |
| Pager.AddChunkRefines | src/pager.cc:250-269 | a new chunk changes no page |
| Pager.UncachedIsPage | src/pager.cc:396-429 | the uncached lookup is the host page of the page number plus the offset, and null exactly if the entry is not present |
| Pager.LookupExact | src/pager.cc:396-411 | a lookup equals the walk if and only if the slot does not match the address or holds the present host page |
| Pager.LookupAgrees | src/pager.cc:396-411 | with the cache in order a lookup equals the walk if and only if the address is above page 0 or its slot was filled |
| Pager.LookupKeeps | src/pager.cc:396-429 | a lookup keeps the cache in order and the page map as it is, and address 0 is null |
| PagerRuns.RunRefines | src/pager.cc:385-570 | every run of the pager is a run of the abstract page map, and the invariant holds at its end |
| PagerRuns.HostsStay | src/pager.cc:559-568 | no operation but the freeing of that page changes the host page of a present page |
| PagerRuns.RightsOfLastMap | src/pager.cc:231-248 | after any run the user, write and execute rights of a present page over all four levels are the options of its last successful map, user or kernel |
| PagerRuns.CacheExact | src/pager.cc:109-179 | after any run from an empty cache, freed pages and page 0 included, a lookup equals the uncached walk if and only if its slot is empty and the page is not page 0, or was taken by another page whose number differs by a multiple of 4096, or holds the host page that is now present |
| PagerRuns.StaleTakesFree | src/pager.cc:385-411 | a lookup that differs from the walk was preceded by a lookup that filled the slot with the old host page, and by a free of that page behind it; the page now has another host page or none |
| PagerRuns.CacheAgrees | src/pager.cc:109-179 | after any run from an empty cache, a lookup of any page the run did not free equals the uncached walk, but for page 0 with an empty slot: if and only if |
| PagerRuns.StaleAfterFree | src/pager.cc:385-411 | a page that was looked up and then freed still answers with its old host address, while the walk answers null |
| PagerRuns.StaleAfterRemap | src/pager.cc:385-411 | looked up, freed and mapped to another host page: the cache answers with the old address, the walk with the new one |
| PagerRanges.NeedStep | src/pager.cc:281-291 | the pool pages in use and still to come for a set of blocks do not grow when a page of these blocks is mapped, and they cover what the map takes |
| PagerX86.PagerX86_64.CreateMemChunk | src/pager.cc:250-269 | an unaligned size gives -5 and no change, otherwise the chunk table grows by the chunk and no page changes |
| PagerX86.PagerX86_64.HostToGuestPhysical | src/pager.cc:431-439 | the address shifted by its chunk, 0 outside every chunk |
| PagerX86.PagerX86_64.SetPml4 | src/pager.cc:195-204 | the pager is valid with an empty page map |
| PagerX86.PagerX86_64.TableIndex | src/pager.cc:377-383 | the index of a level is the digit of the page number |
| PagerX86.PagerX86_64.PageTableWalk | src/pager.cc:603-635 | the loop finds the leaf slot of the address exactly if its entry is present |
| PagerX86.PagerX86_64.UpdateEntry | src/pager.cc:651-666 | the tables become those of update_entry on values |
| PagerX86.PagerX86_64.PageTableWalkCreate | src/pager.cc:572-601 | the loop builds the path of the creating walk, ends on the leaf slot, and changes no page |
| PagerX86.PagerX86_64.MapUserPage | src/pager.cc:537-570 | the state becomes that of map_user_page on values, with its error |
| PagerX86.PagerX86_64.FreePage | src/pager.cc:385-394 | the state becomes that of free_page on values, with its error |
| PagerX86.PagerX86_64.GetHostP | src/pager.cc:396-429 | result and cache are those of the lookup on values, and no page changes |
| PagerX86.PagerX86_64.MapRegion | src/pager.cc:522-535 | succeeds exactly if every page of the range is free or has its host page already; then the range is mapped linearly, otherwise a proper prefix of it is; each block of 512 pages is charged to the pool once |
| PagerX86.PagerX86_64.UnmapRegion | src/pager.cc:637-649 | succeeds exactly if every page of the range is present; then exactly the range is gone, otherwise exactly the pages before the first absent one |
| PagerX86.PagerX86_64.MapKernelPage | src/pager.cc:491-520 | the search loop reaches the state and address of map_kernel_page on values; the address and the one changed page are those stated in MapKernelPageRefines, written out |
| Allocator.FreelistIdxBounds | src/region_manager.cc:183-221 | class k ends at 2^k pages and starts where class k - 1 ends |
| Allocator.GrowSize | src/region_manager.cc:115-130 | the least page multiple that is at least the request and at least 128 MiB |
| Allocator.FindFreeComplete | src/region_manager.cc:78-93 | the search fails if and only if no free region is large enough; otherwise its region is free, large enough and of the smallest class with a fit |
| Allocator.SliceBeginKeeps | src/region.cc:88-105 | cutting the front of a region keeps regions disjoint and covering; what both parts are, field by field |
| Allocator.SliceCenterKeeps | src/region.cc:107-126 | cutting a hole into a region keeps regions disjoint and covering; what the three parts are, field by field, with the tail at the guest address of the hole |
| Allocator.AllocateKeeps | src/region_manager.cc:54-76 | every request is served with exactly the page-aligned size by a region that was not in use, with no region in use changed |
| Allocator.FreeRegionKeeps | src/region_manager.cc:137-145 | freeing takes exactly one region out of use and keeps the invariant |
| Allocator.CutMiddleKeeps | src/heap.cc:350-355 | slice_region keeps the invariant and puts exactly the tail into use |
| Allocator.RunConserves | src/region_manager.cc:54-181 | over every run the regions tile the chunks: each address of a chunk lies in exactly one region, and a region is on the allocated list exactly if its flag says so |
| RegionManagers.RegionManager.constructor | src/region_manager.cc:35-42 | the manager starts valid with one chunk of 128 MiB at guest-physical address 0, its first 16 MiB in use as the page-table pool, an empty page map and an empty cache |
| RegionManagers.RegionManager.FindFreeRegion | src/region_manager.cc:78-93 | the loops find and take the region of the search on values, or change nothing |
| RegionManagers.RegionManager.AddFreeRegion | src/region_manager.cc:132-135 | the region joins the free list of its class |
| RegionManagers.RegionManager.UseRegion | src/region_manager.cc:177-181 | the region joins the allocated list with its flag cleared |
| RegionManagers.RegionManager.SliceBegin | src/region.cc:88-105 | the arena becomes that of slice_begin on values, with the new handle |
| RegionManagers.RegionManager.SliceCenter | src/region.cc:107-126 | the arena becomes that of slice_center on values, with both new handles |
| RegionManagers.RegionManager.FreeRegion | src/region_manager.cc:137-145 | the lists become those of free_region on values, and the invariant holds |
| RegionManagers.RegionManager.AddChunk | src/region_manager.cc:115-130 | the pager gets the chunk and the free lists a region of its size |
| RegionManagers.RegionManager.AllocateRegion | src/region_manager.cc:54-76 | lists, arena and chunks become those of allocate_region on values, which serves the request |
| RegionManagers.RegionManager.Allocate | src/region_manager.cc:54-76 | on a running manager the new region is not the page-table pool, and no page changes |
| RegionManagers.RegionManager.FindRegion | src/region_manager.cc:95-103 | finds a region in use that holds the host address, or there is none |
| RegionManagers.RegionManager.CutFront | src/heap.cc:381-387 | the front of a region in use goes to the free lists and the manager stays valid |
| RegionManagers.RegionManager.CutMiddle | src/heap.cc:350-355 | the hole goes to the free lists, the tail is in use and is not the pool, and the manager stays valid |
| Mappings.FindSame | src/mapping.cc:252-262 | the first entry of a list equal to the mapping, -1 if there is none |
| Mappings.FoundIffRecorded | src/mapping.cc:252-262 | the search succeeds if and only if an entry agrees with the mapping in all but region and read right |
| Mappings.MapRecords | src/heap.cc:244-273 | map leaves an equal mapping on the list; the old list is a prefix, and all of it if and only if it held one; the region is not free afterwards |
| BrkRuns.PopKeeps | src/heap.cc:39-45 | unmapping the last mapping keeps the chain below it with its pages |
| BrkRuns.TrimKeeps | src/heap.cc:422-434 | slicing the end of the last mapping leaves exactly the pages below the new end |
| BrkRuns.GrowKeeps | src/mapping.cc:195-208 | growing inside the region has the asked size and adds exactly the pages up to the new break |
| BrkRuns.FillKeeps | src/mapping.cc:56-61 | grow_to_fill maps the region to its end and keeps the pages before |
| BrkRuns.AppendKeeps | src/heap.cc:66-73 | a mapping on a new region continues the chain where it ended |
| BrkRuns.FreeUnusedKeeps | src/heap.cc:39-45 | the loop leaves a chain whose last mapping starts below the new break, with its pages, and the list of mmap as it was |
| BrkRuns.ShrinkKeeps | src/heap.cc:47-64 | shrinking to any address, aligned or not, leaves exactly the pages up to the next page boundary, with their host pages, and the list of mmap as it was |
| BrkRuns.ShrinkAssert | src/heap.cc:55-60 | the assert of shrink fails if and only if the new break lies in the last page and the last mapping does not end at a page boundary |
| BrkRuns.BrkKeeps | src/heap.cc:75-106 | one brk call: contiguous mappings, exactly the pages from base to the break, pages below both breaks unchanged |
| BrkRuns.GrowthRecorded | src/heap.cc:85-104 | a growing brk makes the last mapping longer inside its region; beyond it the last mapping fills the region and a readable and writable, anonymous mapping follows; each of them is recorded on the list of mmap, whose old entries stay |
| BrkRuns.InitStarts | src/heap.cc:221-229 | init of a loaded segment adds one mapping, given field by field, which starts the chain, and sets the break; the assert on the new break holds if and only if the size is not a multiple of the page size |
| BrkRuns.RunKeeps | src/heap.cc:39-106 | over every sequence of page-aligned brk calls above the segment, growing or shrinking across regions, the invariant holds and pages below the lowest break keep their host page |
| MmapRuns.UnmapPartKeeps | src/heap.cc:328-348 | unmapping some pages removes exactly them and lowers the count by their number; the region stays in use |
| MmapRuns.UnmapAllKeeps | src/heap.cc:328-348 | with the last page the mapping goes and its region is free again, and none of its pages is present |
| MmapRuns.SliceFrontKeeps | src/heap.cc:381-387 | slice_begin takes exactly the first pages out of page map and mappings; the resulting list, field by field |
| MmapRuns.SliceMiddleKeeps | src/heap.cc:389-420 | slice_center takes exactly the middle pages out; head and tail keep their translation in two mappings; the resulting list, field by field, with file and offset of the tail |
| MmapRuns.SliceEndKeeps | src/heap.cc:422-434 | slice_end takes exactly the last pages out; the resulting list, field by field |
| MmapRuns.SliceKeeps | src/heap.cc:357-379 | in all three cases exactly the requested pages are gone from the page map and from every mapping, and brk keeps its list, pages and regions |
| MmapRuns.SliceDangles | src/heap.cc:342-345 | a slice of all pages that a mapping has left, which no assert stops, goes on with a mapping that is gone from its list and whose region is free |
| MmapRuns.SliceExact | src/heap.cc:357-379 | a slice that its asserts let through, or that takes the last pages, takes out exactly the requested pages with the invariant kept if and only if every page of the mapping was mapped and the slice is not the whole of it |
| MmapRuns.CanSliceIff | src/mapping.cc:63-66 | a slice of a full mapping gets past its asserts if and only if, at the front, its length is below that of the mapping, both as they are and cut to 32 bits |
| MmapRuns.FourGigabytes | src/mapping.cc:63-66 | so nothing can be cut off the front of a mapping of a multiple of 4 GiB |
| MmapRuns.CreateKeeps | src/heap.cc:189-208 | a new mapping on vacant pages is mapped linearly to its region and keeps every other mapping; it has the address, length, rights, file and offset asked for |
| MmapRuns.RemapKeeps | src/mapping.cc:89-117 | an exact match gets the new rights, file and offset on the same host pages, and no region and no other mapping changes |
| MmapRuns.FixedReplaces | src/heap.cc:153-187 | MAP_FIXED inside a full mapping: the range translates linearly to the new region, every other page translates as before, and the last mapping has the address, length, rights, file and offset asked for |
| MmapRuns.GetMappingDelivers | src/heap.cc:153-187 | what get_mapping hands its caller, in every heap: the first exact match with new rights, file and offset, or a mapping with them on the allocated region, at the fixed address or at the host address; nothing is sliced unless a mapping holds the fixed address |
| MmapRuns.RunKeeps | src/heap.cc:153-434 | in every state of every run of mmap, MAP_FIXED and munmap each mapping that mmap made has its region's host and guest base and fits in it, its count is the number of its present pages and not zero, and each present page is at host base plus offset with its rights |
| HeapRuns.MmapStepKeeps | src/heap.cc:153-434 | a step of mmap, MAP_FIXED or munmap outside the pages of brk keeps the brk list, the break and all its pages |
| HeapRuns.BrkFrame | src/heap.cc:39-106 | a brk call adds to the mmap list copies inside its own pages only, changes no page outside them and no region in use of another mapping |
| HeapRuns.BrkKeepsMmap | src/heap.cc:244-254 | so it keeps the invariant of the mappings that mmap made, and no region serves both |
| HeapRuns.StepKeeps | src/heap.cc:39-434 | every step keeps the common invariant and the pages below both breaks; brk changes only pages of its range, mmap and munmap only others |
| HeapRuns.RunKeeps | src/heap.cc:39-434 | in every state of every run that mixes brk, mmap, MAP_FIXED and munmap both invariants hold and pages below the lowest break have their first host page |
| HeapRuns.FixedInRun | src/heap.cc:153-187 | MAP_FIXED inside a full mapping anywhere in such a run changes exactly its range |
| HeapManagers.HeapManager.FindIn | src/heap.cc:251-254 | the loop finds the first equal mapping |
| HeapManagers.HeapManager.Map | src/heap.cc:244-273 | list and pages become those of map on values, and an equal mapping is on the list afterwards, as stated in MapRecords |
| HeapManagers.HeapManager.FreeMapping | src/heap.cc:210-219 | the first equal entry leaves its list |
| HeapManagers.HeapManager.UnmapPart | src/heap.cc:328-348 | heap, regions and pages become those of unmap on values, and other regions stay in use |
| HeapManagers.HeapManager.FreeUnusedMappings | src/heap.cc:39-45 | the loop reaches the heap of the recursion on values |
| HeapManagers.HeapManager.Shrink | src/heap.cc:47-64 | for any break that the code does not assert against: the heap becomes that of shrink on values, the pages up to the next page boundary are left, the list of mmap stays and no table is taken |
| HeapManagers.HeapManager.GrowBeyond | src/heap.cc:66-73 | the last region is filled and a mapping on a served region appended |
| HeapManagers.HeapManager.Brk | src/heap.cc:75-106 | the heap becomes that of brk on values for a granted allocation; growth leaves the lists stated in GrowthRecorded, shrinking the list of mmap as it was; every brk region is in use, and the room for tables is left as it was |
| HeapManagers.HeapManager.Init | src/heap.cc:221-229 | the heap becomes that of init on values |
| HeapManagers.HeapManager.SliceBegin | src/heap.cc:381-387 | heap, regions and pages become those of slice_begin on values |
| HeapManagers.HeapManager.SliceCenter | src/heap.cc:389-420 | heap, regions and pages become those of slice_center on values, with the tail mapping |
| HeapManagers.HeapManager.SliceEnd | src/heap.cc:422-434 | heap and pages become those of slice_end on values |
| HeapManagers.HeapManager.Slice | src/heap.cc:357-379 | dispatches to the case of slice on values |
| HeapManagers.HeapManager.CreateMapping | src/heap.cc:189-208 | a region is allocated that serves the request, and the mapping is created on it |
| HeapManagers.HeapManager.Remap | src/mapping.cc:89-117 | the mapping of an exact match becomes that of modify and map on values |
| HeapManagers.HeapManager.GetMapping | src/heap.cc:153-187 | both searches, the slice and the creation make one step of get_mapping on values, which delivers what GetMappingDelivers states |
| HostRuns.PlaceIsFree | src/mapping.cc:32-54 | the region that the allocator hands out for a mapping without address has its own host range as free guest pages, if pages in use at host addresses of chunks lie in regions in use |
| HostRuns.GoesThroughIff | src/heap.cc:265-271 | the assert behind map_region holds for such a mapping if and only if its pages are free |
| HostRuns.MmapGoes | src/heap.cc:184-187 | in a settled heap every such call meets all conditions of mmap on values |
| HostRuns.BrkSettles | src/heap.cc:75-106 | brk keeps a heap settled |
| HostRuns.MunmapSettles | src/heap.cc:328-348 | munmap, in part or as a whole, keeps a heap settled |
| HostRuns.RunGoes | src/heap.cc:39-348 | in every run of brk, mmap without MAP_FIXED and munmap each step is one of the mixed runs and each state is settled |
| HostRuns.FixedKeepsIff | src/heap.cc:153-187 | MAP_FIXED inside a mapping at its host address leaves pages at host addresses backed if and only if the hole is at the end of the mapping or the new region is the hole |
| FixedExample.NextMmapAborts | src/heap.cc:265-271 | behind mmap, mmap, munmap and MAP_FIXED the next mmap is granted a host range whose guest page is taken |
| HeapStart.MmapAnywhere | src/heap.cc:184-187 | mmap without MAP_FIXED, of any length: pages that were free translate to themselves afterwards, all others as before, the new mapping is live on a region that is not the pool, and the next call finds the same conditions |
| HeapStart.MapAndUnmap | src/heap.cc:328-348 | an mmap and the munmap of it leave page map and list as they were and the region free |
| HeapStart.FirstMmap | src/heap.cc:184-187 | from a new machine on such a call goes through |
| HeapStart.BrkAll | src/heap.cc:75-106 | any sequence of breaks between base and limit is a run of brk on values and may go on, with the room for tables paid for once |
| HeapStart.LoadData | src/elfloader.cc:314-347 | load_phdr with init behind it shows the guest the segment, at 0x100_0000 plus its address for the loader, and leaves a heap from which every mixed run may start |
| HostMemory.StoreFetch | src/stack.cc:62-84 | a stored 64-bit word reads back at its address and changes no word apart from it |
| HostMemory.StoredByte | src/stack.cc:62-76 | byte i of a stored word is the word divided by 256^i, modulo 256: the low byte comes first |
| Lookups.HostP | src/pager.cc:396-429 | for a page never freed the cached lookup gives host page plus offset, null exactly if it is not present |
| Lookups.PosixMemalign | src/pager.cc:250-269 | some page-aligned range that meets no chunk |
| StackRuns.TranslateIs | src/stack.cc:86-104 | a stack address translates to its offset in the region of its 2 MiB block |
| StackRuns.WordsApart | src/stack.cc:86-104 | distinct words of the stack do not overlap in host memory, across all regions |
| StackRuns.ExpandKeeps | src/stack.cc:86-104 | expansion covers 2 MiB more with a disjoint region and changes no word and no other page |
| StackRuns.PushKeeps | src/vcpu.cc:176-181 | a push, expanding or not, puts its value before the words that were there; memory outside the stack and present pages do not change |
| StackRuns.PopKeeps | src/vcpu.cc:168-174 | a pop returns the first word and leaves the others |
| StackRuns.RunRefines | src/stack.cc:62-104 | after any run of pushes and pops across expansions the stack holds the words of a plain list under the same run, one for each 8 bytes from rsp to 2^47, and covers [base, 2^47) with disjoint regions of 2 MiB |
| StackRuns.LastInFirstOut | src/vcpu.cc:168-181 | n pushes and n pops give the values back in reverse, restore rsp and leave the words above |
| Stacks.Stack.constructor | src/stack.cc:36-49 | the stack starts with one granted region from 0x7FFF_FFE0_0000 to 2^47; its 512 pages are the only ones that change, and regions in use stay |
| Stacks.Stack.Expand | src/stack.cc:86-104 | the stack becomes that of expand on values with a fresh granted region 2 MiB lower, and regions in use do not change |
| Stacks.Stack.Pushq | src/stack.cc:62-76 | one push step on values, expanding exactly if the page is not present |
| Stacks.Stack.Popq | src/stack.cc:78-84 | the word at rsp |
| Stacks.VCPU.Push | src/vcpu.cc:176-181 | the value is the newest word, and memory outside the stack stays as it was |
| Stacks.VCPU.Pop | src/vcpu.cc:168-174 | the newest word is returned and removed |
| MachineStart.StackLinear | src/stack.cc:86-104 | any part of the stack, across any number of regions, is a buffer for the split read |
| MachineStart.StartStack | src/stack.cc:36-49 | a new machine with a stack: rsp is 0x7FFF_FFE0_0000 and exactly the 512 pages above it are present |
| MachineStart.ReadWord | src/syscall.cc:465-514 | a word is pushed, read over and popped: the value is that of the 8 bytes unless the read was short, and the stack is as before |
| MachineStart.FirstRead | src/vcpu.cc:168-181 | from a new machine on a push and a pop give the value back, and such a read goes through |
| MachineStart.StartProcess | src/vm.cc:268-290 | from a new machine on the initial process stack is built and read back by the guest, with the auxiliary words stated in PairsAreAbi |
| Environ.TerminatedIffZero | src/environ.cc:49-64 | write_str leaves a NUL-terminated string if and only if the byte behind the text was zero before |
| Environ.WrittenString | src/environ.cc:49-64 | in clean memory the string is terminated and nothing else changes |
| Environ.EnvRegion.constructor | src/environ.cc:42-47 | the guest address of the region is its host address and the offset its size |
| Environ.EnvRegion.WriteStr | src/environ.cc:49-64 | the text lies below the old offset, with one byte to spare, at the returned address |
| Environ.Environment.PushStrCopy | src/environ.cc:219-222 | the string is in place, its address is the newest word, and strings above stay |
| Environ.Environment.PushStrings | src/environ.cc:202-213 | the reverse loop leaves the pointers in order, each to its string |
| Environ.PairsAreAbi | src/environ.cc:113-192 | the auxiliary words, with every type written out: entries in order without type 33; for a dynamic binary 3, 4, 5, 7 and 9 hold its phdr, phent, phnum, base and entry; types up to 14, 16, 17 and 23 hold the inherited number, all others a pointer to the string |
| Environ.PairsAreRaw | src/environ.cc:147-192 | the same on host memory, before any value is replaced |
| Environ.Environment.PushAuxvRaw | src/environ.cc:180-192 | each entry leaves its type and then its value or a pointer to its string, in order, with the numbers and the ignored type written out |
| Environ.Environment.FixAuxvDynamicValues | src/environ.cc:113-145 | the loop replaces exactly the values of the five types by the binary's; the assert behind it holds if and only if all five occur |
| Environ.Environment.PushAuxv | src/environ.cc:194-200 | the pairs, with the values of a dynamic binary in place, and one zero, and no AT_NULL pair |
| Environ.Environment.PushEnv | src/environ.cc:202-207 | the environment pointers behind a zero |
| Environ.Environment.PushArgs | src/environ.cc:209-217 | argc and the argv pointers |
| Environ.Environment.Create | src/environ.cc:224-241 | upward from rsp: argc, the argv pointers, 0, the environment pointers, 0, the pairs, then the old words; at every pointer the guest reads its whole terminated string, through the page map, on pages it may write and not execute; the pairs are those of PairsAreAbi |
| Environ.MapEnv | src/vm.cc:274-284 | the environment's region is mapped to its own host address: exactly 12 pages change, which may be written and not executed |
| Environ.SetupEnvironment | src/vm.cc:268-290 | allocation, mapping at the host address and create together leave that stack, whenever the strings fit into 12 pages |
| SplitRead.InOneRegion | src/syscall.cc:485-491 | a buffer that one region in use translates linearly, at any address, meets the condition of the split read |
| SplitRead.Contiguous | src/syscall.cc:485-491 | up to the end of its region, and no further, a buffer is contiguous in host memory |
| SplitRead.NextStarts | src/syscall.cc:481-483 | the address behind the end of a region is the first of its own region, as the loop asserts |
| SplitRead.Injective | src/syscall.cc:479-505 | distinct addresses of a buffer have distinct translations |
| SplitRead.PiecesRightIff | src/syscall.cc:479-505 | for a buffer that is straight everywhere the pieces land where the guest sees them, and the loop's assert holds, if and only if a region that backs one address of it backs all that it covers |
| SplitRead.PastTheMapping | src/heap.cc:422-434 | they do not across the end of a mapping whose region goes on, as slice_end leaves it |
| SplitRead.DeliveredMore | src/syscall.cc:493-504 | a further piece adds its bytes at their translations and keeps those before |
| SplitRead.ZeroCount | src/syscall.cc:465-473 | a read of 0 bytes reaches the handler if and only if the byte before the buffer is mapped into the same region; it fails the assert if and only if no region in use backs that byte; else a round of the loop leads back to its start |
| SplitRead.ZeroLoops | src/syscall.cc:479-505 | then runs of any number of rounds exist and none leaves the first state |
| SplitRead.SameRegion | src/region_manager.cc:172-175 | whether the region of one address holds another |
| SplitRead.ReadPiece | src/syscall.cc:479-505 | one round reads from the mark to the end of its region or of the buffer, and knows whether it was the last |
| SplitRead.ReadPieces | src/syscall.cc:473-506 | the loop delivers the bytes in order, returns their number, stops early exactly on a short read, and returns errno on failure |
| SplitRead.DoRead | src/syscall.cc:465-514 | stream byte i lies at the translation of buf + i for every byte delivered, nothing else changes, and the result is their number; it is the count exactly if no read was short |
| ElfSegment.File.ReadSegment | src/elfloader.cc:74-94 | whatever the short reads, exactly the bytes asked for arrive, in place and in order |
| ElfSegment.ImageWritten | src/elfloader.cc:397-424 | file bytes up to filesz and zeros up to memsz |
| ElfSegment.SeenThrough | src/pager.cc:522-535 | a linear mapping of whole pages shows byte i of the region at address i, with its rights |
| ElfSegment.Fill | src/elfloader.cc:397-424 | every byte of host memory: the padding, the file bytes, zeros for the rest of the memory size and as many more as the page of the file end has left, and nothing else changed |
| ElfSegment.FillFits | src/elfloader.cc:397-424 | the zeros end inside the region if and only if the segment ends inside a page and no further into it than its file bytes |
| ElfSegment.LoadPhdr | src/elfloader.cc:314-338 | guest byte load_addr + i is file byte offset + i below filesz and 0 from there to memsz, on writable pages, where load_addr is vaddr, plus 0x100_0000 for the loader; every other page is as before, and so is all host memory but the bytes of Fill |

## Conditions on the results

* Table pool: clients name the blocks of 512 pages that they will use; three tables for each of them
  that has no page table yet must fit into the pool's 4096 pages, at the start of a run.
* posix_memalign returns ranges that are page-aligned, not null and disjoint from all chunks.
* In runs that mix brk and mmap, brk stays between its base and a limit, and mmap, MAP_FIXED and munmap
  stay outside the pages between them. `HeapManager::map` puts a copy of the brk mapping on the mmap
  list at every growth; the copies lie between base and limit and are no mappings of mmap's own.
* A mapping that is split must have all its pages present. If a slice takes the last present pages of a
  mapping, the program goes on with a dangling reference; the model stops there. At its front a slice must leave something,
  also after both lengths are cut to 32 bits, as `Mapping::move_guest_address` asserts.
* Pages of a new mapping must not be in use, apart from those that MAP_FIXED replaces. Without
  MAP_FIXED the guest address is the host address of the region, which is free and stays so as long as
  MAP_FIXED is not used and posix_memalign returns ranges away from guest pages in use and from the pages of brk.
* A stack that expands needs 2 MiB of unused pages below it. `VCPU::push` drops the error of `pushq`.
* Strings of the initial stack are terminated because their region is zero; no code writes the NUL. Their
  region has its host address as guest address and is mapped there, away from the stack.
* A split read works on buffers whose every address is backed by a region in use that covers it and is
  linear there, where a region that backs one address of the buffer backs all that it covers. Their pages
  were not freed since they were cached.

## Left out

- KVM ioctls, registers, segments, VM exits, GDT, IDT and TSS: foreign calls and constant tables.
- Other system calls, stubs and handlers: they pass through to the host kernel. The split write loop advances by host adjacency and needs a strong extra condition.
- mremap, chunk_remap and the remap path of mmap: they use a mapping after it may have been erased.
- Sub-range mprotect: it recreates the range on a new region, so contents are not kept.
- PROT_NONE mappings: they collapse to length zero and are excluded by the permission conditions.
- Contents that `Mapping::fill` reads from a file, and the refill of an exact MAP_FIXED match.
- HeapManagers.HeapManager.Brk: takes page-aligned breaks above the last initialised segment only, since an unaligned shrink leaves lengths and pages apart.
- HeapManagers.HeapManager.Shrink: leaves out the breaks at which the code asserts (BrkRuns.ShrinkAssert).
- HeapManagers.HeapManager.Map: takes mappings with some permission only; the path for PROT_NONE unmaps and clears the mapping.
- HeapManagers.HeapManager.Remap: does not model the refill of contents by Mapping::modify.
- MmapRuns.RemapKeeps: does not model the refill of contents by Mapping::modify.
- PagerX86.PagerX86_64.CreateMemChunk: does not model failures of posix_memalign and of the KVM ioctl, which become preconditions, or the limit on the number of slots.
- PagerX86.PagerX86_64.GetHostP: keeps one cache for each pager object; in the program one static cache (src/pager.cc:397) serves the pagers of all machines, so pages of one may answer for another.
- PageArith.PagesFromSize: is the mathematical page count; where the int return type cuts it is the subject of PagesFromSizeFits.
- Stacks.Stack.constructor: does not allocate the one-page kernel stack; the search that maps it has its own rows.
- HeapManagers.HeapManager.CreateMapping: takes mappings with some permission only, as map does.
- HeapManagers.HeapManager.GetMapping: takes mappings with some permission only, as map does.
- HeapManagers.HeapManager.Slice: takes slices that leave a page of the mapping, since the program has a dangling reference otherwise; so do SliceBegin, SliceCenter and SliceEnd.
- HeapManagers.HeapManager.SliceBegin: takes slices that leave a page of the mapping.
- HeapManagers.HeapManager.SliceCenter: takes slices that leave a page of the mapping.
- HeapManagers.HeapManager.SliceEnd: takes slices that leave a page of the mapping.
- MmapRuns.RunKeeps: splits full mappings only, since the property fails on others exactly (MmapRuns.SliceExact).
- HeapRuns.RunKeeps: keeps mmap and munmap outside the pages of brk.
- SplitRead.DoRead: asks for a closed buffer, since a straight one is read right exactly then (SplitRead.PiecesRightIff).
- ElfSegment.LoadPhdr: does not model where the padding before the segment comes from, or text segments. The zero fill can end behind the region, exactly as ElfSegment.FillFits says.
- Free regions are not merged, in the program as in the model.
