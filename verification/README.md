# Verified models of a RISC-V kernel's core

This project models the parts of the kernel (and of its `expr` tool) whose correctness is hardest to see from the code, and proves
what they are for.

| files | what they model |
|---|---|
| `pagetable_spec.dfy`, `pagerange_spec.dfy`, `pagetable.dfy` | Sv39 page tables (section 4.4 of the RISC-V Privileged Architecture, version 20211203) as a flat partial map from addresses to addresses |
| `pageref.dfy`, `cow_spec.dfy`, `cow_counts.dfy`, `memspace.dfy`, `cow_runs.dfy` | copy-on-write address spaces: over every run they are what they would be if cloning copied every page |
| `virtptr.dfy`, `copy_spaces.dfy` | copying between buffers of two address spaces, and what the spaces see of it |
| `multiples.dfy`, `freelist_spec.dfy`, `allocator_spec.dfy`, `allocator.dfy` | the first-fit free lists of an allocator of any block size and the page allocator below it |
| `robinhood_spec.dfy`, `blockcache.dfy`, `blockdev.dfy` | the Robin Hood hash table, the block cache on it, and files on block devices as flat byte arrays |
| `minix_spec.dfy`, `minix_space.dfy`, `minix.dfy` | reading and writing through the zone tree of a Minix file as a flat sparse file |
| `vfscache.dfy`, `probing.dfy` | the cache of file system nodes, and walking round a hash table |
| `tasklock.dfy` | the sleeping recursive lock as a protocol of interleaved steps |
| `pipe_spec.dfy`, `pipe.dfy` | the transfer engine of pipes |
| `schedule.dfy` | the ready queue of forty priorities |
| `path_spec.dfy`, `path.dfy` | reducing a path in place |
| `expr.dfy`, `decimal_remainder.dfy` | decimal arithmetic of unbounded length |

Code that changes things in place is modelled by classes and methods with loops, which are proved against functions or relations on
values; what the source promises is proved about those. Hash functions are parameters (`hash`) of which nothing is known. Page frames
and kernel memory can always be allocated, except in the allocator itself and for the zones of a file system.

## Where the code does not do what one would expect

These are results of the project. The models do what the code does; for each item there are a lemma or a contract that says
exactly when it happens, and one that shows an input.

- `handlePageFault` copies a shared frame without lowering the recorded count of the old one (memspace.c:37-46), and mapping a page
  over another one leaves the count of the other frame as it is. These are the only steps that make a count too high
  (`CowCounts.FaultExactIff`, `CowCounts.MapFreshExactIff`, `CowCounts.MapZeroExactIff`; `CowCounts.ShareExact`,
  `CowCounts.FreeExact` and `CowCounts.StoreSlack` for the others; `CowCounts.MapOverExample`). The invariant is therefore that a
  recorded count is never too low (`CowSpec.FrameOk`).
- A frame can stay allocated without any mapping. A fault, and the removal of an entry, lose the frame exactly if the entry is its
  last mapping and there is a recorded count (`CowCounts.FaultLosesIff`, `CowCounts.FreeLosesIff`). Mapping a page over another one
  loses the frame of the other one exactly if that was its last mapping, recorded or not (`CowCounts.MapFreshLosesIff`,
  `CowCounts.MapZeroLosesIff`). No other step loses one (`CowCounts.ShareLosesNone`, `CowCounts.StoreLosesNone`). So the old frame
  is lost for every page that has been cloned and is then written on both sides, or written on one and freed on the other
  (`CowCounts.CloneWriteBothLeaks`, `CowCounts.CloneWriteFreeLeaks`, `CowCounts.LeakExample`). What has been lost stays lost over
  every run (`CowRuns.Continue`).
- `copyMemoryPageEntry` takes WRITE away from an entry and sets COPY. An entry that has only WRITE is no leaf any more after that
  (`CowSpec.ProtectedStaysLeaf`); the runs ask for READ or EXEC.
- `mapPageRange` rounds physical addresses down to the size of the leaf, so a range is mapped contiguously exactly if virtual and
  physical start agree modulo the largest leaf that is used (`PageRangeSpec.ContiguousIff`, `PageRangeSpec.MisalignedExample`).
- `virtToPhys` returns the start of the page when it has resolved a fault (memspace.c:70-72, `MemSpace.MemorySpaces.VirtToPhys`).
  The counting call of `getVirtPtrParts` then counts one part too many exactly if the buffer begins inside of a page that has just
  been copied, goes on behind it, and the next page is next to it in physical memory (`VirtPtrs.CountParts`).
  `memcpyBetweenVirtPtr` goes on to use a part that it has never set exactly if moreover the destination is mapped less far than the
  source (`VirtPtrs.MemcpyBetween`, `VirtPtrs.CutOffExample`).
- The list of operations that wait for a pipe has a tail that is never advanced (pipe.c:157-171). An operation joins the end of its
  list exactly if it is the first, or the second while the first is still there (`PipeSpec.QueueIff`); others replace the second one
  or are lost (`PipeSpec.LostWriter`, `PipeSpec.LostNext`).
- The transfer loop of a pipe does not end if a writer waits, no descriptor for writing is open and a reader wants more than there is
  (`PipeSpec.TerminationIff`, `PipeSpec.EndlessExample`, `PipeSpec.ReadReturnsIff`). From a pipe that is
  `Ready()` such a state cannot be reached as long as a writer that waits has a descriptor open: writing and closing always come
  back, and reading does if a descriptor is open (`Pipes.Pipe.ExecuteWrite`, `Pipes.Pipe.CloseForWriting`,
  `Pipes.Pipe.ExecuteRead`). In the kernel the call of the writer holds its descriptor (kernel/src/files/process.c:41-56).
- A write of no bytes to a full pipe waits although the capacity test admits it (`PipeSpec.WriteCompletesIff`,
  `PipeSpec.EmptyWriteWaits`), and a read can keep waiting behind a writer that has nothing to write (`PipeSpec.ReadCompletesIff`,
  `PipeSpec.ReadBehindEmptyWriterWaits`).
- An allocation loses the rest of its range exactly if the rest is smaller than a header (`FreeListSpec.TakeHas`,
  `FreeListSpec.LostRestExample`).
  `tryFreeingOldMemory` loses exactly what lies behind the last page boundary of a range (`FreeListSpec.TrimLost`;
  `FreeListSpec.UncoalescedExample` loses 0x800 bytes), and leaves two
  free ranges next to each other exactly if the allocator has no lower limit for what it returns, neither end of the range is the
  end of a page and there is no whole page to return (`FreeListSpec.UncoalescedIff`, `FreeListSpec.UncoalescedExample`: the
  allocator of the block cache).
- Subtracting zero from zero writes in front of its buffer; `Expr.SubInteger` and `Expr.AddInteger` say exactly for which operands
  (`Expr.ZeroMinusZeroExample`). `cmpInteger` takes "-0" for less than "0" (`Expr.CmpInteger`, `Expr.MixedZerosExample`).
- A remainder has a redundant zero in front exactly if the dividend is a multiple of the divisor followed by at least one digit, and
  these digits are a number less than the divisor, such as 100 or 105 by 10 (`Expr.DivRemInteger`, `Expr.RemInteger`,
  `DecimalRemainder.RedundantExample`, `Expr.RemainderExample`).
- A write that fails for want of space leaves what it has written so far in the zones, but not in the size of the file. It fails
  exactly if more zones are missing on the way to its bytes than there are free ones, and has written exactly the bytes for which
  they were enough (`Minix.MinixFile.WriteAt`, `MinixSpace.StoppedUnique`, `Minix.NoSpaceExample`). A later write is a write to the
  flat file exactly if nothing has been left in the gap between the end of the file and the write (`Minix.WriteFlatIff`,
  `Minix.StaleExample`).
- A reclaim pass of the block cache looks twice at a block that lies round the end of the table, before its home, and is moved back
  across the end. A block that does not lie there stays exactly if it is below the threshold at the beginning; one that does stays if
  it is at least two below it (`BlockTable.CachedBlockTable.Reclaim`), and may be dropped if it is one below it (`BlockTable.WrappedExample`).
- `executePipeOperation` returns EINTR for every operation that has moved no byte (pipe.c:175-176): exactly for an empty write
  or read, and for a read that has got nothing when the last descriptor for writing is closed
  (`Pipes.Pipe.ExecuteWrite`, `Pipes.Pipe.ExecuteRead`, `Pipes.Pipe.CloseForWriting`; `Pipes.EmptyWriteExample`,
  `Pipes.ClosedReadExample`).

## Model

| member | source | states |
|---|---|---|
| PageTableSpec.OneLeafTranslates | kernel/src/memory/pagetable.c:24-51 | a new leaf changes the translation of exactly the addresses that it covers in its own space, to the contiguous addresses of its frame, and gives exactly these addresses its flags |
| PageTableSpec.PruneWF | kernel/src/memory/pagetable.c:53-96 | taking away a table without valid entries leaves a well-formed forest with the same leaves |
| PageTable.PageMemory.MapPage | kernel/src/memory/pagetable.c:24-51 | the leaf map gains exactly the one leaf; new tables appear only above it, and no other table or frame changes hands |
| PageTable.PageMemory.TryToFreeTable | kernel/src/memory/pagetable.c:53-63 | a table is freed if and only if none of its entries is valid |
| PageTable.PageMemory.UnmapPage | kernel/src/memory/pagetable.c:65-96 | exactly the leaf that translates the address disappears, for leaves of any level; tables are freed only above it, and those that stay have a valid entry |
| PageTable.PageMemory.VirtToEntry | kernel/src/memory/pagetable.c:98-121 | finds the entry of the leaf that covers the address, and nothing if and only if there is none |
| PageTable.PageMemory.UnsafeVirtToPhys | kernel/src/memory/pagetable.c:123-147 | the walk computes the flat translation, 0 where nothing is mapped |
| PageTable.PageMemory.TryMapingRangeAtLevel | kernel/src/memory/pagetable.c:202-219 | every address of the range gets the translation that the superpage split gives it and exactly the flags that were asked for, also where leaves of these sizes were before; no translation and no flags outside of the range change, and the range can be mapped again |
| PageTable.PageMemory.MapPageRange | kernel/src/memory/pagetable.c:221-225 | the same for a range that is widened to whole pages |
| PageTable.PageMemory.MapPageRangeAtLevel | kernel/src/memory/pagetable.c:227-232 | the range is mapped with leaves of one level and exactly the flags that were asked for, over leaves of that level or none, and only the range; every other address keeps its flags |
| PageTable.PageMemory.MapIdentity | kernel/src/memory/pagetable.c:202-232 | after any disjoint identity ranges every address in them translates to itself with exactly the flags of its range and every other address to nothing, for any superpage split; the flags in other spaces stay |
| PageRangeSpec.FlaggedGrows | kernel/src/memory/pagetable.c:202-232 | two neighbouring ranges with the flags that were asked for are one |
| PageTable.OneLeafFlags | kernel/src/memory/pagetable.c:24-51 | a leaf of any level gives its flags to exactly the addresses that it covers, and every other address of every space keeps the flags it had |
| PageRangeSpec.ContiguousIff | kernel/src/memory/pagetable.c:202-232 | a range is mapped contiguously if and only if physical and virtual start agree modulo the largest leaf used |
| PageRangeSpec.MisalignedExample | kernel/src/memory/pagetable.c:202-232 | a range and a physical address for which it is not |
| PageRef.PageRefTable.RebuildPageRefTable | kernel/src/memory/pageref.c:9-27 | the map of counts survives a rebuild, which drops all dead slots |
| PageRef.PageRefTable.TestForResize | kernel/src/memory/pageref.c:29-37 | the map stays, and the load is bounded so that every probe ends |
| PageRef.PageRefTable.HasOtherReferences | kernel/src/memory/pageref.c:39-60 | true exactly for the zero page and the pages with a recorded count |
| PageRef.PageRefTable.AddReferenceFor | kernel/src/memory/pageref.c:62-85 | the count becomes one more, or 2 if there was none, although dead slots may carry the same key several times |
| PageRef.PageRefTable.RemoveReferenceFor | kernel/src/memory/pageref.c:87-107 | the count becomes one less, and is dropped when it falls below 2 |
| PageRef.InsertWF | kernel/src/memory/pageref.c:62-85 | reusing a dead slot of the probe keeps all other pages reachable |
| PageRef.RecountWF | kernel/src/memory/pageref.c:87-107 | changing a count, or leaving a dead slot, keeps all other pages reachable |
| CowSpec.FaultKeeps | kernel/src/memory/memspace.c:19-58 | resolving a fault makes the entry writable, changes nothing that any process sees and keeps the frame invariant, copying or not |
| CowSpec.FreeKeeps | kernel/src/memory/memspace.c:95-119 | freeing an entry takes one page from one space, and gives its frame back only if no other entry maps it |
| CowSpec.ShareKeeps | kernel/src/memory/memspace.c:148-166 | sharing a frame gives the copy what the original sees, changes nothing else and keeps the frame invariant |
| CowSpec.ProtectedStaysLeaf | kernel/src/memory/memspace.c:148-166 | an entry stays a leaf when it is write-protected if and only if it has READ or EXEC, with an entry that does not |
| CowSpec.MapFreshKeeps | kernel/src/memory/pagetable.c:24-51 | mapping a new private frame adds one page with its bytes to one space |
| CowSpec.MapZeroKeeps | kernel/src/memory/pagetable.c:24-51 | mapping the zero page without WRITE adds a page of zeros to one space |
| CowSpec.StoreByteKeeps | kernel/src/memory/memspace.c:36-53 | a store through a writable entry changes one byte of one page of one space, since nobody else maps the frame |
| CowCounts.FaultSlack | kernel/src/memory/memspace.c:19-58 | by how much a fault changes the difference between the recorded count and the number of mappings, for every frame: one more for the old frame of a copy, nothing otherwise |
| CowCounts.MapSlack | kernel/src/memory/pagetable.c:24-51 | the same for mapping a page: one more for the frame that was mapped there |
| CowCounts.FaultExactIff | kernel/src/memory/memspace.c:19-58 | exact counts stay exact through a fault if and only if it does not copy a shared frame |
| CowCounts.ShareExact | kernel/src/memory/memspace.c:148-166 | exact counts stay exact when a frame is shared |
| CowCounts.FreeExact | kernel/src/memory/memspace.c:95-119 | exact counts stay exact when an entry is freed |
| CowCounts.MapFreshExactIff | kernel/src/memory/pagetable.c:24-51 | exact counts stay exact when a new frame is mapped if and only if nothing but the zero page was mapped there |
| CowCounts.MapZeroExactIff | kernel/src/memory/pagetable.c:24-51 | the same for mapping the zero page |
| CowCounts.StoreSlack | kernel/src/memory/memspace.c:36-53 | a store changes no difference between count and mappings |
| CowCounts.FaultLosesIff | kernel/src/memory/memspace.c:19-58 | which frames are allocated without a mapping after a fault: those of before, and the old frame if and only if this was its last mapping and it has a recorded count |
| CowCounts.FreeLosesIff | kernel/src/memory/memspace.c:95-119 | the same after freeing an entry |
| CowCounts.MapFreshLosesIff | kernel/src/memory/pagetable.c:24-51 | the same after mapping a new frame: those of before, and the frame whose only mapping was there |
| CowCounts.MapZeroLosesIff | kernel/src/memory/pagetable.c:24-51 | the same after mapping the zero page |
| CowCounts.ShareLosesNone | kernel/src/memory/memspace.c:148-166 | sharing a frame loses none |
| CowCounts.StoreLosesNone | kernel/src/memory/memspace.c:36-53 | a store loses none |
| CowCounts.CloneWriteBothLeaks | kernel/src/memory/memspace.c:19-166 | cloning a page and writing to it on both sides loses the old frame, in every state |
| CowCounts.CloneWriteFreeLeaks | kernel/src/memory/memspace.c:19-166 | cloning a page, writing to it and freeing the clone loses the old frame, in every state |
| CowCounts.LeakExample | kernel/src/memory/memspace.c:19-166 | a state with exact counts where both happen |
| CowCounts.MapOverExample | kernel/src/memory/pagetable.c:24-51 | a state with exact counts where mapping over a page makes a count too high and loses the frame without a recorded count |
| MemSpace.MemorySpaces.HandlePageFault | kernel/src/memory/memspace.c:19-58 | succeeds exactly for entries with COPY, which have WRITE instead of it afterwards and otherwise the same flags, and no process sees a difference |
| MemSpace.MemorySpaces.VirtToPhys | kernel/src/memory/memspace.c:60-93 | a read gives the address in the frame exactly if the page has READ or everything is allowed, and 0 otherwise; a write gives it if the page has WRITE, or has neither WRITE nor COPY and everything is allowed; a write to a page with COPY resolves the fault and gives the start of the page, so right if and only if the address is one |
| MemSpace.MemorySpaces.FirstTranslation | kernel/src/memory/memspace.c:60-93 | the first translation of a buffer that is written falls short of the translation by the offset in its page if it resolves a fault, and by nothing otherwise |
| MemSpace.MemorySpaces.FreePageEntryData | kernel/src/memory/memspace.c:95-111 | lowers the recorded count or gives the frame back, as the value-level step says |
| MemSpace.MemorySpaces.UnmapAndFreePage | kernel/src/memory/memspace.c:113-119 | removes exactly one page from one space, or nothing |
| MemSpace.MemorySpaces.FreePagesInTable | kernel/src/memory/memspace.c:121-137 | removes exactly the pages below a table, and the tables below it |
| MemSpace.MemorySpaces.FreeMemorySpace | kernel/src/memory/memspace.c:139-141 | empties one space and changes no other |
| MemSpace.MemorySpaces.DeallocMemorySpace | kernel/src/memory/memspace.c:143-146 | the same, and the root table is gone |
| MemSpace.MemorySpaces.CopyMemoryPageEntry | kernel/src/memory/memspace.c:148-166 | performs the sharing step on the two entries |
| MemSpace.MemorySpaces.CopyAllPagesAndAllocUsers | kernel/src/memory/memspace.c:168-191 | the destination sees a copy of everything below the source table, and every other space what it saw before |
| MemSpace.MemorySpaces.CloneMemorySpace | kernel/src/memory/memspace.c:193-202 | the new space sees what the old one sees, and nobody else sees a difference |
| MemSpace.MemorySpaces.MapFreshPage | kernel/src/memory/pagetable.c:24-51 | one space sees one new page with the given bytes, through a leaf with exactly the given flags; every other leaf stays |
| MemSpace.MemorySpaces.MapZeroPage | kernel/src/memory/pagetable.c:24-51 | one space sees one new page of zeros, through a leaf of the zero page with exactly the given flags; every other leaf stays |
| MemSpace.MemorySpaces.Store | kernel/src/memory/memspace.c:19-58 | a store, with its fault if there is one, succeeds exactly if the page is writable to the process and changes one byte of one space |
| CowRuns.InPlaceRelated | kernel/src/memory/memspace.c:19-146 | a step in one space corresponds to the step of the model in which spaces share nothing |
| CowRuns.CloneRelated | kernel/src/memory/memspace.c:193-202 | cloning corresponds to copying all pages at once |
| CowRuns.Step | kernel/src/memory/memspace.c:19-202 | every step keeps the relation to the model in which spaces share nothing |
| CowRuns.Continue | kernel/src/memory/memspace.c:19-202 | over every run from any valid state each space sees what it would see if cloning copied all pages at once, and a frame that is allocated without a mapping stays so |
| CowRuns.Run | kernel/src/memory/memspace.c:19-202 | the same from the empty system, over every run of creating, mapping, cloning, faulting, storing, unmapping and freeing |
| VirtPtrs.GetParts | kernel/src/memory/virtptr.c:45-71 | the parts divide the beginning of the buffer into maximal physically contiguous runs that agree with the translation of the page table, with leaves of any level; all its bytes have READ, or WRITE for a write, unless everything is allowed, and the first byte behind it has not, or is not mapped; the count is right however many parts are stored |
| VirtPtrs.CountParts | kernel/src/memory/virtptr.c:45-71 | the call that only counts finds the number of parts, and one more if and only if its first translation has resolved a fault inside of a page and the run goes on behind that page |
| VirtPtrs.PartsUnique | kernel/src/memory/virtptr.c:45-71 | there is only one such division, so counting and then storing is sound |
| VirtPtrs.PresentFlags | kernel/src/memory/memspace.c:60-93 | how far a buffer is there, by the flags of the leaves that cover its addresses |
| VirtPtrs.CopyStep | kernel/src/memory/virtptr.c:110-124 | moving one piece extends the copied prefix and touches nothing else |
| VirtPtrs.MemcpyBetween | kernel/src/memory/virtptr.c:99-125 | exactly the bytes before the first one without WRITE in the destination or READ in the source, by the flags of the leaves, are copied from virtual source to virtual destination, and no other byte of memory changes; when exactly the loop goes on with a part that has not been set |
| VirtPtrs.CutOffExample | kernel/src/memory/virtptr.c:99-125 | two buffers, apart and in memory, for which it does |
| CopySpaces.BuffersApart | kernel/src/memory/virtptr.c:99-100 | buffers that do not overlap in virtual memory have no byte in common in physical memory, since a writable page is mapped nowhere else |
| CopySpaces.PtrFlags | kernel/src/memory/memspace.c:60-93 | an address of a space is there for a read exactly if its leaf has READ, for a write exactly if it has WRITE, and is then that offset in the frame of the leaf |
| CopySpaces.CopySeen | kernel/src/memory/virtptr.c:99-125 | when memory has been copied, the spaces see the bytes stored one after the other into the space of the destination, and nothing else |
| CopySpaces.OtherSpaces | kernel/src/memory/virtptr.c:99-125 | a space other than that of the destination sees no difference |
| CopySpaces.CopyBetween | kernel/src/memory/virtptr.c:99-125 | copying between two spaces whose pages lie in memory: the spaces see exactly the bytes stored before the first one whose page has no WRITE in the destination or no READ in the source; the flags stay, and the invariant of copy-on-write is kept |
| FreeListSpec.InsertSorted | kernel/src/memory/allocator.c:43-63 | inserting keeps the list in order and coalesced |
| FreeListSpec.InsertHas | kernel/src/memory/allocator.c:43-63 | the free addresses become exactly those of before and the inserted ones |
| FreeListSpec.KernelBlockSizes | kernel/src/devices/blockcache.c:263 | the block sizes of the three allocators of the kernel are multiples of 8 that divide a page |
| Multiples.RestIsRemainder | kernel/src/files/special/blkfile.c:34-38 | the rest that block sizes are stated with is the remainder of C |
| FreeListSpec.TakeHas | kernel/src/memory/allocator.c:88-112 | for every block size: an address stays free if and only if it is not taken and not in a rest that is smaller than a header |
| FreeListSpec.NothingLost | kernel/src/memory/allocator.c:88-112 | with blocks of at least a header exactly what is taken stops being free |
| FreeListSpec.LostRestExample | kernel/src/memory/allocator.c:88-112 | a range and a size for which a rest is lost |
| FreeListSpec.ActualSizeFits | kernel/src/memory/kalloc.c:44-49 | what kalloc asks for is a number of blocks and has room for a header when it is given back |
| FreeListSpec.CanonicalUnique | kernel/src/memory/allocator.c:43-63 | a coalesced list is determined by its set of addresses |
| FreeListSpec.TakeInsert | kernel/src/memory/allocator.c:43-175 | with blocks of at least a header, deallocation after allocation restores the identical list |
| FreeListSpec.TrimSafe | kernel/src/memory/allocator.c:123-166 | what goes back are pages of the free range outside of the special range; the rest lies in the range and beside the pages |
| FreeListSpec.TrimLost | kernel/src/memory/allocator.c:123-166 | an address of the range is neither returned nor kept if and only if it lies behind the last page boundary |
| FreeListSpec.UncoalescedIff | kernel/src/memory/allocator.c:123-166 | when exactly the rest is left as two adjacent ranges |
| FreeListSpec.UncoalescedExample | kernel/src/memory/allocator.c:123-166 | a range of the allocator of the block cache for which it is |
| AllocatorSpec.TakeTopOk | kernel/src/memory/allocator.c:88-121 | what the upper allocator hands out was free and held by nobody, and ownership stays disjoint, for every block size |
| AllocatorSpec.LendOk | kernel/src/memory/allocator.c:76-86 | pages that move up change their owner and nothing else |
| AllocatorSpec.TrimTopOk | kernel/src/memory/allocator.c:123-166 | pages that move down had been lent, and are free on one level only |
| Allocators.FindFit | kernel/src/memory/allocator.c:65-74 | the first range that is large enough, or none if and only if there is none |
| Allocators.InsertFree | kernel/src/memory/allocator.c:43-63 | the loop inserts the range at its place and merges it with both neighbours |
| Allocators.Allocators.constructor | kernel/src/memory/allocator.c:9-17 | an allocator with memory of its own or with none, over a page allocator that has the heap |
| Allocators.Allocators.AddNewMemory | kernel/src/memory/allocator.c:76-86 | the list gains whole pages of the page allocator, in a range that is large enough, and what is free on either level stays free; it fails if and only if no range of the page allocator is large enough |
| Allocators.Allocators.Alloc | kernel/src/memory/allocator.c:88-121 | a block comes from free memory of either level, the beginning of the first range of its own level that is large enough if there is one, and overlaps no block that is held on either level; which addresses stay free exactly; it fails if and only if the size is 0 or no range of either level is large enough |
| Allocators.Allocators.TryFreeing | kernel/src/memory/allocator.c:123-166 | the page allocator receives only free pages that it has lent; an address stops being free if and only if pages go back and it lies behind the last page boundary of the range |
| Allocators.Allocators.Dealloc | kernel/src/memory/allocator.c:168-175 | exactly the block stops being held; which addresses are free afterwards exactly |
| Allocators.Allocators.AllocPages | kernel/src/memory/allocator.c:88-121 | pages are the beginning of the first range that is large enough and leave the free set exactly, and fail only if no range fits |
| Allocators.Allocators.DeallocPages | kernel/src/memory/allocator.c:168-175 | pages join the free set exactly |
| Allocators.Allocators.AllocAndDealloc | kernel/src/memory/allocator.c:88-175 | giving pages back at once restores the identical list |
| RobinHoodSpec.Chain | kernel/src/devices/blockcache.c:34-46 | on the way to a key every slot is taken by a block that has probed at least as far, so the early exit of the lookup misses nothing |
| RobinHoodSpec.PlacedWF | kernel/src/devices/blockcache.c:48-63 | displacing a block that has probed less far keeps the probe-length invariant |
| RobinHoodSpec.ShiftedHoled | kernel/src/devices/blockcache.c:65-90 | a backward shift moves the hole and keeps the invariant around it |
| RobinHoodSpec.HoleCloses | kernel/src/devices/blockcache.c:65-90 | where the shift stops, the invariant holds again |
| BlockTable.LookupCachedBlock | kernel/src/devices/blockcache.c:34-46 | finds a block if and only if it is in the map |
| BlockTable.InsertCachedBlock | kernel/src/devices/blockcache.c:48-63 | the map gains exactly the block, whatever is displaced on the way |
| BlockTable.RemoveCachedBlock | kernel/src/devices/blockcache.c:65-90 | the map loses exactly the block, which is returned |
| BlockTable.CachedBlockTable.RebuildTable | kernel/src/devices/blockcache.c:92-102 | the map survives a rebuild |
| BlockTable.CachedBlockTable.TestForResize | kernel/src/devices/blockcache.c:104-118 | the map stays and there are empty slots |
| BlockTable.CachedBlockTable.Insert | kernel/src/devices/blockcache.c:120-128 | the map gains the block with the default priority |
| BlockTable.CachedBlockTable.Get | kernel/src/devices/blockcache.c:130-136 | finds a block if and only if it is in the map |
| BlockTable.CachedBlockTable.Reclaim | kernel/src/devices/blockcache.c:229-252 | the scan ends although removals move blocks under it; which blocks stay: exactly those below the threshold, except that one that lies round the end of the table may have to be two below it; they keep their bytes and have aged once or, round the end, twice |
| BlockTable.WrappedExample | kernel/src/devices/blockcache.c:229-252 | a table in which a block below the threshold is dropped |
| BlockDevices.CachedBlockDevice.ReadUncached | kernel/src/devices/blockcache.c:146-170 | the bytes of the device reach the buffer, the cache stays coherent, and every block of the range is cached afterwards |
| BlockDevices.CachedBlockDevice.Read | kernel/src/devices/blockcache.c:172-201 | a read returns exactly the bytes of the device however hits and misses interleave, and fails only if the device does; afterwards every block of the range is cached, with the default priority if it has not been there and a priority that is lower by one, but not below 0, if it has; no other block changes |
| BlockDevices.CachedBlockDevice.Write | kernel/src/devices/blockcache.c:203-222 | device and cache both hold the new bytes, or neither does if the device fails; afterwards every block of the range is cached, with the priority it had or the default one, and no other block changes |
| BlockDevices.CachedBlockDevice.Reclaim | kernel/src/devices/blockcache.c:229-252 | the cache stays coherent, the blocks that stay are those of the table, and the answer tells whether anything has been freed |
| BlockDevices.BlockFile.ReadAt | kernel/src/files/special/blkfile.c:28-55 | a read of any bytes returns exactly them |
| BlockDevices.BlockFile.WriteAt | kernel/src/files/special/blkfile.c:28-55 | a write of any bytes changes exactly them, or after an error a prefix of them |
| BlockDevices.PatchBlock | kernel/src/files/special/blkfile.c:36-46 | reading a block, changing a part and writing it back changes only that part |
| BlockDevices.Run | kernel/src/files/special/blkfile.c:28-55 | over any sequence of reads, writes and reclaim passes, up to the first failure of the device, the file on the cached device is a flat byte array; a failed write leaves a prefix |
| MinixSpec.InRegion | kernel/src/files/minix/node.c:28-46 | which bytes of the file lie below a place in the zone tree |
| MinixSpec.FillInvisible | kernel/src/files/minix/node.c:108-123 | putting a zeroed zone into a hole does not change the file |
| MinixSpec.PutBytesWF | kernel/src/files/minix/node.c:124-144 | writing into a data zone changes exactly those bytes of the file |
| MinixSpec.DecodeEncode | kernel/src/files/minix/node.c:48-72 | a table that is written lies in its zone pointer by pointer, the least significant byte first, and is read as it was |
| MinixSpec.EncodedBytes | kernel/src/files/minix/node.c:48-72 | byte k of pointer i in the zone, by arithmetic on the pointer, for each of the four bytes |
| MinixSpec.DecodesIff | kernel/src/files/minix/node.c:48-72 | a zone is read as a table if and only if it holds these bytes of the table |
| MinixSpace.StopsHere | kernel/src/files/minix/node.c:108-123 | a write that finds no zone for a hole has used the zones that its bytes so far need, and they are not enough for one more byte |
| MinixSpace.StoppedUnique | kernel/src/files/minix/node.c:108-123 | the free zones determine where a write stops |
| Minix.ExactPiece | kernel/src/files/minix/node.c:124-127 | although the cursor runs ahead after the first transfer, the callback always transfers the next bytes of the request |
| Minix.CursorSkip | kernel/src/files/minix/node.c:32-44 | the cursor is exact for the entries before the request |
| Minix.CursorLeave | kernel/src/files/minix/node.c:32-44 | behind an entry that has been visited the cursor is a multiple of the block size not below the place |
| Minix.MinixFile.PreCallback | kernel/src/files/minix/node.c:106-123 | a hole in the way of a write is filled, or there are no zones left and the next byte needs one; a read changes nothing |
| Minix.MinixFile.MidCallback | kernel/src/files/minix/node.c:124-149 | one piece of the request is transferred, from a data zone or from a hole of any size |
| Minix.MinixFile.Scan | kernel/src/files/minix/node.c:28-46 | after the scan the request is done up to the end of the table, or finished, or the file system is full |
| Minix.MinixFile.WalkRec | kernel/src/files/minix/node.c:48-72 | the same for a subtree, with its table written back byte by byte (`TableBytes`), also after an error |
| Minix.PointerOnDisk | kernel/src/files/minix/node.c:48-72 | between requests, the disk holds the four bytes of every pointer of every table at its place, the least significant one first |
| Minix.FileOnDisk | kernel/src/files/minix/node.c:40-150 | every byte of the file is where a reader finds it who has only the disk and the zones of the node, and puts the pointers together from their bytes: in seven direct zones, one table, and a table of tables; a pointer 0 stands for zeros |
| Minix.MinixFile.ContentsOnDisk | kernel/src/files/minix/node.c:40-150 | between requests, the same for the contents of the file |
| Minix.MinixFile.ZoneWalk | kernel/src/files/minix/node.c:74-96 | a request within the double-indirect range is finished before the triple-indirect zone is looked at, or the file system is full |
| Minix.MinixFile.ReadWrite | kernel/src/files/minix/node.c:152-189 | a read returns the bytes of the file up to its size; a write changes exactly its range and the size becomes the maximum; it fails if and only if it needs more zones than are free, and has then written exactly the bytes that they were enough for |
| Minix.MinixFile.ReadAt | kernel/src/files/minix/node.c:191-193 | a read is a read of the flat file, with zeros for holes |
| Minix.MinixFile.WriteAt | kernel/src/files/minix/node.c:195-197 | a write is a write to the flat file, with a gap of zeros if it begins behind the end, if and only if there is nothing in that gap; it uses exactly the zones that are missing on the way to its bytes, and fails if and only if there are too few, after a prefix that they determine |
| Minix.WriteIsFlat | kernel/src/files/minix/node.c:152-189 | changing exactly the range and growing the size is a write to the flat file |
| Minix.WriteFlatIff | kernel/src/files/minix/node.c:152-189 | a write is a write to the flat file if and only if it is empty or the gap before it holds only zeros |
| Minix.NoSpaceExample | kernel/src/files/minix/node.c:152-197 | two blocks written to a new file on a disk with one free zone: the first block is there, and the size is 0 |
| Minix.StaleExample | kernel/src/files/minix/node.c:152-197 | the next write to that file is not a write to the flat file |
| Minix.MinixFile.Run | kernel/src/files/minix/node.c:152-197 | over any sequence of reads and writes, until one fails for want of space, the file is the flat sparse file |
| VfsCache.VfsNodeCache.FindIndex | kernel/src/files/vfs/cache.c:70-96 | finds a node if and only if it is in the map, and moving it into a deleted slot changes the map in no way |
| VfsCache.MoveWF | kernel/src/files/vfs/cache.c:86-95 | moving an entry forward into a deleted slot of its probe keeps every key reachable |
| VfsCache.InsertIndex | kernel/src/files/vfs/cache.c:32-38 | the probe ends at a slot that is not live, where the node may be put |
| Probing.AsRemainder | kernel/src/files/vfs/cache.c:32-38 | walking round a table is what C computes with remainders |
| VfsCache.VfsNodeCache.Rebuild | kernel/src/files/vfs/cache.c:40-53 | the map survives a rebuild |
| VfsCache.VfsNodeCache.TestForResize | kernel/src/files/vfs/cache.c:55-63 | the map stays, and the load is bounded through growing and shrinking |
| VfsCache.VfsNodeCache.InsertNewNode | kernel/src/files/vfs/cache.c:111-117 | the map gains exactly the node, and the assertion of the source holds |
| VfsCache.VfsNodeCache.GetNode | kernel/src/files/vfs/cache.c:98-109 | returns the node of the key with one more reference, or nothing if and only if there is none |
| VfsCache.VfsNodeCache.CopyNode | kernel/src/files/vfs/cache.c:123-133 | one more reference; exactly the nodes with references stay in the cache |
| VfsCache.VfsNodeCache.CloseNode | kernel/src/files/vfs/cache.c:135-148 | one reference less, the last one takes the node out of the map, and the assertions of the source hold |
| TaskLock.NextInv | kernel/src/task/tasklock.c:23-149 | every step of every task keeps the invariant of the protocol |
| TaskLock.RunInv | kernel/src/task/tasklock.c:23-149 | the invariant holds in every state of every run |
| TaskLock.MutualExclusion | kernel/src/task/tasklock.c:63-149 | in every state at most one task has locked, it is the owner, and num_locks is how often |
| TaskLock.OwnerCheckSound | kernel/src/task/tasklock.c:83-131 | the checks outside of the spin lock find the task itself exactly if it has locked, and the assertion of unlockTaskLock holds |
| TaskLock.OwnerCheckStable | kernel/src/task/tasklock.c:83-131 | no step of another task changes what those checks find |
| TaskLock.NoLostWakeup | kernel/src/task/tasklock.c:23-31 | whenever the spin lock is free and somebody waits, the lock is held by a task that is not asleep and can go on |
| TaskLock.SleepersWoken | kernel/src/task/tasklock.c:136-147 | in every run, every sleeper has been woken before the lock is given back |
| TaskLock.StepIsAtomic | kernel/src/task/tasklock.c:83-149 | every step is the locking or unlocking of a recursive mutex by its task, or invisible |
| TaskLock.RunRefinesMutex | kernel/src/task/tasklock.c:83-149 | every run is a run of a recursive mutex |
| TaskLock.CallEffect | kernel/src/task/tasklock.c:83-149 | in every run: when a call of lock is over, its task has locked once more and owns the lock; after tryLock it has locked once more and owns it, or as often as before; after unlock once less |
| TaskLock.OnlyLockWaits | kernel/src/task/tasklock.c:83-149 | in every run a task that tries to lock, or unlocks, is at no time asleep or in the waiting list |
| TaskLock.LockSleepsExample | kernel/src/task/tasklock.c:83-96 | a call of lock while another task owns the lock ends up asleep in the waiting list |
| TaskLock.TryFailsOnlyIfTaken | kernel/src/task/tasklock.c:98-125 | tryLocking gives up if and only if another task owns the lock |
| TaskLock.TryLockFails | kernel/src/task/tasklock.c:98-125 | a call of tryLock that has not locked has seen another task own the lock between its beginning and its end |
| TaskLock.TryFailsExample | kernel/src/task/tasklock.c:98-125 | with the same lock, a call of tryLock is over without having locked |
| PipeSpec.StepFaithful | kernel/src/files/special/pipe.c:16-83 | what has been read, followed by the buffer, stays what has been written, and both only grow at their ends |
| PipeSpec.SettleFaithful | kernel/src/files/special/pipe.c:16-83 | the same for the whole loop |
| PipeSpec.QueueIff | kernel/src/files/special/pipe.c:157-171 | an operation joins the end of its list if and only if the list is empty, or has one operation that its tail points to |
| PipeSpec.LostWriter | kernel/src/files/special/pipe.c:157-171 | of three writers at a full pipe the second one is in no list |
| PipeSpec.LostNext | kernel/src/files/special/pipe.c:64-76 | once the first of two writers is over, the next one is in no list |
| PipeSpec.TerminationIff | kernel/src/files/special/pipe.c:16-83 | the loop ends if and only if a descriptor for writing is open, no writer waits, or the readers want no more than there is |
| PipeSpec.EndlessExample | kernel/src/files/special/pipe.c:16-83 | a state from which no number of rounds is enough |
| PipeSpec.ReadReturnsIff | kernel/src/files/special/pipe.c:140-182 | a read of a quiescent pipe comes back from the loop if and only if a descriptor for writing is open, no writer waits, or it wants no more than is in the buffer |
| PipeSpec.QuiescentIff | kernel/src/files/special/pipe.c:78-81 | the loop stops exactly if not both kinds wait, readers only for an empty buffer with writers open and writers only for a full one |
| PipeSpec.WriteCompletesIff | kernel/src/files/special/pipe.c:130-150 | a write to a quiescent pipe is over in the same call if and only if the capacity test admits it and it is not empty or the pipe is not full |
| PipeSpec.EmptyWriteWaits | kernel/src/files/special/pipe.c:130-150 | an empty write to a full pipe is admitted and waits |
| PipeSpec.ReadCompletesIff | kernel/src/files/special/pipe.c:120-150 | when exactly an admitted read is over in the same call |
| PipeSpec.ReadBehindEmptyWriterWaits | kernel/src/files/special/pipe.c:120-150 | a read of 513 bytes behind an empty writer is admitted and waits |
| PipeSpec.ServedIsNext | kernel/src/files/special/pipe.c:16-83 | such a read gets the next bytes of the stream, as many as it asked for or as there are |
| Pipes.Pipe.CopyOut | kernel/src/files/special/pipe.c:20-32 | the first bytes of the ring, across its end |
| Pipes.Pipe.Append | kernel/src/files/special/pipe.c:50-63 | bytes join the end of the ring, across its end |
| Pipes.Pipe.DoOperation | kernel/src/files/special/pipe.c:16-83 | the loop on the ring buffer is the loop on the stream, and ends |
| Pipes.Pipe.CurrentReadCapacity | kernel/src/files/special/pipe.c:120-128 | the bytes in the buffer and those of all waiting writers |
| Pipes.Pipe.CurrentWriteCapacity | kernel/src/files/special/pipe.c:130-138 | the room in the buffer and that of all waiting readers |
| Pipes.Pipe.ExecuteWrite | kernel/src/files/special/pipe.c:140-182 | the answer of every write, from the state before it: SUCCESS with nothing written at the end of the file, EAGAIN or waiting when it is refused, SUCCESS with all bytes when it is over, EINTR when it is empty, waiting otherwise; a refused write changes nothing; the stream stays faithful and the pipe quiescent |
| Pipes.Pipe.ExecuteRead | kernel/src/files/special/pipe.c:140-182 | the answer of every read that comes back, from the state before it: SUCCESS with no byte at the end of the file, EAGAIN or waiting when it is refused, EINTR when it asks for nothing, SUCCESS with all it asked for or all there is, waiting otherwise; it gets the next bytes of the stream |
| Pipes.Pipe.CloseForWriting | kernel/src/files/special/pipe.c:201-213 | closing the last descriptor for writing ends all reads with what they have got so far, delivers nothing and leaves writers that wait where they are |
| Pipes.AnswersExample | kernel/src/files/special/pipe.c:140-182 | 5 bytes written to a new pipe: SUCCESS; a read of an empty pipe that does not block: EAGAIN; a read without anybody to write: SUCCESS with no byte |
| Pipes.EmptyWriteExample | kernel/src/files/special/pipe.c:175-176 | an empty write returns EINTR |
| Pipes.ClosedReadExample | kernel/src/files/special/pipe.c:175-176 | a read that the last close ends returns EINTR |
| ScheduleSpec.PushLevels | kernel/src/task/schedule.c:174-191 | a task joins the end of the queue of its priority, and the queues of the other priorities stay as they are |
| ScheduleSpec.PullLevels | kernel/src/task/schedule.c:151-172 | the first task of the list is the oldest of the best priority that has one, and the other queues stay as they are |
| Schedule.ScheduleQueue.PushTask | kernel/src/task/schedule.c:174-191 | the linked list gains the task behind all of at least its priority, which is clamped; tails stay the last tasks up to each priority |
| Schedule.ScheduleQueue.PullTask | kernel/src/task/schedule.c:151-172 | the first task leaves the linked list, and tails stay right |
| Schedule.PushTails | kernel/src/task/schedule.c:186-189 | the loop updates exactly the tails that the task replaces |
| Schedule.PullTails | kernel/src/task/schedule.c:159-168 | the loop clears exactly the tails that were the task |
| Schedule.PullTaskForHart | kernel/src/task/schedule.c:137-149 | the task of the first queue in the ring that is not empty, or the idle task if and only if all are empty; no other queue changes |
| PathSpec.RenderSplits | kernel/src/files/path.c:9-69 | splitting a rendered path gives its segments back |
| PathSpec.ReducedNormal | kernel/src/files/path.c:29-62 | the reduced path has no '.', and '..' only at the front of a relative path |
| PathSpec.ReducedIdempotent | kernel/src/files/path.c:9-69 | reducing keeps absolute and relative paths what they are, and reducing again changes nothing |
| PathSpec.ReducedMeans | kernel/src/files/path.c:9-69 | from every directory the reduced path leads to where the path leads |
| PathSpec.ReducedSameIff | kernel/src/files/path.c:9-69 | two paths have the same reduced path if and only if both or none are absolute and they lead to the same directory from everywhere |
| Paths.InlineReducePath | kernel/src/files/path.c:9-69 | the buffer holds the normal form of the segments of the path, for every string; the write position never passes the read position |
| Paths.DropSegment | kernel/src/files/path.c:33-40 | going back to the last slash removes exactly the last segment |
| Paths.ReduceSegment | kernel/src/files/path.c:19-63 | one round deals with one segment as the normal form says |
| Expr.IsZero | userspace/src/expr/expr.c:9-23 | true if and only if there are only zeros behind the sign, also for strings that are no numbers; for a number, if and only if its value is zero |
| Expr.IsInteger | userspace/src/expr/expr.c:25-41 | accepts exactly a sign or none and at least one digit |
| Expr.CmpInteger | userspace/src/expr/expr.c:55-75 | compares by value, except for two zeros of different sign |
| Expr.MixedZerosExample | userspace/src/expr/expr.c:55-75 | "-0" is found to be less than "0" |
| Expr.NegInline | userspace/src/expr/expr.c:79-89 | the same digits with the other sign, and the negated value |
| Expr.AddDigits | userspace/src/expr/expr.c:115-142 | the digit loop computes the sum without redundant zeros |
| Expr.SubDigits | userspace/src/expr/expr.c:162-190 | the digit loop computes the difference without redundant zeros, and the borrow stays 0 or 1 |
| Expr.AddInteger | userspace/src/expr/expr.c:91-144 | the exact sum without redundant zeros, unless the operands are zeros of different sign |
| Expr.SubInteger | userspace/src/expr/expr.c:146-192 | the exact difference without redundant zeros, unless the operands are zeros of the same sign |
| Expr.ZeroMinusZeroExample | userspace/src/expr/expr.c:146-192 | "0" minus "0" fails |
| Expr.DecShift | userspace/src/expr/expr.c:194-202 | multiplies by a power of ten |
| Expr.MulDigit | userspace/src/expr/expr.c:220-244 | the digit loop computes the product with one digit, and the carry stays at most 8 |
| Expr.MulInteger | userspace/src/expr/expr.c:204-259 | the exact product without redundant zeros, with the right sign; the recursion on signs, order and digits ends |
| Expr.QuotientDigit | userspace/src/expr/expr.c:267-273 | each digit of a quotient is at most 9 |
| DecimalRemainder.RedundantSnoc | userspace/src/expr/expr.c:267-273 | how one more digit of the dividend decides whether the remainder has a redundant zero |
| Expr.DivRemInteger | userspace/src/expr/expr.c:261-284 | exact quotient and remainder; the remainder is without redundant zeros if and only if the dividend is not a multiple of the divisor followed by digits that are less than it |
| Expr.DivInteger | userspace/src/expr/expr.c:286-300 | the quotient rounded towards zero |
| Expr.RemInteger | userspace/src/expr/expr.c:302-316 | the remainder with the sign of the dividend, and exactly when it has redundant zeros |
| DecimalRemainder.RedundantExample | userspace/src/expr/expr.c:261-284 | 100 and 105 by 10 leave one |
| Expr.RemainderExample | userspace/src/expr/expr.c:302-316 | the remainder of "100" by "10" is 0 and has one |
| Expr.TruncatedUnique | userspace/src/expr/expr.c:286-316 | there is only one such quotient and remainder |

## Left out

- Traps, assembly, device drivers, terminals, the device tree and boot: there is no invariant of their own to state.
- `mprotect` and the ELF loader as steps of the copy-on-write runs: they set WRITE without regard to COPY (kernel/src/memory/syscall.c:58-72, kernel/src/loader/elf.c:31-36).
- Entries with GLOBAL in the copy-on-write runs: nothing that a process maps has it. Superpages in those spaces: only small pages are mapped there.
- The order of two stores when a table is cloned: the model stores the address of the new table before the table is filled, not after (kernel/src/memory/memspace.c:168-191). Nothing reads the new space in between.
- Running out of memory in `cloneMemorySpace`, `handlePageFault` and `mapPage`.
- VirtPtrs.MemcpyBetween: the buffers do not overlap and are not mapped twice, as the source demands. The page table of the destination is taken as it is when the first call has resolved its faults (`Resolved`); of the faults themselves only the first translation (`Short`) can show. What happens after a part has been used that was never set is not modelled.
- CopySpaces.CopyBetween: buffers with `allow_all`, through which the kernel can write pages that other spaces share read-only. The physical memory is an array beside the pages of the spaces, which it holds.
- Allocators.Allocators.Dealloc: a block that is smaller than a header cannot be given back without overwriting its neighbour; kalloc never has one (`FreeListSpec.ActualSizeFits`).
- VirtPtrs.GetParts: the same page table, without faults of its own. `virtPtrPartsDo` and `memsetVirtPtr` are not part of this model.
- `reallocMemory` and `deinitAllocator`. All memory lies above the first page. Links between free ranges are a sequence in the model, not headers in the memory itself. Block sizes that are no multiple of 8, and two allocators on the same page allocator at once: the other callers of the page allocator are one set of pages.
- Operations on the block cache that overlap in time, and failed device writes that change data. Block sizes are any positive number here.
- `minixTrunc`, where a zone begins on the device (`offsetForZone`: the disk is a map from zone numbers to zones), directories, the bitmaps (a list of free zones that are not in use stands for them), the triple-indirect zone and errors of the device below a Minix file system.
- Pipes.Pipe.ExecuteRead: a read for which the loop does not end has no answer (`PipeSpec.ReadReturnsIff`).
- What the store through a stale tail changes apart from the list of the pipe (kernel/src/files/special/pipe.c:157-171), and signals that interrupt a wait.
- Fairness of the task lock: a task that has been woken competes with all others again. Steps of the lock are sequentially consistent.
- `removeTaskFromQueue`, the states of tasks, waiting lists and signals. Queues are modified by one hart at a time, under their spin lock.
- Widths of integers: lengths of strings, positions in paths and reference counts are unbounded.
- The evaluator of `expr` and the other userspace tools.
