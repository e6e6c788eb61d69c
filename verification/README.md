# CIBOS in Dafny

A model of the parts of the CIBOS platform that keep a structured state in step with a
simple abstract one, and proofs of what they promise:

- **Virtual memory.** Four-level page tables built inside physical frames, the bitmap
  frame allocator, one address space per boundary, the application loader, and processes
  started one after the other. The
  abstract view is a partial map from virtual to physical addresses.
- **CIBOSFS.** Superblock, allocation bitmap, inode table and directories stored as file
  data, on a device of 512-byte blocks. The abstract view is a tree of names and byte
  strings.
- **The application heap.** A first-fit free list threaded through the memory it manages.
  The abstract view is the set of blocks that cut the region.
- **IPC and scheduling.** Ready and stalled lanes, timers, weighted dispatch, kernel
  channels, the SDK's typed channels and the cross-container broker.
- **Packets.** The internet checksum and Ethernet, IPv4, UDP and ICMP echo formats.

Each part has two layers. Functions over values say what every operation does, and lemmas
prove the properties of those functions, over every input, every run or every reachable
state. Classes and methods work the way the code does (fields updated in place, loops,
raw words and blocks), and each method's contract says that it computes its function. So
what is proved about the functions holds of the methods.

`dafny verify dfyconfig.toml` checks everything.

## How the source is read

- Frames are named by index, memory is a sequence of frames of 512 words, and the bytes
  of a frame are the little-endian bytes of its words. The page-table encoder is a record
  of functions with laws; the encoder the kernel runs with on x86_64 is proved to obey them,
  and so is the simpler one of the kernel's tests.
- Machine integers are unbounded where the surrounding facts keep them in range, and the
  range is proved where it is not obvious (`AppHeap.NoWrap`,
  `Udp.SumUp`). Saturation, wrap-around and field widths are written out
  (`Scheduling.AdvanceClock`, `Entropy.Csprng.Refill`, `InternetChecksum.Accumulate`,
  `Loader.PageEnd`, the codecs). Wrap-around is that of the release profile, which has no
  overflow checks. Virtual addresses are sums of any size, because only their low 48 bits
  are walked: a sum that wraps is the same address (`Ranges.WrappedMap`).
- A step of the IPC machines is one whole poll of one lane, as the SDK's own comments
  assume. Every channel has one receiving lane and one sending lane that may block, since
  it records one waiter on each side. Channel terms refuse a capacity of zero.
- The block device obeys its range check and otherwise never fails. The hash behind the
  random generator is a parameter.

Where the code does less than a reader might expect, the code is followed:

- A write that runs out of clear blocks on the way marks every clear block and gives none
  back (`FsLosses.NoSpaceLosesAllBlocks`). Over every run the marks are exactly the blocks
  in use if and only if they were at the start and no write ran out with some but too few
  blocks clear (`FsRuns.RunKeeps`, `FsLosses.WriteFileLosses`).
- A `mkdir` that claims an inode and then cannot enter the name leaves the inode taken,
  exactly when the parent is a file, the name is longer than 23 bytes, the directory is
  full, or a needed block is not clear (`FsLosses.MkdirLosses`). `write_file` checks the
  parent first, so it loses an inode only for the last three (`FsLosses.WriteFileLosses`).
- Taking a cross-container request of another message type drops it undecided. The
  rejection on drop belongs to the typed request, which never came to be, so the requester
  is not answered: it stalls at every poll for as long as nobody else sends on or closes
  its decision channel (`Stranding.MismatchStrands`). The documentation of the call names
  `ChannelClosed` for this case and the code returns `TermsViolation`.
- `destroy_space` returns data frames only, and `map_new_pages` leaves the fresh frame of a
  page it cannot map allocated and unrecorded. So not every frame is reclaimed, although
  the module's header says so: `Accounting.MapNewExactly` and `Accounting.LosesExactly`
  say by the state before a call when frames are lost, and `Accounting.FreeAfterRun` what
  is left free after a run.
- The loader computes the end of a page as a 64-bit sum, which is zero for the last page of
  the address space, so it copies nothing there and still reports success. A loaded
  segment reads as the image says if and only if no file byte other than zero belongs into
  that page (`Loader.LoadedExactly`). The top of a stack wraps in the same way if the stack
  reaches 2^64 (`Loader.StackTopExactly`), and a memory region that does is taken to hold
  no frame (`FramePool.InsideExactly`).
- One coalescing pass of the heap computes a block's end once, so it does not merge every
  list: it does if and only if, of three free blocks in a row, the middle one always
  comes before the first in the list (`AppHeap.CoalesceExactly`). Every list the
  allocator can produce is of that kind.
- `next_bounded` rejects at most half of all draws, and exactly half for the bound 2^63
  (`Entropy.AcceptsHalf`).
- The frame allocator indexes past its bitmap exactly when its hint lies past the last
  bitmap word, so after boot exactly when the watermark does and no frame has been freed
  since (`FramePool.AllocatePanicsExactly`, `FramePool.PanicsOverRuns`).
- The 32-bit checksum sum wraps around in a release build; with overflow checks it stops
  instead. It agrees with RFC 1071 for all data up to 131074 bytes, and beyond exactly
  under the condition of `InternetChecksum.WrapExactly`.

## Model

| member | source | states |
|---|---|---|
| FramePool.AllocateIsLowestFree | cibos-kernel/src/frame.rs:201-219 | on a consistent pool the hinted, wrapping search hands out the lowest free frame, changes that one bit, and reports the limit exactly when nothing is free |
| FramePool.AllocatePanicsExactly | cibos-kernel/src/frame.rs:201-219 | the bitmap is indexed out of bounds if and only if the hint lies past the last bitmap word, so never with the watermark inside the map |
| FramePool.PanicsOverRuns | cibos-kernel/src/frame.rs:158-262 | after any run of allocations, contiguous ones included, and frees the next allocation is out of bounds if and only if the run started with the hint past the bitmap and freed no frame of the map |
| FramePool.PanicExample | cibos-kernel/src/frame.rs:90-142 | no usable memory and one reserved frame panics at once; a watermark past the last frame but inside its bitmap word does not |
| FramePool.ReleaseKeepsConsistent | cibos-kernel/src/frame.rs:247-262 | freeing clears that frame's bit and no other, and keeps the invariant: padding set, counter equal to the number of set bits, everything below the hint allocated |
| FramePool.ReleaseThenAllocate | cibos-kernel/src/frame.rs:201-262 | a freed frame with nothing free below it is the next one handed out |
| FramePool.FreeCountIsExact | cibos-kernel/src/frame.rs:201-262 | the counter tells exactly whether a frame can still be handed out |
| FramePool.RunKeepsConsistent | cibos-kernel/src/frame.rs:158-195 | a contiguous allocation keeps the invariant and the hint and takes n frames, or nothing |
| FramePool.InsideExactly | shared/src/types/hardware.rs:298-303 | the frames taken from a usable region are those it wholly holds if it ends below 2^64, and none otherwise |
| FramePool.FrameAllocator.constructor | cibos-kernel/src/frame.rs:90-142 | a frame starts free if and only if it lies wholly inside a usable region and at or above the watermark; the frame count is the end of the highest usable region in frames and the hint the watermark rounded up; the invariant holds, and the first allocation panics if and only if the watermark lies past the bitmap |
| FramePool.FrameAllocator.AllocateFrame | cibos-kernel/src/frame.rs:201-219 | the two scanning loops compute the allocation function on the object's fields |
| FramePool.FrameAllocator.ReleaseFrame | cibos-kernel/src/frame.rs:247-262 | the in-place update computes the release function |
| FramePool.FrameAllocator.FindRun | cibos-kernel/src/frame.rs:158-195 | the scan returns the first run of n clear bits, and fails only if there is none |
| FramePool.FrameAllocator.AllocateContiguous | cibos-kernel/src/frame.rs:158-195 | the lowest free run of n frames is marked and nothing else, or an error exactly when no run exists; zero counts as one |
| PageEncoding.X86LikeIsLawful | cibos-kernel/src/paging.rs:461-504 | the encoder of the kernel's own tests satisfies every law the walk relies on: entries decode to their frame, tables and blocks are told apart, the zero word is absent |
| PageEncoding.X86IsLawful | kernel-image/src/arch/paging.rs:30-93 | the encoder that the kernel runs with satisfies the same laws, device memory included |
| PageEncoding.EntryBits | kernel-image/src/arch/paging.rs:30-93 | bit by bit, an entry is present, writable, for users, uncached, large and no-execute exactly as the permissions ask, and holds its frame |
| Addressing.SameSlotIsSamePage | cibos-kernel/src/paging.rs:220-228 | two addresses share their leaf slot if and only if they are in the same 4 KiB page, and their level-2 slot if and only if in the same 2 MiB block |
| Addressing.IndexOfPage | cibos-kernel/src/paging.rs:220-228 | the four level indices of an address are the base-512 digits of its page number, top level first |
| Addressing.OrIsAdd | cibos-kernel/src/paging.rs:412-443 | the bitwise OR of an aligned base and an in-page offset is their sum |
| PageTables.TreeNotDag | cibos-kernel/src/paging.rs:246-294 | in a well-formed space a table is entered through one slot only |
| PageTables.LeafWriteMiss | cibos-kernel/src/paging.rs:246-294 | writing a leaf entry leaves every walk through another slot as it was |
| PageTables.LeafWriteHit | cibos-kernel/src/paging.rs:246-294 | every walk through the written slot finds the new entry |
| PageTables.TableWriteLookup | cibos-kernel/src/paging.rs:246-294 | hanging a fresh zeroed table into an empty slot changes no walk at all |
| Mapping.InsertCorrect | cibos-kernel/src/paging.rs:246-358 | the walk-and-allocate insertion, from any table on the path, keeps the tree invariant, writes only table frames, and has exactly the stated effect and outcome |
| Mapping.InsertOccupied | cibos-kernel/src/paging.rs:246-358 | the insertion is refused as occupied if and only if the slot it walks to was present before |
| Mapping.MapCorrect | cibos-kernel/src/paging.rs:246-294 | `map` keeps the space well formed; each outcome (mapped, covered by a block, occupied, out of frames) occurs exactly under its condition on the state before; on success only the addressed page changes, on failure no address does, tables already allocated included |
| Mapping.MapTranslates | cibos-kernel/src/paging.rs:246-294 | after a successful map, offset o of the page translates to offset o of the frame for all o below 4096 |
| Mapping.MapBlockCorrect | cibos-kernel/src/paging.rs:316-358 | a 2 MiB block is entered only where nothing was mapped and changes exactly that block's addresses; a failed call changes none; misaligned, occupied, out of frames and mapped each occur exactly under their condition on the state before, and a page table in the slot occupies it even if it maps nothing; the missing interior-block test is harmless because a well-formed space has blocks only one level above the leaves |
| Mapping.BlockTranslates | cibos-kernel/src/paging.rs:316-358 | a 2 MiB aligned block entry translates every address to its offset within the physical block |
| Ranges.MapRangeCorrect | cibos-kernel/src/paging.rs:370-403 | the mix of blocks and pages maps virt+o to phys+o for the whole range and changes nothing else; a failing call leaves exactly a mapped prefix; Ranges.MapRangeEntries says with which entries |
| Ranges.MapRangeEntries | cibos-kernel/src/paging.rs:370-403 | every page of the range, or of the prefix left by a failure, is decided by the block entry of the 2 MiB block it lies in if that block is aligned on both sides and lies in the range, and by its own leaf entry otherwise, each with the permissions the caller gave |
| Ranges.MapRangeIsPageByPage | cibos-kernel/src/paging.rs:370-403 | when both succeed, every address translates as after mapping page by page |
| Ranges.WrappedMap | cibos-kernel/src/paging.rs:246-403 | mapping a page or block at an address taken modulo 2^64 is mapping it at the address |
| Ranges.WrappedTranslation | cibos-kernel/src/paging.rs:412-443 | an address and its value modulo 2^64 translate alike |
| Demand.TablesAreTree | cibos-kernel/src/paging.rs:246-294 | walking table entries finds a table at exactly the paths of the space's tree |
| Demand.InsertAdds | cibos-kernel/src/paging.rs:246-294 | a successful insertion adds exactly the tables on its path that were not there, and takes one frame for each |
| Demand.MissingIsLacked | cibos-kernel/src/paging.rs:246-294 | the tables a `map` of an unmapped page has to make are the path prefixes without a table |
| Demand.MidStep | cibos-kernel/src/address_space.rs:152-162 | after mapping one more page, the free frames, the tables and the mapped addresses are what the state before the first page determines |
| Demand.RunRepeats | cibos-kernel/src/address_space.rs:152-162 | page i of a run of consecutive pages is an earlier one again if and only if i is at least 2^36 |
| Demand.RunIsOpen | cibos-kernel/src/address_space.rs:152-162 | a run of pages can be mapped as far as addresses go if and only if it starts aligned, repeats no page and meets none that is mapped |
| Boundaries.CreateCorrect | cibos-kernel/src/address_space.rs:95-115 | a new space maps nothing, takes one unowned frame, and keeps isolation; failure changes nothing |
| Boundaries.MapNewFromCorrect | cibos-kernel/src/address_space.rs:139-164 | the page loop keeps isolation, other boundaries see no change, the pages mapped so far are leaves onto frames recorded in order, a private space stays private, and one frame is left allocated without an owner if and only if the loop ended in a mapping error |
| Boundaries.DestroyCorrect | cibos-kernel/src/address_space.rs:223-233 | exactly the recorded data frames return to the pool and nobody else is disturbed |
| Boundaries.DestroyStrays | cibos-kernel/src/address_space.rs:223-233 | exactly the tables of the destroyed space become frames that stay allocated and belong to nobody |
| Isolation.MapNewCorrect | cibos-kernel/src/address_space.rs:139-164 | success if and only if all pages were mapped; a failed call leaves a mapped and recorded prefix; unknown boundaries change nothing |
| Isolation.ShareCorrect | cibos-kernel/src/address_space.rs:180-196 | mapping existing memory changes only its own boundary's translation and keeps the table frames apart; Isolation.ShareMaps says what it maps there |
| Isolation.ShareMaps | cibos-kernel/src/address_space.rs:180-196 | success if and only if the whole range was mapped; what was mapped, all of it or a prefix, translates linearly with the permissions given, and every other address of the boundary as before; no space record changes, and an unknown boundary changes nothing |
| Isolation.StepIsolated | cibos-kernel/src/address_space.rs:95-233 | every operation keeps isolation and every other boundary as it was, and adds to the allocated frames of nobody exactly what it loses, taking none of them back |
| Isolation.RunIsolated | cibos-kernel/src/address_space.rs:95-233 | after every run, failed calls included, each boundary has a well-formed tree of allocated frames and no frame has two owners or two roles |
| Isolation.OneBoundaryAtATime | cibos-kernel/src/address_space.rs:95-233 | in every reachable state an operation on one boundary leaves every address of every other translating as before |
| Isolation.NoSharedFrames | cibos-kernel/src/address_space.rs:95-233 | in every state reached without sharing, two addresses that reach the same physical frame are the same page of the same boundary |
| Isolation.TablesAreUnreachable | cibos-kernel/src/address_space.rs:95-233 | in every state reached without sharing, no address of any boundary translates into a page table of any boundary |
| Isolation.SharedTableIsReachable | cibos-kernel/src/address_space.rs:180-196 | with sharing it fails: a boundary's own root table can be mapped into it at any free page its tables can be grown for |
| Accounting.PageOutcome | cibos-kernel/src/address_space.rs:152-162 | one page ends in an allocation error exactly without a free frame, and in a mapping error, its frame lost, exactly when the page is misaligned, already mapped or short of table frames |
| Accounting.MapNewExactly | cibos-kernel/src/address_space.rs:139-164 | by the machine before the call: success if and only if the pages are aligned, different and unmapped and there are frames for them and for the tables they lack, each table counted once; a frame lost if and only if some page is reached with a free frame and is misaligned, mapped, a repetition or short of table frames; an allocation error if and only if some page is reached with none |
| Accounting.LosesExactly | cibos-kernel/src/address_space.rs:95-233 | an operation loses frames if and only if, by the state before it, it comes to such a page or destroys a live space |
| Accounting.FirstPageLoses | cibos-kernel/src/address_space.rs:139-164 | asking for pages at a misaligned or already mapped address fails, records nothing, and costs exactly one frame |
| Accounting.LossExample | cibos-kernel/src/address_space.rs:95-233 | on every machine with two free frames, creating a space, asking for a page at address 1 and destroying the space costs both |
| Accounting.Conservation | cibos-kernel/src/address_space.rs:95-233 | in every isolated state the free frames, the frames of live boundaries and the allocated frames of nobody add up to all frames |
| Accounting.RunAccounts | cibos-kernel/src/address_space.rs:95-233 | over every run the allocated frames of nobody are all those of the start and as many more as the operations lost |
| Accounting.FreeAfterRun | cibos-kernel/src/address_space.rs:95-233 | the free frames after a run are those at the start less the frames of live boundaries and the total lost |
| Accounting.TotalLostZero | cibos-kernel/src/address_space.rs:95-233 | a run loses nothing if and only if none of its operations does |
| Accounting.DestroyedSpaceKeepsTables | cibos-kernel/src/address_space.rs:95-233 | in every reachable state, creating a space and destroying it again costs exactly one frame |
| Loader.WrittenByte | kernel-image/src/loader.rs:174-238 | after copying bytes into a frame of little-endian words, each byte reads back and its neighbours are unchanged |
| Loader.PageContentByte | kernel-image/src/loader.rs:203-235 | a byte of the frame for a page is the file byte that lands there, and zero before the file bytes, after them and throughout the last page of the address space |
| Loader.LoadedBytes | kernel-image/src/loader.rs:174-238 | after a successful load the byte at vaddr+k of every segment is body byte k, or zero past the file bytes, for any alignment; the last page of the 64-bit address space reads as zero |
| Loader.LoadedExactly | kernel-image/src/loader.rs:174-238 | every byte of a loaded segment reads as the image says if and only if no non-zero file byte belongs into the last page of the address space |
| Loader.LastPageExample | kernel-image/src/loader.rs:174-238 | a one-page segment there loads wherever the page can be mapped, and its first byte reads as 0 instead of 7 |
| Loader.PageLoads | kernel-image/src/loader.rs:203-235 | a page is loaded if and only if it is aligned and unmapped and there are frames for it and for the tables it lacks |
| Loader.LoadDisturbsNothing | kernel-image/src/loader.rs:174-238 | every address mapped before translates as before and every allocated non-table frame keeps its bytes, on failure too |
| Loader.LoadMapsExactly | kernel-image/src/loader.rs:174-238 | no load maps an address outside the pages of the image's segments, and a successful one maps exactly those beside what was mapped before |
| Loader.SegmentPagesAre | kernel-image/src/loader.rs:193-206 | the pages of a segment are the page-aligned addresses below its end whose page reaches past its start, each once, in order |
| Loader.LoadsExactly | kernel-image/src/loader.rs:174-238 | an image loads if and only if, in the state before, every segment ends below 2^64, the pages of all segments are different and unmapped, and there are frames for them and for the tables they lack, each table counted once |
| Loader.LoadedPermissions | kernel-image/src/loader.rs:174-238 | every page of a loaded segment has the leaf that says readable by bit 0 of the segment's flags, writable by bit 1, executable by bit 2, for users and not for a device |
| Loader.StackPermissions | kernel-image/src/loader.rs:246-269 | every page of a mapped stack is readable and writable by users and not executable |
| Loader.StackBytes | kernel-image/src/loader.rs:246-269 | a mapped user stack reads as zero throughout, its addresses taken modulo 2^64 |
| Loader.StackTopExactly | kernel-image/src/loader.rs:246-269 | the returned top is the end of the stack rounded down to 16 bytes if and only if the stack ends below 2^64; it is zero if it ends there |
| Loader.StackExactly | kernel-image/src/loader.rs:246-269 | the stack is mapped if and only if, in the state before, its pages are aligned, different and unmapped and there are frames for them and the tables they lack |
| Processes.StartKeepsApart | kernel-image/src/loader.rs:290-354 | starting an image, whether or not it succeeds, makes a space that has no frame in common with any earlier one and leaves the earlier ones as they were |
| Processes.RunApart | kernel-image/src/loader.rs:290-354 | after every run of starts each space is well formed, its addresses are decided by the kernel's range or by pages of its own, and no two spaces share a table or a page |
| Processes.ProcessesApart | kernel-image/src/loader.rs:290-354 | no address outside the kernel's range of one process reaches a page of another or a page table of any |
| Processes.StartDisturbsNothing | kernel-image/src/loader.rs:290-354 | starting one more image changes no address of an earlier process and no byte of its pages |
| Processes.PreparedApp | kernel-image/src/loader.rs:290-338 | what a prepared application starts with: the image's entry; a stack page at base+0x100000 with its top at the end; 64 heap pages at base+0x200000; both zeroed, for users, writable and not executable; every image byte in place; the first GiB mapped one to one with kernel entries |
| Processes.SupervisorOnly | kernel-image/src/loader.rs:290-338 | with the kernel's encoder no address of that GiB is for users |
| VirtualMemory.AllocateZeroed | cibos-kernel/src/frame.rs:236-244 | the lowest free frame, cleared in memory |
| VirtualMemory.AddressSpace.Map | cibos-kernel/src/paging.rs:246-294 | the in-place walk with its table and index variables computes the insertion function on memory and pool |
| VirtualMemory.AddressSpace.MapBlock2M | cibos-kernel/src/paging.rs:316-358 | likewise for blocks |
| VirtualMemory.AddressSpace.MapRange | cibos-kernel/src/paging.rs:370-403 | the range loop computes the range function, so leaves the entries of Ranges.MapRangeEntries |
| VirtualMemory.AddressSpace.Translate | cibos-kernel/src/paging.rs:412-443 | the read-only walk returns the translation of the address |
| VirtualMemory.AddressSpaceManager.CreateSpace | cibos-kernel/src/address_space.rs:95-115 | updates table, pool and memory as the create function does |
| VirtualMemory.AddressSpaceManager.MapNewPages | cibos-kernel/src/address_space.rs:139-164 | the allocation loop computes the map-new-pages function |
| VirtualMemory.AddressSpaceManager.MapExisting | cibos-kernel/src/address_space.rs:180-196 | computes the share function |
| VirtualMemory.AddressSpaceManager.TranslateIn | cibos-kernel/src/address_space.rs:204-213 | translates in the boundary's own space, or reports an unknown boundary |
| VirtualMemory.AddressSpaceManager.DestroySpace | cibos-kernel/src/address_space.rs:223-233 | the freeing loop computes the destroy function |
| VirtualMemory.LoadAppImage | kernel-image/src/loader.rs:174-238 | the segment loop computes the load function, so succeeds exactly when Loader.LoadsExactly says and sets the permissions of Loader.LoadedPermissions |
| VirtualMemory.CopyIntoFrame | kernel-image/src/loader.rs:174-238 | the byte copy fills a zeroed frame with exactly the segment's bytes that land in its page, the page end taken modulo 2^64 |
| VirtualMemory.MapUserStack | kernel-image/src/loader.rs:246-269 | the page loop computes the stack function |
| VirtualMemory.PrepareApp | kernel-image/src/loader.rs:290-338 | root, kernel range, segments, stack and heap in order compute the start function, stopping at the first failure |
| LittleEndian.DecodeEncode | shared/src/utils/serialization.rs:74-96 | every value that fits its width is read back as written |
| LittleEndian.EncodeDecode | shared/src/utils/serialization.rs:176-204 | every byte string is the encoding of the value it decodes to |
| Volume.AllocBlockSpec | cibos-kernel/src/fs.rs:369-377 | the lowest clear block is marked and only it; failure exactly when none is clear |
| FsErrors.LowestBlock | cibos-kernel/src/fs.rs:369-377 | block i is handed out, and its bit alone set, if and only if it is clear and every lower one is marked; no space if and only if all are |
| FsErrors.ClearIsCount | cibos-kernel/src/fs.rs:369-377 | the count of clear blocks that decides about space is the number of clear bits |
| Volume.AllocSlotsSpec | cibos-kernel/src/fs.rs:404-419 | slots are allocated if and only if enough blocks are clear, with different blocks that were clear; a failed attempt only leaves marks |
| Volume.FreeSlotsSpec | cibos-kernel/src/fs.rs:419-426 | freeing a range of slots clears exactly the marks of their blocks |
| Volume.WriteDataCorrect | cibos-kernel/src/fs.rs:404-436 | replacing an inode's contents fails exactly for too much data or too few clear blocks; on success it reads back as the data for every growth and shrinkage, every other inode keeps its contents, no block is shared, and the marks change by exactly the blocks given up and taken |
| Volume.ShrinkReuses | cibos-kernel/src/fs.rs:404-436 | contents that need no more blocks than before stay in blocks they had |
| Directories.DecodeEncodeDir | cibos-kernel/src/fs.rs:441-478 | a re-encoded directory reads back as its entries |
| Directories.UniquePath | cibos-kernel/src/fs.rs:530-547 | in a tree-like directory graph no inode has two paths |
| Directories.AddedPath | cibos-kernel/src/fs.rs:481-492 | adding an entry gives one new path and leaves the walk of every other path |
| Directories.RemovedPath | cibos-kernel/src/fs.rs:506-520 | removing a file's entry removes one path and leaves every other |
| FileSystem.FirstFreeSpec | cibos-kernel/src/fs.rs:330-338 | the scan returns a free inode or there is none |
| FsErrors.LowestInode | cibos-kernel/src/fs.rs:330-338 | inode i is handed out if and only if it is the lowest free one beside the root; no space if and only if there is none |
| FileSystem.ResolveIsWalk | cibos-kernel/src/fs.rs:530-536 | resolving a path is walking the tree, succeeds exactly when the path names something, and yields an inode in use |
| FsErrors.ResolveExactly | cibos-kernel/src/fs.rs:530-536 | a path that leads nowhere is of the wrong kind if it runs through a file and not found otherwise |
| FileSystem.ReadFileIsNode | cibos-kernel/src/fs.rs:607-614 | reading succeeds exactly on paths naming a file and returns that file's bytes |
| FsErrors.ReadFileExactly | cibos-kernel/src/fs.rs:607-614 | the bytes of the file named, the wrong kind for a directory, and otherwise the error of the lookup |
| FsTheorems.MkdirCorrect | cibos-kernel/src/fs.rs:555-569 | on success exactly one directory node appears; on any error no path changes; an existing path is refused; the invariant is kept; FsOutcomes.MkdirSucceeds says when it succeeds |
| FsTheorems.WriteFileCorrect | cibos-kernel/src/fs.rs:577-600 | on success the path names a file with exactly the data and every other path is as it was; on error every other path is as it was and the path itself is at most a new empty file; FsOutcomes.WriteFileSucceeds says when |
| FsOutcomes.MkdirSucceeds | cibos-kernel/src/fs.rs:555-569 | `mkdir` succeeds if and only if the path names nothing, its parent exists, an inode is free, and the parent is a directory with room for a short enough name |
| FsOutcomes.WriteFileSucceeds | cibos-kernel/src/fs.rs:577-600 | `write_file` succeeds if and only if the data fits into the file that is there or into one that can be made; a failing one leaves a new empty file if and only if the file could be made and the data does not fit, and otherwise leaves the path as it was |
| FsErrors.MkdirExactly | cibos-kernel/src/fs.rs:555-569 | which error `mkdir` returns, by the tree, the free inodes and the clear blocks before it, and that it returns the lowest free inode otherwise |
| FsErrors.WriteFileExactly | cibos-kernel/src/fs.rs:577-600 | which error `write_file` returns, and that it succeeds otherwise |
| FsTheorems.WriteThenRead | cibos-kernel/src/fs.rs:577-614 | after a successful write the file reads back as written and every other readable file as before |
| FsTheorems.RemoveFileCorrect | cibos-kernel/src/fs.rs:644-664 | removal succeeds exactly on paths naming a file and never runs out of space; only that path vanishes; the marks lost are exactly those of the file's blocks and of blocks its directory gave up; otherwise nothing changes |
| FsErrors.RemoveFileExactly | cibos-kernel/src/fs.rs:644-664 | which error `remove_file` returns, and that it succeeds otherwise |
| FsListing.ListsExactly | cibos-kernel/src/fs.rs:621-629 | the list of a directory names exactly what is in it, each name once, with its inode and whether it is a directory; a file is of the wrong kind, and other paths give the error of the lookup |
| FsListing.MkdirLists | cibos-kernel/src/fs.rs:555-569 | a new directory lists nothing and comes last in its parent's list; every other list is as it was |
| FsListing.WriteFileLists | cibos-kernel/src/fs.rs:577-600 | a new file comes last in its parent's list; overwriting changes no list; every other list is as it was |
| FsListing.RemoveFileLists | cibos-kernel/src/fs.rs:644-664 | a removed file is taken out of its parent's list, the order kept; every other list is as it was |
| FsRuns.RunKeeps | cibos-kernel/src/fs.rs:369-664 | over every run, failures included, every block in use lies in the data region, is marked and is used once; the marks are exactly the blocks in use if and only if they were at the start and no write ran out of clear blocks on the way |
| FsRuns.ApplyExact | cibos-kernel/src/fs.rs:555-664 | one operation keeps the marks exact if and only if it does not run out of clear blocks on the way |
| FsRuns.RunLeavesOtherPaths | cibos-kernel/src/fs.rs:555-664 | a path no operation of the run names keeps its node, whatever fails |
| FsLosses.NoSpaceLosesAllBlocks | cibos-kernel/src/fs.rs:404-419 | a write that runs out of space loses exactly the blocks that were clear: they end up marked, none is left clear, and no inode changes |
| FsExamples.LeakExample | cibos-kernel/src/fs.rs:577-600 | on every formatted volume of two blocks, writing two blocks to a new file leaves a marked block that belongs to nobody |
| FsLosses.CreateExactly | cibos-kernel/src/fs.rs:481-492 | entering a new name fails exactly when the parent is a file, the name too long, the directory full or a needed block not clear; the inode claimed for it then stays taken; no block is lost either way |
| FsLosses.MkdirLosses | cibos-kernel/src/fs.rs:555-569 | `mkdir` never loses a block, and leaves an inode taken that no path names if and only if the name cannot be entered, a parent that is a file included |
| FsLosses.OverwriteLosses | cibos-kernel/src/fs.rs:404-436 | replacing a file's bytes loses blocks if and only if some but too few blocks are clear |
| FsLosses.WriteFileLosses | cibos-kernel/src/fs.rs:577-600 | `write_file` loses blocks if and only if the clear ones run out on the way, and an inode if and only if a new name cannot be entered into the parent directory |
| FsLosses.RemoveFileLosses | cibos-kernel/src/fs.rs:644-664 | `remove_file` loses neither blocks nor inodes |
| FsExamples.LongNameExample | cibos-kernel/src/fs.rs:555-569 | on every formatted volume a 24-byte name is refused and costs an inode |
| FsExamples.UnderFile | cibos-kernel/src/fs.rs:555-600 | under any path that names a file, `mkdir` is refused and costs an inode, while `write_file` is refused and changes nothing |
| FsExamples.FileParentExample | cibos-kernel/src/fs.rs:555-600 | a formatted volume and a first file on which both happen |
| FsRuns.PartsArePlain | cibos-kernel/src/fs.rs:525-527 | path components are non-empty and hold no slash |
| FsRuns.SplitsAtSlashes | cibos-kernel/src/fs.rs:525-527 | the components of two paths joined by a slash are those of the one and then of the other, those of a name without slash are the name, and those of the empty path none |
| FsRuns.ComponentsOfJoin | cibos-kernel/src/fs.rs:525-527 | every sequence of plain names is the component list of its slash-joined path |
| DiskFormat.SbRoundTrip | cibos-kernel/src/fs.rs:116-149 | a written superblock reads back as itself |
| DiskFormat.InodeRoundTrip | cibos-kernel/src/fs.rs:159-186 | a written inode is 64 bytes and reads back as itself |
| DiskLayout.DecodesTo | shared/src/utils/serialization.rs:176-204 | bytes decode to a value if and only if byte k is the value divided by 256^k, modulo 256 |
| DiskLayout.SbReads | cibos-kernel/src/fs.rs:130-149 | a block mounts if and only if it starts with "CIBOSFS1" and version 1, and then as the superblock whose fields stand at bytes 12, 16, 24, 32, 40, 48 and 56 |
| DiskLayout.SbLayout | cibos-kernel/src/fs.rs:116-129 | a block is a written superblock if and only if it holds those fields and zeros after them |
| DiskLayout.InodeReads | cibos-kernel/src/fs.rs:171-181 | sixty-four bytes read as an inode if and only if they hold its kind at byte 0, its size at byte 8 and its block addresses from byte 16 on |
| DiskLayout.InodeLayout | cibos-kernel/src/fs.rs:159-169 | they are a written inode if and only if, besides, the reserved bytes are zero |
| DiskLayout.InodeOnDevice | cibos-kernel/src/fs.rs:304-314 | inode i of the volume is read off the device at byte 64 i of the table behind superblock and bitmap |
| DiskLayout.KindOnDevice | cibos-kernel/src/fs.rs:61-63 | a volume's directories are the inodes of kind 2 on the device and its files those of kind 1 |
| DiskLayout.BitOnDevice | cibos-kernel/src/fs.rs:342-350 | data block i is marked if and only if bit i modulo 8, from the lowest, of byte i/8 behind the superblock is set |
| DiskLayout.ByteOnDevice | cibos-kernel/src/fs.rs:389-400 | byte k of a file or directory is byte k modulo 512 of the block whose address stands at place k/512 of its inode |
| DiskLayout.EntReads | cibos-kernel/src/fs.rs:441-462 | a slot holds an entry if and only if its number, name length and name stand there and the number is not 0; it is passed over exactly when the number is 0 or the length above 23 |
| DiskLayout.EntLayout | cibos-kernel/src/fs.rs:464-478 | thirty-two bytes are a written entry if and only if they hold those fields and zeros after the name |
| DiskLayout.EntryStands | cibos-kernel/src/fs.rs:464-478 | entry i of a written directory stands at byte 32 i |
| DiskFormat.PutBitSpec | cibos-kernel/src/fs.rs:352-366 | setting or clearing a bit of a byte changes that bit only |
| DiskFormat.PutInodeIsSetInode | cibos-kernel/src/fs.rs:316-328 | writing an inode's bytes on the device replaces that inode of the volume and touches no other inode, bit, data block or the superblock |
| DiskFormat.PutBitIsSetBit | cibos-kernel/src/fs.rs:352-366 | writing a bitmap bit changes that block's mark and nothing else |
| DiskFormat.PutDataIsWriteBlock | cibos-kernel/src/fs.rs:404-436 | writing a data block leaves superblock, bitmap and inode table alone |
| CibosFs.SizeBitmap | cibos-kernel/src/fs.rs:213-245 | the sizing loop ends, with a bitmap that covers the data blocks left beside it and has exactly the blocks that the data beside one bitmap block needs; it reports no space exactly when one bitmap block leaves no data block |
| CibosFs.Fs.Format | cibos-kernel/src/fs.rs:213-277 | succeeds exactly when there is an inode and room for a data block, with the right error otherwise; regions are disjoint and fill the device, with exactly the inode and bitmap blocks needed, so the number of data blocks is determined; the volume is an empty root with every block free |
| CibosFs.Fs.Mount | cibos-kernel/src/fs.rs:284-289 | a device left by a mounted filesystem mounts as the same volume; a foreign one is refused |
| CibosFs.FreshIsWellFormed | cibos-kernel/src/fs.rs:213-277 | a formatted volume satisfies every invariant, and so does the volume after any run from it; its marks are then exact if and only if no write ran out of clear blocks on the way |
| CibosFs.Fs.ReadBlock | cibos-kernel/src/block.rs:76-95 | one block, refused exactly beyond the end of the device |
| CibosFs.Fs.ReadInode | cibos-kernel/src/fs.rs:304-314 | block and offset arithmetic returns the inode of the volume, or not found past the table |
| CibosFs.Fs.WriteInode | cibos-kernel/src/fs.rs:316-328 | the read-modify-write of a block sets that inode of the volume |
| CibosFs.Fs.AllocInode | cibos-kernel/src/fs.rs:330-338 | the scan finds the lowest free inode after the root |
| CibosFs.Fs.BitGet | cibos-kernel/src/fs.rs:342-350 | reads the block's mark |
| CibosFs.Fs.BitSet | cibos-kernel/src/fs.rs:352-366 | the read-modify-write sets the block's mark |
| CibosFs.Fs.AllocBlock | cibos-kernel/src/fs.rs:369-377 | the bitmap scan computes block allocation |
| CibosFs.Fs.FreeBlock | cibos-kernel/src/fs.rs:379-384 | clears the mark, or reports corruption below the data region |
| CibosFs.Fs.ReadInodeData | cibos-kernel/src/fs.rs:389-400 | the block loop returns the inode's contents |
| CibosFs.Fs.WriteInodeData | cibos-kernel/src/fs.rs:404-436 | allocate, free, write and inode update together do to the volume what the write function does |
| CibosFs.Fs.ReadDirEntries | cibos-kernel/src/fs.rs:441-462 | the entry loop returns the directory's entries, or not found if a child is out of range |
| CibosFs.Fs.Lookup | cibos-kernel/src/fs.rs:494-501 | finds the entry of that name |
| CibosFs.Fs.AddEntry | cibos-kernel/src/fs.rs:481-492 | re-encodes the directory with the entry added |
| CibosFs.Fs.RemoveEntry | cibos-kernel/src/fs.rs:506-520 | re-encodes the directory without the name |
| CibosFs.Fs.Resolve | cibos-kernel/src/fs.rs:530-536 | the component loop resolves the path, stopping at the first error |
| CibosFs.Fs.Mkdir | cibos-kernel/src/fs.rs:555-569 | on blocks, does to the volume what the mkdir function does |
| CibosFs.Fs.WriteFile | cibos-kernel/src/fs.rs:577-600 | on blocks, does to the volume what the write-file function does |
| CibosFs.Fs.ReadFile | cibos-kernel/src/fs.rs:607-614 | on blocks, returns what the read-file function returns |
| CibosFs.Fs.ListDir | cibos-kernel/src/fs.rs:621-629 | on blocks, returns what the list function returns |
| CibosFs.Fs.PathExists | cibos-kernel/src/fs.rs:632-634 | whether the path resolves |
| CibosFs.Fs.RemoveFile | cibos-kernel/src/fs.rs:644-664 | on blocks, does to the volume what the remove-file function does |
| AppHeap.AlignUpSpec | cibos-app/src/heap.rs:39-41 | clearing the low bits after adding gives the least multiple of the alignment at or above the address |
| AppHeap.NoWrap | cibos-app/src/heap.rs:76-96 | for legal layouts in the lower half of the address space no address computation wraps |
| AppHeap.EveryByteOwned | cibos-app/src/heap.rs:61-173 | every byte of the region lies in exactly one block, which is free or live and not both |
| AppHeap.PayloadsApart | cibos-app/src/heap.rs:76-123 | payloads with their stashed bases overlap neither each other nor any block header |
| AppHeap.AllFreed | cibos-app/src/heap.rs:127-173 | with nothing allocated the heap is exactly its initial single block |
| AppHeap.AllocCorrect | cibos-app/src/heap.rs:76-123 | an allocation gives an aligned payload at least as large as asked, in a block of its own, every other allocation untouched, tiling and full coalescing kept; HeapExact.AllocExactly says when and which |
| HeapExact.AllocExactly | cibos-app/src/heap.rs:76-123 | null if and only if no free block has room for a payload aligned as asked and to 8, at least 24 bytes in and of a whole number of words that holds the size; otherwise the payload is the lowest such place of the first free block in the list that has one, with fewer than 8 bytes more than asked, and the rest of the block stays free in its place if a header fits and is given along otherwise |
| AppHeap.CoalesceKeepsSound | cibos-app/src/heap.rs:144-173 | whatever the list, a pass ends and keeps the tiling and every allocation |
| HeapExact.CoalesceKeepsOrder | cibos-app/src/heap.rs:144-173 | a pass frees nothing new, leaves the blocks that stay free in list order, and changes the size of no live block |
| AppHeap.CoalesceExactly | cibos-app/src/heap.rs:144-173 | a pass leaves no two adjacent free blocks if and only if of three free blocks in a row the middle one always precedes the first in the list |
| AppHeap.CoalesceExample | cibos-app/src/heap.rs:144-173 | three free blocks in address order and list order: one pass leaves two adjacent ones |
| AppHeap.PushedMiddleFirst | cibos-app/src/heap.rs:127-140 | the list a free hands to the pass always meets that condition: only the new head can be adjacent to another free block, and the head comes first |
| AppHeap.DeallocCorrect | cibos-app/src/heap.rs:127-140 | freeing returns the block and restores full coalescing |
| HeapExact.DeallocExactly | cibos-app/src/heap.rs:127-140 | the other allocations keep their blocks; the freed block lies in a free one; the list is the old one with it in front and without the blocks absorbed, in order; no two free blocks are adjacent, so the heap is determined |
| AppHeap.RunKeeps | cibos-app/src/heap.rs:61-173 | after any run of allocations and frees blocks tile the region and no two free ones are adjacent; when everything has been freed, in any order, the heap is the single initial block |
| HeapMemory.Allocator.Init | cibos-app/src/heap.rs:61-72 | installs one free block once, if a header fits; otherwise nothing changes |
| HeapMemory.Allocator.Store | cibos-app/src/heap.rs:76-123 | a program writing any aligned word of a payload it holds disturbs no header, link or stashed base |
| HeapMemory.Allocator.Alloc | cibos-app/src/heap.rs:76-123 | the pointer walk over the linked list returns the payload the first-fit function returns, so that of HeapExact.AllocExactly, and leaves memory holding its heap |
| HeapMemory.Allocator.Use | cibos-app/src/heap.rs:96-115 | the header, link and stash writes of a split or a whole-block use represent the carved heap |
| HeapMemory.Allocator.Dealloc | cibos-app/src/heap.rs:127-140 | the stashed word recovers the true block; memory then holds the heap after the free |
| HeapMemory.Allocator.Coalesce | cibos-app/src/heap.rs:144-173 | the nested pointer loops with restarts compute the coalescing pass and end |
| HeapMemory.Allocator.Absorb | cibos-app/src/heap.rs:146-170 | one block's turn, with its end computed once and the scan restarted after a merge, is one step of the pass |
| Scheduling.ClockToSpec | cibos-kernel/src/scheduler.rs:161-181 | moving the clock readies exactly the matured timer waits, behind the lanes already ready, and leaves every other wait |
| Scheduling.AdvanceClockSpec | cibos-kernel/src/scheduler.rs:161-181 | the clock saturates and never goes back, and no matured timer stays stalled |
| Scheduling.NextTimerSpec | cibos-kernel/src/scheduler.rs:193-228 | true exactly when a lane waits for a timer; then the clock does not pass the earliest deadline, some lane becomes ready, and no matured timer stays stalled |
| Scheduling.DispatchSplits | cibos-kernel/src/scheduler.rs:142-157 | the batch and what stays ready are together exactly what was ready |
| Scheduling.RunKeeps | cibos-kernel/src/scheduler.rs:88-244 | over every run no lane is ready twice or both ready and stalled, and the clock never goes back |
| Waiting.RegisterExactly | cibos-kernel/src/scheduler.rs:232-236 | for every resource and state: the lane waits for exactly that resource, every other lane for what it did, and the ready list is the old one with the lane taken out |
| Waiting.SignalExactly | cibos-kernel/src/scheduler.rs:238-244 | a signalled lane waits no more and queues up last, or keeps its place if it was ready; no other lane changes |
| Waiting.CompleteExactly | cibos-kernel/src/scheduler.rs:88-94 | a completed lane neither waits nor is ready; no other lane changes |
| Waiting.DispatchExactly | cibos-kernel/src/scheduler.rs:142-157 | a batch leaves the other ready lanes in order and every wait as it was |
| Waiting.ClockExactly | cibos-kernel/src/scheduler.rs:161-181 | the lanes whose timers have matured queue up behind the ready ones in ascending order, and every other lane waits for what it did |
| Waiting.AdvanceExactly | cibos-kernel/src/scheduler.rs:161-181 | the clock moves by the given time, and to its largest value if that is beyond it |
| Waiting.NextTimerExactly | cibos-kernel/src/scheduler.rs:193-228 | the clock moves to the earliest deadline any lane waits for, and stays if that has passed |
| Waiting.TimerWakes | cibos-kernel/src/scheduler.rs:161-236 | over every run in which nothing names the lane, it waits on its timer until the clock is moved and has reached the deadline, and is ready from then on |
| Waiting.WaitEnds | cibos-kernel/src/scheduler.rs:161-236 | a lane that registers for a timer ahead of the clock and is left alone is ready if and only if the clock has reached the deadline |
| Scheduler.Kernel.WeightFor | cibos-kernel/src/scheduler.rs:123-135 | the weight of every class under every profile: 1 each under maximum isolation; 3 for system lanes and else 1 under balanced; 5, 2 and 1 for system, user and background lanes under performance; the override or else 1 under compute; lanes not registered count as user lanes |
| Scheduler.Kernel.RegisterLane | cibos-kernel/src/scheduler.rs:83-85 | the lane has the class given and every other lane the class it had |
| Scheduler.Kernel.SetLaneWeight | cibos-kernel/src/scheduler.rs:250-256 | an override is recorded, at least one, exactly under the compute profile |
| Scheduler.Kernel.TakeDispatchBatch | cibos-kernel/src/scheduler.rs:142-157 | as many distinct ready lanes as there are contexts, or all, leave the ready list; batch and remainder are what was ready; with competition the batch is drawn from the ready lanes at their weights, by tickets taken in turn from the random stream |
| Scheduler.Kernel.AdvanceClock | cibos-kernel/src/scheduler.rs:161-181 | the collecting and releasing loops compute the clock function |
| Scheduler.Kernel.AdvanceToNextTimer | cibos-kernel/src/scheduler.rs:193-228 | the minimum scan and release loops compute the next-timer function |
| Scheduler.Kernel.RegisterWait | cibos-kernel/src/scheduler.rs:232-236 | whatever the resource, the lane is stalled on exactly it and every other lane waits for what it did; the ready list is the old one with the lane taken out, in order; the invariant holds |
| Scheduler.Kernel.SignalReady | cibos-kernel/src/scheduler.rs:238-244 | the lane leaves stalled and is ready once |
| Scheduler.Kernel.NotifyComplete | cibos-kernel/src/scheduler.rs:88-94 | the lane is in neither list and its class and override are gone; every other lane waits for what it did, and the ready list keeps its order |
| Entropy.AcceptsHalf | cibos-kernel/src/entropy.rs:89-100 | at least half of all 64-bit values are accepted, exactly half only for the bound 2^63 |
| Entropy.Unbiased | cibos-kernel/src/entropy.rs:89-100 | every value below the bound has equally many accepted preimages |
| Entropy.StreamBlocks | cibos-kernel/src/entropy.rs:48-65 | block n of the stream is the hash of the key followed by n modulo 2^64, in eight bytes |
| Entropy.DrawsAreDetermined | cibos-kernel/src/entropy.rs:89-100 | key, position and bound determine a bounded draw and where the stream goes on |
| Entropy.Csprng.Refill | cibos-kernel/src/entropy.rs:48-55 | the block moves on by one with the counter wrapping, and no byte of the stream is skipped |
| Entropy.Csprng.NextByte | cibos-kernel/src/entropy.rs:58-65 | returns the next byte of the hash stream |
| Entropy.Csprng.NextWord | cibos-kernel/src/entropy.rs:75-81 | returns the next eight bytes, little-endian |
| Entropy.Csprng.NextBounded | cibos-kernel/src/entropy.rs:89-100 | returns the first accepted draw of the stream reduced below the bound, consuming the rejected ones and no more |
| Selector.PickExactly | cibos-kernel/src/selector.rs:66-80 | a ticket below the total picks lane i if and only if it lies in that lane's share of the running sum, so the walk never falls through |
| Selector.SharesMatchWeights | cibos-kernel/src/selector.rs:66-80 | exactly as many tickets pick a lane as its weight |
| Selector.FirstDraw | cibos-kernel/src/selector.rs:46-83 | in the first draw exactly as many tickets pick a ready lane as its weight says, zero counting as one |
| Selector.LaterDraw | cibos-kernel/src/selector.rs:57-83 | in every later draw, whatever was drawn before, a lane that is left has the same number of tickets |
| Selector.DrawsPartition | cibos-kernel/src/selector.rs:57-83 | drawn and remaining lanes together are the lanes there were, one fewer remaining per draw |
| Selector.DrawsDistinct | cibos-kernel/src/selector.rs:57-83 | distinct ready lanes give distinct chosen lanes, all of them ready |
| Selector.AfterDraw | cibos-kernel/src/selector.rs:57-83 | a draw takes the lane its ticket picks, and the last lane of the pool moves into its place |
| Selector.Draw | cibos-kernel/src/selector.rs:66-80 | the ticket is the bounded draw for the total weight at this position of the stream, and the ticket loop picks what the walk picks, in range |
| Selector.Select | cibos-kernel/src/selector.rs:46-83 | the smaller of ready and contexts many lanes: all of them, without a draw, if there is no competition; otherwise drawn without replacement by tickets that are the successive bounded draws of the stream, each for the weight then left |
| Channels.RunKeepsInv | cibos-kernel/src/channel.rs:133-213 | over every run, on every channel, received followed by buffered is what was accepted, within capacity; a stalled lane is still the recorded waiter of an open channel that is empty (receiver) or full (sender) |
| Channels.NoChannels | cibos-kernel/src/channel.rs:97-117 | a system without channels satisfies the invariant, so every run from it does |
| Channels.NoLostWakeUp | cibos-kernel/src/channel.rs:133-213 | no lane is stalled for data or room that is there, and the two ends are never stalled together |
| Channels.SendFreesReceiver | cibos-kernel/src/channel.rs:133-165 | a stalled receiver's peer can send; the receiver becomes ready and its next poll returns that message |
| Channels.ReceiveFreesSender | cibos-kernel/src/channel.rs:169-197 | a receive frees a stalled sender and its next poll is accepted |
| Channels.CloseFreesBoth | cibos-kernel/src/channel.rs:201-213 | closing leaves nobody stalled on the channel; what is buffered is still delivered, then the end shows |
| KernelChannel.Channel.TrySend | cibos-kernel/src/channel.rs:133-165 | channel and scheduler change as the send function says |
| KernelChannel.Channel.TryRecv | cibos-kernel/src/channel.rs:169-197 | channel and scheduler change as the receive function says |
| KernelChannel.Channel.Close | cibos-kernel/src/channel.rs:201-213 | the channel is closed and keeps its messages; both waiters are cleared and ready |
| KernelChannel.Channel.PollSend | cibos-kernel/src/channel.rs:247-261 | refused exactly if closed, or else too large; pending exactly if full, with the lane stalled on the buffer; otherwise the payload is queued and a waiting receiver ready; the poll stalls nobody else, and an error changes nothing |
| KernelChannel.Channel.PollRecv | cibos-kernel/src/channel.rs:269-277 | the oldest message, which readies a waiting sender, the end of a closed channel, or pending with the lane stalled on data; otherwise the poll stalls nobody |
| TypedChannels.StepRefines | cibos-sdk/src/channel.rs:297-362 | each operation keeps one token per value and answers as a plain bounded queue |
| TypedChannels.RunRefines | cibos-sdk/src/channel.rs:297-362 | over every run, whichever lanes act and whatever the scheduler does between, every call is answered as one bounded queue of values would |
| TypedChannels.TypedChannel.TrySend | cibos-sdk/src/channel.rs:297-335 | token then value, or neither |
| TypedChannels.TypedChannel.TryReceive | cibos-sdk/src/channel.rs:313-354 | token then value, never a token without one |
| TypedChannels.TypedChannel.CloseChannel | cibos-sdk/src/channel.rs:358-362 | closes the token channel and keeps queued values |
| Broker.QuietHost | cibos-sdk/src/broker.rs:42-48 | a host on which nothing has happened satisfies the invariant, so every run from it does |
| Broker.SubmitKeeps | cibos-sdk/src/broker.rs:52-63 | posting a request appends it and rings the doorbell if there is one, so a sleeper with mail has been rung; the invariant holds |
| Broker.ListenSpec | cibos-sdk/src/channel.rs:449-486 | listening takes the oldest request if there is one, however many stale tokens the doorbell holds, and otherwise sleeps on an empty doorbell; the request is delivered if and only if it is for the awaited message type |
| Broker.AwaitDelivers | cibos-sdk/src/channel.rs:449-486 | a poll of the await takes the oldest pending request if there is one, delivers it if and only if its message type is the awaited one, and otherwise sleeps; a mismatched request is gone from the mailbox all the same |
| Broker.NoMailWaits | cibos-sdk/src/channel.rs:449-486 | over every run a lane stalled on its doorbell has an empty mailbox, and an await with mail takes the oldest request at its next poll |
| Broker.DecisionReachesRequester | cibos-sdk/src/channel.rs:404-435 | right after submitting, the requester is stalled on its decision channel; the decision readies it and is what its next poll reads |
| Stranding.DecisionReaches | cibos-sdk/src/channel.rs:404-435 | whatever happens between submission and decision, and after it until it is read: the channel takes the decision, a requester stalled there is readied, and its next poll reads it |
| Stranding.AnswerWaits | cibos-sdk/src/channel.rs:404-435 | a decision stays the next thing its requester reads over every run that does not read it, closing the channel included |
| Stranding.NeverAnswered | cibos-sdk/src/channel.rs:427-460 | over every run that neither sends on nor closes an undecided channel, every poll of its requester pends and leaves it stalled there |
| Stranding.StaysStalled | cibos-sdk/src/channel.rs:427-460 | a stalled requester stays stalled over every such run in which nothing acts for its lane |
| Stranding.MismatchStrands | cibos-sdk/src/channel.rs:455-460 | an await of another message type removes the request from the mailbox without a decision, and its requester is then unanswered over every later run that leaves the channel alone |
| Stranding.StrandedExample | cibos-sdk/src/channel.rs:455-460 | two containers on which this happens |
| Stranding.StraySignal | cibos-sdk/src/channel.rs:427-460 | a stray signal readies such a requester without a decision, and its next poll stalls it again |
| Broker.ListenIsListenOn | cibos-sdk/src/channel.rs:449-486 | the await of the whole host is the await on that container's mailbox and doorbell |
| ChannelBroker.Rendezvous.Submit | cibos-sdk/src/broker.rs:52-63 | queues the request and rings |
| ChannelBroker.Rendezvous.DoorbellOf | cibos-sdk/src/broker.rs:67-77 | the same doorbell every time, made on first use, for 64 messages of one byte |
| ChannelBroker.Rendezvous.Take | cibos-sdk/src/broker.rs:80-85 | the oldest request, if any, leaves the mailbox |
| ChannelBroker.Rendezvous.Listen | cibos-sdk/src/channel.rs:449-486 | the retry loop computes the listening function, type mismatch included, and ends |
| ChannelBroker.Rendezvous.Await | cibos-sdk/src/channel.rs:449-486 | mailbox first, then the doorbell; a sleeping lane resumes in its receive; a request of another type is taken and reported, not delivered |
| ChannelBroker.IncomingRequest.Decide | cibos-sdk/src/channel.rs:404-425 | accepting sends the byte 1 and rejecting the byte 0, and wakes the requester |
| ChannelBroker.IncomingRequest.Drop | cibos-sdk/src/channel.rs:427-435 | a request dropped undecided is rejected; a decided one sends nothing more |
| InternetChecksum.FoldSpec | cibos-net/src/lib.rs:122-127 | folding ends, fits 16 bits, keeps the value modulo 65535, and reaches zero only from zero |
| InternetChecksum.ZeroComplement | cibos-net/src/lib.rs:122-127 | a sum checks out if and only if it is a positive multiple of 65535 |
| InternetChecksum.ComplementChecks | cibos-net/src/lib.rs:88-127 | adding the complement, or 0xFFFF in place of a zero one, makes a sum check out |
| InternetChecksum.WrappedComplementChecks | cibos-net/src/lib.rs:88-127 | the same for the wrapped 32-bit sum: filling in its complement never wraps it again |
| InternetChecksum.WrapExactly | cibos-net/src/lib.rs:88-103 | the code's checksum equals that of RFC 1071 if and only if the number of wraps is a multiple of 65535 and the wraps do not leave a zero sum |
| InternetChecksum.WrapExample | cibos-net/src/lib.rs:88-103 | 131076 bytes of ones wrap once, and the code's checksum is not that of RFC 1071 |
| InternetChecksum.NoOverflowExactly | cibos-net/src/lib.rs:108-118 | no input of n bytes overflows the 32-bit sum if and only if n is at most 131074 |
| InternetChecksum.OneWordChange | cibos-net/src/lib.rs:88-103 | under RFC 1071, changing one aligned word of data that checks out goes unnoticed if and only if the words agree modulo 65535 and the data does not become all zeros |
| InternetChecksum.Accumulate | cibos-net/src/lib.rs:108-118 | the two-byte loop with its odd tail adds the word sum, modulo 2^32 |
| InternetChecksum.FoldSum | cibos-net/src/lib.rs:122-127 | the folding loop ends with the complement |
| InternetChecksum.Compute | cibos-net/src/lib.rs:88-103 | the loops compute the checksum, for data of any length |
| WireFormat.SumsAgree | cibos-net/src/lib.rs:108-118 | the sum taken by the loop is that of the 16-bit words of the data, an odd last byte padded on the right |
| Ethernet.RoundTrip | cibos-net/src/ethernet.rs:23-62 | frames and buffers of at least a header correspond one to one; padding is payload |
| WireFormat.FrameLayout | cibos-net/src/ethernet.rs:46-62 | bytes are the encoding of a frame if and only if they are destination, source, type and payload |
| Ethernet.Build | cibos-net/src/ethernet.rs:46-62 | writes exactly the frame at the front of the buffer, or nothing if it does not fit |
| Ipv4.RoundTrip | cibos-net/src/ipv4.rs:27-92 | parsing a built packet recovers it, whatever follows it in the buffer |
| WireFormat.Ipv4Layout | cibos-net/src/ipv4.rs:65-92 | bytes are the encoding of a packet if and only if version and header length, total length, identification, flags, time to live, protocol and addresses stand where section 3.1 of RFC 791 puts them, the header's words add up to a multiple of 65535 and the checksum field is not 0xFFFF |
| WireFormat.Ipv4Reads | cibos-net/src/ipv4.rs:27-55 | which buffers hold a packet, which one, and which error the others get, by bytes and sums of words |
| Ipv4.CorruptionRefused | cibos-net/src/ipv4.rs:27-55 | a header, options included, with one word changed to another not congruent to it is refused, as malformed if the total length no longer fits and as a bad checksum otherwise, unless the change reaches the first byte |
| Ipv4.FirstWordChange | cibos-net/src/ipv4.rs:27-55 | an accepted packet with another first word stays accepted if and only if the version is 4, the header fits, and the words its new length adds or drops balance the change modulo 65535 |
| Ipv4.FirstByteUnprotected | cibos-net/src/ipv4.rs:27-55 | every packet with a certain four-byte payload stays acceptable when its header length is raised by a word |
| Ipv4.Build | cibos-net/src/ipv4.rs:65-92 | writes exactly the packet with its header checksum, or nothing if it does not fit |
| Udp.RoundTrip | cibos-net/src/udp.rs:25-94 | parsing a built datagram recovers it, odd lengths, the zero checksum rule and trailing padding included |
| WireFormat.UdpLayout | cibos-net/src/udp.rs:53-94 | bytes are the encoding of a datagram if and only if ports and length stand where RFC 768 puts them, the words of addresses, protocol 17, length and datagram add up to a multiple of 65535 and the checksum field is not 0 |
| WireFormat.UdpReads | cibos-net/src/udp.rs:25-48 | which buffers hold a datagram, which one, and which error the others get; a zero checksum field is not checked |
| Udp.ChecksumField | cibos-net/src/udp.rs:68-94 | the field is never zero |
| Udp.SumUp | cibos-net/src/udp.rs:53-94 | summing pseudo-header and datagram in 32 bits never wraps and gives the full sum's complement |
| Udp.Build | cibos-net/src/udp.rs:68-94 | writes exactly the datagram with its pseudo-header checksum, or nothing if it does not fit |
| Icmp.RoundTrip | cibos-net/src/icmp.rs:30-89 | parsing a built echo message recovers it, for payloads of any length, wrapped sums included |
| WireFormat.EchoLayout | cibos-net/src/icmp.rs:75-89 | bytes, however many, are the encoding of a message if and only if type 8 or 0, code 0, identifier and sequence number stand where RFC 792 puts them, the words add up in 32 bits to a positive multiple of 65535, and the checksum field is 0xFFFF only where the other words add up to zero |
| WireFormat.EchoReads | cibos-net/src/icmp.rs:30-51 | which buffers hold a message, which one, and which error the others get |
| Icmp.Build | cibos-net/src/icmp.rs:75-89 | writes exactly the message with its checksum, or nothing if it does not fit |
| NetStack.DatagramArrives | cibos-net/src/udp.rs:25-94 | a datagram in a packet in a frame with any padding arrives as it was sent |

## Left out

- Cryptography, accounts, login and image signatures; hashes are parameters.
- Ring-3 entry, trap handling, device drivers, boot phases and, in the loader, everything but preparing an application's address space.
- The `usable` counter of the frame allocator, which nothing reads back.
- Crash consistency, read-only devices and device errors in CIBOSFS.
- Multi-core interleavings inside a channel operation, several receivers on one channel, and `with_timeout` and `select!`.
- Channel, memory and container limit counters; syscall dispatch, gates, Warden, key queue and the graphical and mobile surfaces: easy invariants.
- The device-tree, multiboot and image-format parsers and ARP: bounds checks and round trips easier than those here.
- Entropy.Csprng.NextBounded: takes a position at which the stream has an accepted draw, since for an arbitrary hash the retry loop need not end.
- Selector.Select: takes a stream that from every position has an accepted draw ahead, for the same reason; the scheduler's dispatch inherits this.
- Selector.Draw: takes the same streams, as does Scheduler.Kernel.TakeDispatchBatch.
- Scheduler.Kernel.TakeDispatchBatch: see Selector.Select; on other streams the retry loop of a draw need not end.
- CibosFs.Fs.FreeBlock: takes a block of the volume or one below the data region; the callers free only blocks an inode holds, and past the data region the code would change bits it does not own.
- InternetChecksum.Checksum: is the release build's; that a build with overflow checks stops at the first wrap is not modelled.
- HeapMemory.Allocator.Store: a program's writes are modelled as aligned words, not bytes, so a payload's last odd bytes are not written on their own.
- Channels.RunKeepsInv: payload delivery order and wake-ups are proved for one sending and one receiving lane per channel; a second blocked receiver would overwrite the recorded waiter.
