# COSEC in Dafny

COSEC is a small i386 kernel. This project models the parts of it whose correctness rests on invariants that
several operations keep together, and proves those invariants and what follows from them:

- the first-fit kernel heap (`FirstFitSpec`, `FirstFitRuns`, `FirstFit`),
- the virtio network rings and the receive list (`VirtqRing`, `VirtioTx`, `VirtioTxDriver`, `TxInterrupts`, `VirtioRx`, `ReceiveList`, `VirtioRxDriver`, `EnqueueWindow`, `ReceiveWindow`, `RxInterrupts`),
- page tables, ELF loading, the break and the stack (`PageWords`, `PageTables`, `AddressSpace`, `FrameCount`, `Paging`, `Machine`, `Process`, `ProcessMemory`),
- ramfs: directory hash table, inode tree, files, names and link counts (`RamfsDirSpec`, `RamfsDir`, `InodeTreeSpec`, `InodeTree`, `RamfsFile`, `LinkSpec`, `VolumeSpec`, `Volume`),
- the Ethernet CRC-32 (`CrcTable`, `Crc32`),
- the round-robin scheduler (`SchedulerSpec`, `Scheduler`),
- the Internet checksum and the neighbour cache (`InternetChecksum`, `Neighbors`).

`Options`, `Division` and `FiniteSets` are shared helpers.

Code that changes state in place is a class whose methods are proved against functions on values; what the kernel
promises is then proved about those functions, over whole runs where it is a promise about runs. `dafny verify
dfyconfig.toml` verifies everything.

## How the parts fit together

**Heap.** Memory is a map from address to 32-bit word. `Encodes` says that the headers in it spell a sequence of
chunks: prev and next mutually inverse, checksums right. `Valid` is the invariant of that sequence: the chunks tile the
area up to a used sentinel, no two free ones are neighbours, headers are 4-byte aligned, `current` is one of them. The
split in malloc marks the following chunk used without looking; that is right only because of the second clause.

**Virtio.** Driver and device are one state machine; a claim, a publication, a reaping and each access of the device are
steps. The device
may return what it took once each, in any order. The state counts publications and returns without wrapping; the
driver classes hold the 16-bit indices, and `VirtqRing` shows that the two agree exactly when the queue size divides
65536. Between any two driver steps the device may run: `DeviceRuns` and `DeviceTurn` stand for that, and their
callers use nothing but their contracts.

Interrupts are enabled while a process transmits, takes a packet or recycles a buffer, and the handler transmits and
recycles too. `TxInterrupts` and `RxInterrupts` therefore split the operations into single accesses: an enqueue scans,
claims, reads the index, writes the slot and raises the index; a removal from the list is one step for each pointer it
writes; and everybody else may run in between. They say exactly which steps then lose a frame, a buffer or a packet,
and what holds as long as there are none.

**Address spaces.** Every allocated frame has one owner: it is a directory, the table of one directory entry, or the
data of one page. `Walk` is the hardware's two-level walk over the bytes of the frames. `Stored` says that a range of
bytes now reads as given through one directory and that no other readable byte of any directory changed. `Missing`
counts the frames a range of pages still needs; every operation that maps pages takes exactly that many. `PteAt` is the
page's own entry: pages that were mapped keep theirs, and the flags of new ones are stated bit by bit.

**ramfs.** `LinkSpec` has a directory as a map from names to indices and counts the names of each inode. `Volume` is the
code: indices come from the radix tree, names from the hash table of each directory, and every operation is proved
to do to the maps what `LinkSpec` says. A path is looked up by searches (`Follow`), each of which answers with the first
entry that has the hash of the name and begins with it; that is as the maps say whenever no longer name of equal hash
stands in the way (`ClearPath`), and in any case an inode that is alive.

**CRC.** The laws hold for any additive map on any kind of register and are used for 32 bits at the end, so that the
proofs do not go through the bits more often than they must.

## Where code and promise differ

Each of these has a concrete witness or an if-and-only-if in the model.

- `firstfit_malloc` promises a block whenever a free chunk is large enough. A free chunk of 2^31 bytes or more looks
  negative to its size test and is passed over (`HugeChunkIsSkipped`, `MallocComplete`).
- `firstfit_new` accepts areas from 45 bytes on; the heap is consistent exactly if a chunk fits before the sentinel,
  which for an aligned area means 48 bytes (`New`, `RoomFrom48`).
- Wrapping ring indices pick the right slot exactly for queue sizes that divide 65536 (`WrapNeedsGoodSize`).
- `pagedir_alloc` writes to frame 0 when memory is full (`PagedirAlloc`).
- `btree_set_leaf` promises index 0 only if there is no free leaf. It finds room exactly if some leaf has its first
  slot taken and another one free (`RoomExact`); in other leaves it stores the inode and reports failure (`SetLeafGet`).
- `btree_new_leaf` grows the tree but does not store the inode, and the grown tree is uniform exactly if the old one
  was a single node (`NewLeafIndex`, `GrowUniform`).
- `ramfs_directory_search` compares a prefix. It finds the entry of the name exactly if no longer name with that prefix
  and that hash stands before it in the bucket, and none at all if the name is unbound (`SearchExact`). With a
  length beyond the end of the name that is always so (`SearchWhole`). For every bounded hash, as `strhash` is one,
  some directory gives a wrong answer (`NoHashIsSafe`).
- Listing a directory through its hash iterator visits every entry once exactly if hashes are distinct and, but for
  the first entry's, not 0 (`ListedExact`).
- `ramfs_read_inode` limits a first partial block by the file size, not by what is left of it, and does not limit the
  last partial block when the end of the request exceeds INT_MAX. A read is right exactly if it starts beyond the end,
  or stays inside the file up to the end of a first partial page and either ends below 2^31 or the file ends on a
  page boundary (`ReadIsRight`, `ReadBeyondEnd`, `ReadOverrun`).
- A write that fails with EIO still sets the size to the end of the request, and counts a block it did not get (`Write`).
- `ramfs_make_directory` keeps link counts right exactly if the parent path leads to no directory, or the name is free and
  the tree has room, or neither (`MkdirExact`). A taken name leaves one link too many; a full tree leaves a name that leads nowhere.
- A process that transmits can be interrupted between finding a free descriptor and claiming it, and the handler may send
  a frame there. Both then use one descriptor: one frame is sent twice and the other never (`TxInterrupts.LosingRun`).
  Descriptors and rings stay in order exactly if no claim takes a descriptor that is no longer free, no slot write hits
  an unread slot and no index is raised over another descriptor (`TxInterrupts.RunExact`).
- Interrupts are enabled while a consumer recycles a buffer or takes a packet off the receive list. An enqueue that is
  interrupted by others loses an entry, unless the stale slot behind happens to hold it (`EnqueueExact`, `LosingRun`).
  A removal that is interrupted by arriving packets loses them or breaks the list, unless there was another packet on it
  and either no write had been made or the one removed is in the middle (`UnlinkExact`, `RemovalExact`, `DroppedRun`).

## Assumptions

- The heap area ends below 0xFFFFFFF0, so that the address arithmetic of a split cannot wrap.
- The interrupt handler itself is not interrupted, and there is one consumer of received packets at a time. Any number of
  contexts may transmit at once.
- A device returns each descriptor it took at most once, and returns none it did not take.
- There are at most 2^20 physical frames, as many as 32-bit addresses reach. ELF images lie outside the frames handed
  out by the allocator, as they do below its starting edge.
- Program headers describe segments in user space (4 MB to KERN_OFF) whose file part is inside the file and no longer
  than the memory part.
- Strings carry no NUL, and `strhash` is any function. File positions are not negative.
- A run of ramfs operations asks the inode tree for at most one inode more than its root node has room for.

## Model

| member | source | states |
|---|---|---|
| FirstFitSpec.Aligned | src/mem/ff_alloc.c:61-64 | rounding up to 16 stays within 15 of its argument |
| FirstFitSpec.TakeKeeps | src/mem/ff_alloc.c:187-213 | taking a chunk, split or whole, keeps tiling, order, placement and no two adjacent free chunks |
| FirstFitSpec.TakeKeepsAlignment | src/mem/ff_alloc.c:187-213 | a split puts the new header at 16n-12 again |
| FirstFitSpec.FreeKeeps | src/mem/ff_alloc.c:281-322 | freeing with two-sided merging keeps the whole chunk invariant |
| FirstFitSpec.FreeKeepsAlignment | src/mem/ff_alloc.c:281-322 | merging leaves data at 16-byte boundaries |
| FirstFitSpec.SearchIsFirst | src/mem/ff_alloc.c:180-217 | the roving search stops at the first fitting chunk in ring order from current, never later |
| FirstFitSpec.MallocComplete | src/mem/ff_alloc.c:175-219 | malloc fails if and only if the size is 0 or above INT_MAX, or no free chunk of at most INT_MAX bytes holds it |
| FirstFitSpec.MallocFirst | src/mem/ff_alloc.c:180-217 | the chunk taken is free and holds the size, and is the first such in ring order from current |
| FirstFitSpec.HugeChunkIsSkipped | src/mem/ff_alloc.c:181 | a well-formed heap with 2^31 free bytes on which malloc(1) fails |
| FirstFitSpec.LiveDisjoint | src/mem/ff_alloc.c:175-219 | live blocks never overlap |
| FirstFitSpec.TakeLive | src/mem/ff_alloc.c:187-213 | malloc adds exactly one live block, large enough and at most 30 bytes too large, and moves or resizes no other |
| FirstFitSpec.TakeExact | src/mem/ff_alloc.c:184-204 | the block ends at the least multiple of 16 that holds it if that leaves a header and four bytes, which are then one free chunk to the old end; otherwise it is the whole chunk |
| FirstFitSpec.FreeLive | src/mem/ff_alloc.c:281-322 | free ends exactly the block it was given |
| FirstFitSpec.ResizeKeeps | src/mem/ff_alloc.c:221-266 | every in-place branch of realloc keeps the chunk invariant |
| FirstFitSpec.ResizeLive | src/mem/ff_alloc.c:221-266 | realloc in place moves nothing but the end of its own block, which still holds the size |
| FirstFitSpec.ResizeExact | src/mem/ff_alloc.c:221-265 | realloc leaves its place if and only if the block and the free chunk behind it are too small together; the new size is the one asked for rounded up to 16, or the old one if no chunk fits into the difference |
| FirstFitRuns.MallocStep | src/mem/ff_alloc.c:175-219 | one malloc keeps the heap valid and adds exactly the returned block |
| FirstFitRuns.FreeStep | src/mem/ff_alloc.c:281-322 | one free keeps the heap valid over the same area, with current inside it |
| FirstFitRuns.FreeStepBlocks | src/mem/ff_alloc.c:281-322 | the blocks after a free are those before without the freed one |
| FirstFitRuns.FreeCurrent | src/mem/ff_alloc.c:292-320 | after a free, current is the free chunk that takes in the whole freed block |
| FirstFitRuns.ResizeStep | src/mem/ff_alloc.c:221-266 | one in-place realloc keeps the heap valid over the same area, with current inside it |
| FirstFitRuns.ResizeStepBlocks | src/mem/ff_alloc.c:221-266 | in-place realloc neither adds nor removes a block |
| FirstFitRuns.ResizeMovesCurrent | src/mem/ff_alloc.c:243-260 | a resize moves current exactly if that was the free chunk it moves or uses up, to the new free chunk or to the one behind it |
| FirstFitRuns.RunKeeps | src/mem/ff_alloc.c:154-322 | over every run of malloc, free and in-place realloc the blocks in use are exactly the addresses the caller holds |
| FirstFitRuns.AllFreedIsFresh | src/mem/ff_alloc.c:281-322 | when everything has been freed, in any order, the heap is the single free chunk it began as |
| FirstFitRuns.MallocSound | src/mem/ff_alloc.c:175-219 | a block handed out lies in the area, holds the size and at most 30 bytes more and is disjoint from every live block, none of which changes; the rest of the chunk is one free chunk, and current is its start |
| FirstFitRuns.MallocExact | src/mem/ff_alloc.c:175-219 | null is returned if and only if the size is out of range or no chunk suits |
| FirstFitRuns.MallocAligned | src/mem/ff_alloc.c:175-219 | what malloc returns is 16-aligned |
| FirstFitRuns.AlignedRun | src/mem/ff_alloc.c:154-219 | headers stay at 16n-12 over every run without realloc |
| FirstFitRuns.BytesConserved | src/mem/ff_alloc.c:154-322 | used bytes, free bytes and headers always add up to the area |
| FirstFit.SetChunkReads | src/mem/ff_alloc.c:95-145 | a header written holds next, prev and the low 31 bits of their checksum with the used bit on top, and touches nothing else |
| FirstFit.UserWriteKeeps | src/mem/ff_alloc.c:95-145 | a caller may write any word of its own block without disturbing a header |
| FirstFit.Allocator.Find | src/mem/ff_alloc.c:180-217 | the ring walk over headers in memory finds the chunk the specification finds |
| FirstFit.Allocator.Malloc | src/mem/ff_alloc.c:175-219 | memory and current after malloc are those of the specification, and no data of a live block changes; null exactly if no chunk suits, otherwise a block of the size or at most 30 bytes more |
| FirstFit.Allocator.Free | src/mem/ff_alloc.c:281-322 | the same for free, whatever it merges |
| FirstFit.Allocator.ReallocInPlace | src/mem/ff_alloc.c:221-266 | the same for the in-place branches; the block keeps its leading bytes |
| FirstFit.New | src/mem/ff_alloc.c:154-173 | refuses areas below 45 bytes; otherwise one free chunk behind the allocator and a sentinel, at the outermost places of the form 16n-12, consistent if and only if they fit |
| FirstFit.RoomFrom48 | src/mem/ff_alloc.c:154-173 | for an aligned area they fit if and only if it has 48 bytes |
| VirtqRing.WrappedSlot | src/dev/net_virtio.c:125-130 | a 16-bit index picks the slot of the unwrapped one |
| VirtqRing.WrapNeedsGoodSize | src/dev/net_virtio.c:125-130 | it does so at every index if and only if the queue size divides 65536 |
| VirtioTx.StepInv | src/dev/net_virtio.c:301-388 | every claim, publication, reaping and device step, from any number of contexts, keeps the ownership of all transmit descriptors |
| VirtioTx.AllRunsInv | src/dev/net_virtio.c:301-388 | so it holds in every state of every interleaving of these; for single accesses see `TxInterrupts.RunExact` |
| VirtioTx.NotRewrittenInFlight | src/dev/net_virtio.c:354-388 | no such step rewrites a descriptor from its publication until it is reaped; for single accesses see `TxInterrupts.BadClaimRewrites` |
| VirtioTx.AvailNotOverwritten | src/dev/net_virtio.c:125-130 | no such step overwrites an avail slot the device has not read; for single accesses see `TxInterrupts.BadWriteLoses` |
| VirtioTx.DeviceSeesFrames | src/dev/net_virtio.c:354-388 | the device then reads exactly the published frames in order; for single accesses see `TxInterrupts.QuietDelivers` |
| VirtioTx.ReclaimedOnce | src/dev/net_virtio.c:301-319 | every frame freed is a published one, and none is freed twice; for single accesses see `TxInterrupts.QuietDelivers` |
| VirtioTx.DrainedQueue | src/dev/net_virtio.c:301-319 | with as many frees as sends, all frames are back and all descriptors free |
| VirtioTxDriver.TxQueue.TxEnqueue | src/dev/net_virtio.c:354-388 | ENOMEM exactly if every descriptor is taken; otherwise the first free descriptor is claimed for the frame and published once, behind whatever others publish after the claim; a run of the machine |
| VirtioTxDriver.TxQueue.Enqueue | src/dev/net_virtio.c:125-130 | slot and wrapped index publish the descriptor |
| VirtioTxDriver.TxQueue.PollTx | src/dev/net_virtio.c:301-319 | frees exactly the frames returned when it started; a run of the machine |
| VirtioTxDriver.TxQueue.ReapOne | src/dev/net_virtio.c:301-319 | one used element frees one frame, the next in order of return |
| TxInterrupts.MoveInOrder | src/dev/net_virtio.c:370-388 | every single access but a bad one keeps rings and descriptors in order and every written descriptor with one context |
| TxInterrupts.BadClaimRewrites | src/dev/net_virtio.c:371-382 | a claim of a descriptor that is no longer free replaces a frame that was published and not reclaimed, or that another context has just written |
| TxInterrupts.BadWriteLoses | src/dev/net_virtio.c:127 | a write to an unread slot loses the publication in it |
| TxInterrupts.BadRaiseLoses | src/dev/net_virtio.c:128 | an index raised over another descriptor hands the device that one instead |
| TxInterrupts.RunExact | src/dev/net_virtio.c:301-388 | a run of single accesses of any number of contexts, the poll loop and the device is in order throughout if and only if none of its steps is one of these three |
| TxInterrupts.QuietDelivers | src/dev/net_virtio.c:301-388 | as long as no context claims what another has found, nor enqueues between another one's index read and raise, the device reads the published frames in order and each frame freed is a published one, none twice |
| TxInterrupts.LosingRun | src/dev/net_virtio.c:371-386 | a run with one interrupt between scan and claim after which one frame was sent twice and the other never |
| VirtioRx.StepInv | src/dev/net_virtio.c:269-344 | every device, interrupt and consumer step keeps the ownership of all receive buffers, operations taken whole |
| VirtioRx.AllRunsInv | src/dev/net_virtio.c:269-344 | so it holds in every state of every interleaving of whole operations |
| VirtioRx.BuffersConserved | src/dev/net_virtio.c:269-344 | each buffer is in exactly one place, and recycled once for each receipt not still being handled; for interrupted operations see `RxInterrupts.QuietConserves` and `RxInterrupts.RunExact` |
| VirtioRx.SlotsNotOverwritten | src/dev/net_virtio.c:125-130 | no whole operation overwrites an unread avail slot or an unfetched used slot |
| VirtioRx.RecycleRun | src/dev/net_virtio.c:269-282 | recycling a fetched or consumed buffer is a run of the machine |
| VirtioRx.RecycleIndex | src/dev/net_virtio.c:269-282 | the address arithmetic of the clean-up gives back the buffer's own index |
| VirtioRx.NodesDisjoint | src/dev/net_virtio.c:321-344 | the list node of a packet lies inside its own buffer |
| ReceiveList.AppendRing | src/core/net.c:240-252 | linking a node at the tail gives the ring with it appended, next and prev mutually inverse |
| ReceiveList.RemoveRing | src/core/net.c:351-366 | unlinking a node gives the ring without it |
| ReceiveList.AppendHolds | src/core/net.c:240-252 | the tail of the receive routine, on memory that may be in any state, appends to a list that is in order |
| ReceiveList.CutHolds | src/core/net.c:351-366 | the writes of a removal, in order, take exactly that packet out, whichever of the three cases it is |
| ReceiveList.NetStack.Enqueue | src/core/net.c:240-252 | the packet is appended to the circular list |
| ReceiveList.NetStack.TakeMatching | src/core/net.c:328-378 | the oldest matching packet is taken out, or none matches and nothing changes |
| ReceiveList.NetStack.Unlink | src/core/net.c:351-366 | all cases of the removal, the last element included |
| VirtioRxDriver.RxQueue.constructor | src/dev/net_virtio.c:435-457 | all buffers but one are published at set-up, in order |
| VirtioRxDriver.RxQueue.PollRx | src/dev/net_virtio.c:321-344 | of the packets in the used ring when it started, in ring order, the UDP ones are appended to the receive list and each other one is recycled exactly once; a run of the machine |
| VirtioRxDriver.RxQueue.ReceiveOne | src/dev/net_virtio.c:321-344 | the next used element is appended to the list if it is UDP, and otherwise recycled once |
| VirtioRxDriver.RxQueue.Deliver | src/core/net.c:188-253 | a UDP packet moves from the handler to the receive list |
| VirtioRxDriver.RxQueue.Recycle | src/dev/net_virtio.c:269-282 | the buffer found by address goes back to the avail ring |
| VirtioRxDriver.RxQueue.WaitUdp | src/core/net.c:328-378 | the consumer gets the oldest packet that matched at its last walk, or none matched then and the time was over; a run of the machine |
| VirtioRx.DrainedOnce | src/dev/net_virtio.c:321-344 | no descriptor is twice among those fetched by one interrupt, so each is recycled at most once |
| EnqueueWindow.EnqueueExact | src/dev/net_virtio.c:125-130 | an enqueue interrupted by others offers the device exactly what was enqueued if and only if nothing came in between or the stale slot behind holds what was lost |
| ReceiveWindow.UnlinkExact | src/core/net.c:351-366 | packets that arrive after j writes of a removal end up behind the others if and only if the list holds more than one packet, and none of its writes was made or the removed packet is neither first nor last |
| RxInterrupts.MoveInOrder | src/dev/net_virtio.c:125-282 | every step of the split machine but a bad one keeps buffers and list in order |
| RxInterrupts.BadStep | src/dev/net_virtio.c:125-282 | every bad step puts something out of order |
| RxInterrupts.RunExact | src/dev/net_virtio.c:125-344 | a run of single accesses is in order throughout if and only if none of its steps appends at a bad moment, overwrites an unread slot or publishes a slot without its buffer |
| RxInterrupts.QuietConserves | src/dev/net_virtio.c:125-344 | as long as the handler recycles nothing inside a consumer's enqueue and appends nothing at a bad moment of a removal, every buffer is in exactly one place and the list is the queue |
| RxInterrupts.RemovalExact | src/core/net.c:328-378 | from any state in order, a removal with any interrupts in it leaves the queue behind it if and only if none of them appended at a bad moment |
| RxInterrupts.BadWriteLoses | src/dev/net_virtio.c:127-128 | writing over a slot that the device has not read loses the buffer in it |
| RxInterrupts.BadRaiseLoses | src/dev/net_virtio.c:128 | raising the index over a slot with another buffer loses the consumer's |
| RxInterrupts.LosingRun | src/dev/net_virtio.c:126-128 | a run from set-up that loses a buffer |
| RxInterrupts.LuckyRun | src/dev/net_virtio.c:126-128 | a run with the same interrupt that loses nothing, so the windows alone are not the exact condition |
| RxInterrupts.DroppedRun | src/core/net.c:353-356 | a run from set-up after which a packet is queued and the list is empty |
| PageWords.PutGet | src/mem/paging.c:121-172 | a word written into a table reads back, its bytes stand lowest first, and no other byte of the table changes |
| PageWords.FlagBits | src/mem/paging.c:165-168 | of the flags of a new entry present and user are set, and every other one of the twelve bits is the bit of the mask |
| PageTables.WalkOwner | src/mem/paging.c:121-172 | a walk ends in a frame that belongs to that page of that directory and to nothing else |
| PageTables.NoSharing | src/mem/paging.c:121-172 | two pages, of one directory or two, never share a frame |
| PageTables.KindsApart | src/mem/paging.c:121-172 | data pages, tables and directories are pairwise distinct frames |
| PageTables.NewDirectoryInv | src/mem/paging.c:91-110 | a new directory keeps ownership and holds the kernel's entries |
| PageTables.NewTableInv | src/mem/paging.c:140-160 | a new page table keeps ownership, kernel entries and the tables of all directories, every one of which is entered as present, writable, user, write-through and not cached |
| PageTables.NewPageInv | src/mem/paging.c:162-170 | a new page keeps ownership, kernel entries and the tables of all directories |
| PageTables.PokeInv | src/core/process.c:277-278 | writing a data page disturbs no table |
| AddressSpace.GrownJoin | src/mem/paging.c:121-172 | mapping adjacent ranges one after the other is mapping their union, with the same flags; mapped pages keep their entries |
| AddressSpace.StoredPage | src/core/process.c:262-281 | mapping one page and copying into it changes exactly the bytes copied, in that directory only |
| AddressSpace.StoredAbove | src/core/process.c:283-299 | page-wise stores add up to one store, upwards |
| AddressSpace.StoredBelow | src/core/process.c:106-115 | and downwards |
| FrameCount.MapsPageCount | src/mem/paging.c:121-172 | what mapping one page takes from the allocator comes off the count of its range |
| FrameCount.NothingMissing | src/mem/paging.c:121-172 | a range mapped throughout needs no frame |
| FrameCount.EntriesStep | src/mem/paging.c:140-155 | mapping and filling a page of a range touches no directory entry outside the range |
| Paging.NewTableDone | src/mem/paging.c:140-160 | the table phase changes no translation anywhere |
| Paging.NewPageDone | src/mem/paging.c:162-170 | the page phase maps that page to a fresh frame and changes no other translation |
| Paging.NewEntry | src/mem/paging.c:163-168 | the entry written holds the new frame; its bits 0 and 2 are set and its other ten flag bits are those of the mask |
| Machine.Memory.PmemAlloc | src/mem/pmem.c:105-117 | consecutive frames from the edge, or 0 exactly if they do not fit |
| Machine.Memory.PmemFree | src/mem/pmem.c:119-130 | only the latest allocation can be given back |
| Machine.Memory.PagedirAlloc | src/mem/paging.c:91-110 | a directory whose words 0 and 768 to 1023 are the kernel's and all others 0; all other translations unchanged |
| Machine.Memory.PagedirGetOrNew | src/mem/paging.c:121-172 | refines a map from page to frame; 0 exactly for kernel addresses or too few frames, and then no translation changes and memory is full; a mapped page costs nothing and keeps its entry, a new one is in the tables where the hardware looks and has the flags of the mask, bit by bit, with present and user set |
| Process.StepStored | src/core/process.c:283-299 | the image grows by one page with each turn of the loop |
| Process.LoadPage | src/core/process.c:262-299 | one page: file bytes, then zeroes to its end; without a frame what was in place stays |
| Process.LoadPages | src/core/process.c:283-299 | the pages from a boundary to the end of the segment |
| Process.LoadSegment | src/core/process.c:255-302 | maps exactly the segment's pages, new ones writable, which read as file bytes then zeroes to the end of the last page; EINVAL exactly for a wrong alignment, ENOMEM exactly for too few frames, and then memory is full and a first part is in place |
| Process.LoadedBytes | src/core/process.c:255-302 | every byte up to the end of the last page is the file's or zero, and every new page has exactly the flags present, writable and user |
| Process.LoadedInPlace | src/core/process.c:255-302 | byte i of the segment reads as file byte p_offset + i below filesz and as 0 up to memsz |
| Process.StaysInPlace | src/core/process.c:341-358 | loading a later segment or a part of it, even into a shared page, leaves an earlier one in place |
| Process.RunningStep | src/core/process.c:341-358 | after n headers all their segments are in place, exactly their pages are mapped, new ones writable, and no other directory has changed |
| Process.LoadHeader | src/core/process.c:341-358 | headers that are not PT_LOAD are passed over |
| Process.FramesAdded | src/core/process.c:341-358 | what a segment needs when its turn comes, pages and tables shared with earlier ones left out, is what it adds to the need of the whole program |
| Process.PaidStep | src/core/process.c:341-358 | the headers so far have taken exactly the frames they need together |
| Process.HaltedGivesUp | src/core/process.c:341-352 | when a segment cannot be loaded those before it stay in place and no other directory has changed |
| Process.HeapStart | src/core/process.c:354-359 | the heap starts at the first page boundary at or behind the end of every segment, or at 0 without one |
| Process.LoadProgram | src/core/process.c:341-360 | succeeds if and only if the segments are page-aligned and the frames suffice for their pages together; then every segment is in place, exactly the needed frames are gone and the heap starts at the first page boundary behind the last segment; otherwise the segments before the one that failed are in place; no other directory is touched in either case |
| ProcessMemory.MapUpTo | src/core/process.c:133-144 | maps every page of the gap, or stops exactly if a frame is missing or the kernel is reached, with memory full or all pages below the kernel mapped |
| ProcessMemory.ClearDown | src/core/process.c:106-115 | maps and clears pages downwards; stops exactly if the frames do not suffice, with memory full |
| ProcessMemory.Proc.Brk | src/core/process.c:120-151 | a higher break maps exactly the pages up to the next boundary, new ones writable, or fails without moving; 0 and lower breaks change nothing |
| ProcessMemory.Proc.GrowStack | src/core/process.c:101-118 | the stack reaches down to the faulting page; every byte of the new part reads as zero and every new page is writable |
| AddressSpace.StoredThenGrown | src/core/process.c:106-115 | a failed growth leaves what was cleared before in place |
| AddressSpace.StoredIsolates | src/core/process.c:255-302 | storing through one directory changes no entry and no byte of any other |
| RamfsDirSpec.AppendKeeps | src/fs/ramfs.c:296-324 | an inserted entry is in its bucket and the only one of its name |
| RamfsDirSpec.AppendLookup | src/fs/ramfs.c:296-324 | insertion binds its name and no other |
| RamfsDirSpec.WithoutKeeps | src/fs/ramfs.c:356-394 | removal keeps every entry in its bucket |
| RamfsDirSpec.WithoutLookup | src/fs/ramfs.c:356-394 | removal unbinds its name and no other |
| RamfsDirSpec.SearchRight | src/fs/ramfs.c:399-423 | where nothing shadows the name, the prefix search is a lookup by name |
| RamfsDirSpec.SearchWrong | src/fs/ramfs.c:399-423 | one entry that extends the name with the same hash makes a wrong answer |
| RamfsDirSpec.SearchExact | src/fs/ramfs.c:399-423 | the search stops at the name's own entry, or at none if it is unbound, if and only if no longer name of that prefix and hash stands before it in the bucket |
| RamfsDirSpec.SearchFinds | src/fs/ramfs.c:399-423 | the search stops at the first entry of the bucket, chosen by hash modulo 8, that has the hash and either the name or the n characters asked for as a prefix |
| RamfsDirSpec.SearchWhole | src/fs/ramfs.c:399-423 | a length beyond the end of the name always makes it a lookup |
| RamfsDirSpec.NoHashIsSafe | src/fs/ramfs.c:399-423 | for every bounded hash some directory answers some search wrongly |
| RamfsDirSpec.FlattenHash | src/fs/ramfs.c:870-943 | finding a hash in its bucket finds the first entry with it in listing order |
| RamfsDirSpec.ListedExact | src/fs/ramfs.c:870-943 | the iteration returns every entry exactly once and ends, if and only if hashes are distinct and nonzero behind the first |
| RamfsDir.Directory.constructor | src/fs/ramfs.c:273-294 | eight buckets, and no name is bound |
| RamfsDir.Directory.Probe | src/fs/ramfs.c:299-320 | the walk finds a duplicate exactly if the name is bound, and otherwise the end of the chain |
| RamfsDir.Directory.Insert | src/fs/ramfs.c:296-324 | EEXIST exactly if the name is bound; otherwise the entry is appended to the bucket its hash chooses, and that one binding and size are added |
| RamfsDir.Directory.Seek | src/fs/ramfs.c:368-391 | the walk finds the entry and its predecessor |
| RamfsDir.Directory.Delete | src/fs/ramfs.c:356-394 | one entry of that name is taken out of its bucket, that one binding goes; ENOENT exactly if it is missing or hashed over too few characters |
| RamfsDir.Directory.SearchFor | src/fs/ramfs.c:399-423 | the first entry of the bucket that agrees in hash and in the given characters |
| RamfsDir.Directory.GetDirentry | src/fs/ramfs.c:870-943 | the entry an iterator stands for and the iterator behind it, EKERN exactly if there is none |
| RamfsDir.Directory.List | src/fs/ramfs.c:870-943 | iterating to the end lists the eight buckets in order |
| InodeTreeSpec.SetLeafKeeps | src/fs/ramfs.c:96-135 | a uniform tree stays uniform |
| InodeTreeSpec.SetLeafExact | src/fs/ramfs.c:96-135 | for every slot of the tree: it gets the inode if and only if it is the index returned, or the empty first slot of a leaf before that, or of any leaf if 0 is returned; no other slot changes |
| InodeTreeSpec.LeastRoom | src/fs/ramfs.c:96-135 | the index returned is the least one with room |
| InodeTreeSpec.SetLeafGet | src/fs/ramfs.c:96-135 | an index r > 0 returned holds the inode, no taken index changes, and nothing else is stored but at first slots |
| InodeTreeSpec.RoomExact | src/fs/ramfs.c:96-135 | an index above 0 is returned if and only if some leaf has its first slot taken and another free |
| InodeTreeSpec.NextIndex | src/fs/ramfs.c:101-110 | a single node with its first k slots taken hands out k |
| InodeTreeSpec.GrowGet | src/fs/ramfs.c:147-193 | growing the root keeps the lookup of every old index and adds nothing |
| InodeTreeSpec.GrowUniform | src/fs/ramfs.c:147-193 | the grown tree is uniform if and only if the old one was a single node |
| InodeTreeSpec.NewLeafKeeps | src/fs/ramfs.c:147-193 | no taken index changes, whether or not the tree grows |
| InodeTreeSpec.NewLeafIndex | src/fs/ramfs.c:147-193 | the index returned holds the inode, or is the first one above the old range and holds nothing |
| InodeTreeSpec.LookupDigits | src/fs/ramfs.c:66-89 | the digits of an index in base fanout choose the slots on the way down, and there is nothing beyond the capacity |
| InodeTree.BNode.GetIndex | src/fs/ramfs.c:66-89 | the descent by division finds what the tree holds, nothing beyond its capacity |
| InodeTree.BNode.SetLeaf | src/fs/ramfs.c:96-135 | the recursive search stores in place as specified |
| InodeTree.BNode.SetHere | src/fs/ramfs.c:101-116 | a leaf node takes the inode in its first free slot |
| InodeTree.BNode.SetBelow | src/fs/ramfs.c:117-133 | children are tried in order |
| InodeTree.NewLeaf | src/fs/ramfs.c:147-193 | new root and new path in memory are those of the specification |
| RamfsFile.WrittenBlock | src/fs/ramfs.c:1139-1150 | copying into a block, fresh or not, changes exactly those bytes of the allocated ones |
| RamfsFile.WrittenMore | src/fs/ramfs.c:1152-1170 | block-wise writes add up to one write |
| RamfsFile.HolesCounted | src/fs/ramfs.c:972-988 | the pages a write takes are as many as blocks in its range have none |
| RamfsFile.ReadIsRight | src/fs/ramfs.c:1065-1117 | the length read is right if and only if the read starts beyond the end, or is page-aligned or inside the file in its first page and ends below 2^31 or in a file of whole pages |
| RamfsFile.ReadBeyondEnd | src/fs/ramfs.c:1077-1078 | a file of ten bytes that returns bytes beyond its end |
| RamfsFile.ReadOverrun | src/fs/ramfs.c:1105-1108 | a file of ten bytes that returns 2^31 |
| RamfsFile.File.BlockOrNew | src/fs/ramfs.c:972-988 | an existing block is found, a missing one allocated with any contents |
| RamfsFile.File.Write | src/fs/ramfs.c:1124-1177 | exactly the bytes asked for change and exactly the missing blocks are made; EIO exactly if they outnumber the pages left; size is the maximum |
| RamfsFile.File.Read | src/fs/ramfs.c:1055-1122 | for every position and length: how many bytes are returned, and each is the byte of its block, or zero where no block exists; an overrun first returns the whole last block, then what is behind it |
| RamfsFile.ReadExact | src/fs/ramfs.c:1080-1117 | every byte returned is the byte at its place in its block, or zero where there is no block |
| RamfsFile.ReadBack | src/fs/ramfs.c:1055-1177 | reading where a write has been returns what was written |
| RamfsFile.ReadElsewhere | src/fs/ramfs.c:1055-1177 | reading elsewhere returns what it returned before |
| LinkSpec.LinkInv | src/fs/ramfs.c:646-671 | linking keeps every link count equal to the number of names |
| LinkSpec.LinkExact | src/fs/ramfs.c:646-671 | which error a link returns, and that without one the name leads to the inode, which has one link more, and nothing else changes |
| LinkSpec.UnlinkInv | src/fs/ramfs.c:673-722 | unlinking does, and frees an inode only with its last name |
| LinkSpec.UnlinkExact | src/fs/ramfs.c:673-722 | which error an unlink returns, and that without one the name leads nowhere, the inode has one link less and is freed if and only if that was its last, and nothing else changes |
| LinkSpec.MknodInv | src/fs/vfs.c:299-355 | mknod does, also when the name is taken or the inode could not be stored |
| LinkSpec.MknodExact | src/fs/vfs.c:299-355 | mknod succeeds if and only if the parent is a directory, the name is free and the tree has room; then the name leads to a new file with one link; in no case does another name or inode change |
| LinkSpec.HardlinkInv | src/fs/vfs.c:509-547 | hardlink does |
| LinkSpec.HardlinkExact | src/fs/vfs.c:509-547 | which error a hardlink returns, and that without one a second name leads to the inode, which has one link more, and nothing else changes |
| LinkSpec.RenameInv | src/fs/vfs.c:566-574 | rename does, also when it fails half-way |
| LinkSpec.RenameExact | src/fs/vfs.c:566-574 | rename succeeds if and only if the old name is a file's and the new one is free in an existing directory |
| LinkSpec.RenameMoves | src/fs/vfs.c:566-574 | it then moves one name; all others and all inodes with their counts are unchanged |
| LinkSpec.RenameFails | src/fs/vfs.c:566-574 | a rename that fails changes nothing, except that a directory keeps the second name |
| LinkSpec.MkdirTaken | src/fs/ramfs.c:782-793 | a taken name leaves a directory with one link too many |
| LinkSpec.MkdirFull | src/fs/ramfs.c:486-496 | with the tree full a free name is left leading to no inode |
| LinkSpec.MkdirExact | src/fs/ramfs.c:725-801 | mkdir keeps counts right and names leading to inodes if and only if the parent path leads to no directory, or the name is free and the tree has room, or neither |
| LinkSpec.MkdirEffect | src/fs/ramfs.c:725-801 | mkdir reports an error if and only if the parent path leads to no directory; otherwise a free name leads to the next index, where there is a directory with two links and its own name if the tree has room; no other name or inode changes |
| LinkSpec.ResolveAppend | src/fs/ramfs.c:578-643 | the empty path leads to where it starts, and a longer one is one step from where the shorter one leads |
| LinkSpec.MountedInv | src/fs/ramfs.c:743-793 | the mounted volume has the one inode 1, a directory with two links, both of whose names lead to itself |
| LinkSpec.RunExact | src/fs/vfs.c:299-574 | throughout a run of mknod, hardlink, unlink, rename and mkdir counts are exact and no name leads to a freed or missing inode, if and only if every mkdir fits |
| LinkSpec.RunInv | src/fs/vfs.c:299-574 | the invariant at every point of a run gives it at the end |
| LinkSpec.NamesAreLive | src/fs/vfs.c:299-574 | from the mounted volume on, whatever a path leads to is not freed and has as many links as names |
| VolumeSpec.TreeNext | src/fs/ramfs.c:147-193 | the n-th inode gets index n, and the 65th grows the tree without being stored |
| VolumeSpec.TreeLookup | src/fs/ramfs.c:522-526 | an index leads to its inode exactly if it was handed out and stored |
| VolumeSpec.EnteredTabled | src/fs/ramfs.c:330-354 | a new entry in a hash table is a new binding in the map it stands for |
| VolumeSpec.DroppedTabled | src/fs/ramfs.c:356-394 | a deleted entry is a binding less |
| VolumeSpec.ClearIsStep | src/fs/ramfs.c:612-625 | an unshadowed search is a step of the map |
| VolumeSpec.SearchTakes | src/fs/ramfs.c:612-625 | a search by path component answers with the first entry in the bucket of the name that has its hash and begins with it |
| VolumeSpec.ClearFollow | src/fs/ramfs.c:578-643 | a path that nothing shadows leads where its names do |
| VolumeSpec.FoundLive | src/fs/ramfs.c:622-634 | whatever a search finds, shadowed or not, is an inode that is alive |
| VolumeSpec.LinkedClear | src/fs/ramfs.c:646-671 | a new name shadows no path that led somewhere |
| VolumeSpec.StoreResolve | src/fs/ramfs.c:484-503 | a new inode changes no path |
| VolumeSpec.StoreFollow | src/fs/ramfs.c:484-503 | nor where the searches along a path lead, shadowed or not |
| Volume.Mount | src/fs/ramfs.c:453-471 | a new volume is the mounted one: index 0 taken, the root its own parent |
| Volume.RamVolume.Idata | src/fs/ramfs.c:522-526 | the descent in the tree finds the inode of an index, or null exactly if there is none |
| Volume.RamVolume.LookupInode | src/fs/ramfs.c:578-643 | the loop over components follows the searches for them, shadowed or not, and ends at an inode that is alive |
| Volume.RamVolume.LinkInode | src/fs/ramfs.c:646-671 | hash table, tree and counts after it stand for one name and one link more, or an error and no change |
| Volume.RamVolume.UnlinkInode | src/fs/ramfs.c:673-722 | wherever the searches along the path lead, hash table, tree and counts then stand for one name and one link less, the inode freed with its last name; EISDIR for directories |
| Volume.RamVolume.Mknod | src/fs/vfs.c:299-355 | wherever the searches along the path lead, tree and hash table implement mknod there, full tree included, keeping the invariant; on an unshadowed path it succeeds exactly as `MknodExact` says |
| Volume.RamVolume.Hardlink | src/fs/vfs.c:509-547 | wherever the searches along both paths lead, implements the link, keeping the invariant; on unshadowed paths it is hardlink on the maps |
| Volume.RamVolume.Rename | src/fs/vfs.c:566-574 | a link and then an unlink, wherever the searches lead; on unshadowed paths it is rename on the maps, successful exactly if it can be; the added name never shadows the old one |
| Volume.RamVolume.MakeDirectory | src/fs/ramfs.c:725-801 | wherever the searches along the path lead, implements mkdir there, a wasted index and a full tree included; on an unshadowed path the invariant is kept exactly as `MkdirExact` says |
| CrcTable.TableRight | lib/c/src/crc32.c:16-81 | each of the 256 entries is eight steps of division by 0x104C11DB7 |
| Crc32.NibTable | lib/c/src/crc32.c:5-10 | the sixteen entries are the reversed nibbles |
| Crc32.TableStep | lib/c/src/crc32.c:83-90 | one look-up and shift is eight steps of the division, for every register and byte |
| Crc32.MirrorsUpdate | lib/c/src/crc32.c:13-91 | an additive map that turns one round into another turns whole updates into one another |
| Crc32.UpdateConcat | lib/c/src/crc32.c:13-91 | an update over a concatenation is two updates |
| Crc32.RevStep | lib/c/src/crc32.c:97-108 | reversing the register turns a step by 0x04C11DB7 into one by 0xEDB88320 |
| Crc32.RevUpdate | lib/c/src/crc32.c:97-108 | so the reversed division is the reflected CRC, for every byte string |
| Crc32.PushRegister | lib/c/src/crc32.c:101-106 | eight reversed nibbles make the reversed register, whatever rcrc held |
| Crc32.DigitalUpdate | lib/c/src/crc32.c:13-91 | the table loop computes the division |
| Crc32.DigitalCrc | lib/c/src/crc32.c:93-95 | with register all ones before and after |
| Crc32.EthernetCrc | lib/c/src/crc32.c:97-108 | the result is the bit-serial reflected CRC-32, whatever the initial value of rcrc |
| Crc32.CheckValue | lib/c/src/crc32.c:97-108 | the check value of the nine digits is 0xCBF43926 |
| SchedulerSpec.TickIsRing | src/core/tasks.c:189-196 | switching tasks keeps one cycle of the same tasks |
| SchedulerSpec.TickExact | src/core/tasks.c:98-116 | the first other ready task becomes current, or none changes if there is none; no task changes its place in the ring or its state |
| SchedulerSpec.AddIsRing | src/core/tasks.c:198-204 | so does adding a task |
| SchedulerSpec.RunIsRing | src/core/tasks.c:189-204 | so does every run |
| SchedulerSpec.TickApproaches | src/core/tasks.c:189-196 | a tick that passes over a ready task brings it nearer |
| SchedulerSpec.AddDelays | src/core/tasks.c:198-204 | an added task delays it by one |
| SchedulerSpec.BoundedWaiting | src/core/tasks.c:189-204 | a task that stays ready runs within its ring distance plus the number of added tasks |
| SchedulerSpec.GoneForever | src/core/process.c:156-163 | an exited task that is not current is never current again |
| Scheduler.Sched.constructor | src/core/tasks.c:215-224 | a ring of one |
| Scheduler.Sched.AddTask | src/core/tasks.c:198-204 | the new task is linked behind the current one |
| Scheduler.Sched.NextTask | src/core/tasks.c:189-196 | the loop ends with the first other ready task in ring order, or null |
| Scheduler.Sched.TimerTick | src/core/tasks.c:98-116 | that task becomes current, or nothing changes |
| Scheduler.Sched.Exit | src/core/process.c:156-163 | the current task is exited and the next ready one runs |
| InternetChecksum.OnesAddFolds | src/core/net.c:46-51 | end-around addition is folding of the plain sum |
| InternetChecksum.SumLaw | src/core/net.c:53-63 | the sum is congruent to the big-endian word sum modulo 65535, and 0 only for zeroes; odd lengths included |
| InternetChecksum.ByteOrder | src/core/net.c:53-63 | two bytes sum to the word whose upper half is the first, and a single byte is an upper half |
| InternetChecksum.SumConcat | src/core/net.c:53-63 | the sum of an even message followed by another is the end-around sum of their sums |
| InternetChecksum.WordsSum | src/core/net.c:53-63 | the loop computes that sum |
| InternetChecksum.ChecksumFits | src/core/net.c:408-413 | with the complement in the field the whole sums to 0xFFFF |
| InternetChecksum.WriteChecksum | src/core/net.c:408-413 | the field is the only thing written and is the complement of the sum with zero in its place, and the bytes then sum to 0xFFFF |
| InternetChecksum.Ipv4Checksum | src/core/net.c:408-413 | the twenty bytes of the header sum to 0xFFFF, the sixth word being the complement of the sum that is returned |
| InternetChecksum.IcmpChecksum | src/core/net.c:563-574 | the ICMP message of any length and the header before it both sum to 0xFFFF with the complements in their fields; only length and checksums are written |
| Neighbors.StandsInsert | src/core/net.c:157-164 | a new address takes the place of the oldest insertion |
| Neighbors.StandsRefresh | src/core/net.c:150-155 | a known address keeps its place |
| Neighbors.StandsLookup | src/core/net.c:106-120 | an address is found exactly if it is among the last eight insertions |
| Neighbors.HistoryLaw | src/core/net.c:106-165 | after any history every address but 0 and the broadcast address is answered with its latest hardware address exactly if its last insertion is among the last eight |
| Neighbors.NoDuplicates | src/core/net.c:142-165 | no address occurs twice |
| Neighbors.NeverEntered | src/core/net.c:142-148 | nothing is ever entered for the address 0 or the broadcast address, and both are answered with the invalid address |
| Neighbors.Interface.RememberNeighbor | src/core/net.c:142-165 | the table follows the history |
| Neighbors.Interface.LookupOn | src/core/net.c:106-120 | the answer is the one the history determines, else the invalid address |

## Left out

- The relocating branch of `firstfit_realloc` (src/mem/ff_alloc.c:266-274): it copies the old size without looking at what malloc returned.
- FirstFitRuns.AlignedRun: runs without realloc only, because realloc places new headers at data-aligned addresses; 4-byte alignment holds in every run and is part of `Valid`.
- lib/c/src/alloc_firstfit.c: the same algorithm as src/mem/ff_alloc.c.
- User pages below 4 MB: directory entry 0 is a copied huge-page entry, which `pagedir_get_or_new` would take for a page table.
- ProcessMemory.Proc.GrowStack: `ps_userstack` is updated once, with the last page reached, not page by page.
- Machine.Memory.PmemFree: the caller must not give back frames that page tables use.
- Crc32.DigitalUpdate: the round and the placing of bytes are parameters of its contract, which `DigitalCrc` fixes.
- CrcTable.TableRight: the table is kept in rows of eight.
- Crc32.EthernetCrc: the uninitialised rcrc is a parameter.
- InodeTree.BNode.SetLeaf: uniform trees only; after growth from level 1 on the tree is not uniform.
- InodeTree.NewLeaf: node allocation is taken to succeed.
- RamfsFile.File.Write: direct blocks only; indirect blocks index bytes instead of entries in the source.
- RamfsFile.File.Read: the bytes are returned instead of copied into a caller's buffer.
- RamfsDir.Directory.GetDirentry: the directory and the iterator's bucket must not be empty, as the source relies on `.` and `..`.
- Making a directory with an empty path other than at mounting: the source makes a directory that is its own parent and has no name.
- VirtioTxDriver.TxQueue.TxEnqueue: between scan and claim only the device runs, and after the claim everybody; `TxInterrupts` has the rest.
- Lengths and flags of virtio descriptors, the interrupt flags of the rings and notifications: a frame or buffer is named by its address or index.
- VirtioTx.AllRunsInv: claims and publications are single steps here; `TxInterrupts` has their single accesses.
- Truncation, freeing of blocks and of tree leaves: stubs in the source. A freed inode keeps its index in the model, as it does in the tree.
- Open-descriptor counts: changes to them are lost in the source.
- LinkSpec.RunExact: runs up to the first inode that the tree does not store; the next one would be stored under that index and reported under another, in a tree that is no longer uniform.
- VirtioRx.BuffersConserved: operations are single steps here; `RxInterrupts` has their single accesses.
- RxInterrupts.RunExact: one consumer; the handler and the device run between its accesses, other consumers do not.
- VirtioRxDriver.RxQueue.WaitUdp: while it waits, the handler runs once for each halt, and the last call of time() it can make exceeds the deadline.
- Paths are sequences of components; splitting strings at separators, mount points and trailing separators are not modelled.
- Scheduler.Sched.TimerTick: which task runs; saving and loading of contexts is not modelled.
- The ARP, ICMP and UDP receive paths beyond delivery to the receive list.
- TTY and keyboard buffers, screen, serial, PCI, ACPI, IDE, RTC, timers, boot and interrupt assembly, descriptor tables, shells, ext2 and fat stubs, formatted printing, system-call wrappers.
