# Proofs about a small teaching kernel

The repository is a small 32-bit kernel together with its boot loader and the host tool
that installs it on a disk image. This project models the parts of it that are hard to get
right by reading, and proves what each of them is for.

**Kernel memory** (`src/kernel/drivers/mem.c`). The lower layer hands out page frames from
a bitmap with two bits a frame (`PackedBitmap`, `FrameMap`, `FrameAllocator`). The upper
layer, `kalloc` and `kfree`, keeps a doubly linked list of inline headers. `KernelHeap` is
that list in memory, changed field by field; `HeapModel` is the heap as a sequence of
entries; `HeaderList` connects the two. `kfree` merges entries that are neighbours in the
list and never asks whether they are neighbours in memory. `HeapRuns` proves, over every
run of allocations, releases and stores, why that is sound, and `HeapSession` that the code
does only such runs from boot on. The argument starts in `KernelHeap.KernelHeap.Boot`: once
memory is set up and the stack frame is taken, the frames of [1M, 3M) have one hole, first
fit takes it from the left, and so every growth of the heap lands behind the one before it.
`FrameMap.AdjacentGrowthIffOneHole` shows that one hole is not only enough but necessary.

**The MINIX zone tree** (`tools/src/minix.c`, `src/boot/vbr.asm`). The installer grows a
file through direct, single-indirect and double-indirect zones, and index blocks live in
the same zones as data. `ZoneTree` gives every zone of a file a role and says where the
tree records it; `FileZones` ties roles to the zone bitmap; `Installer` is the C code and
`BootLoader` the assembly that reads the tree back. `InstallBoot.InstallThenBoot` is the
round trip: the bytes the machine starts are the bytes that were installed.

**Rings** (`kb.c`, `serial.c`). Interrupt handler and reader of each ring, as steps that
interleave in any order (`Keyboard`, `Serial`). `SerialSteps` lets interrupts in between the
wait, the load and the head move of the serial reader; `KeyboardInside` puts one between the
head moves of the keyboard reader and its change of the count.

**Strings** (`string.c`). `itoa` (`Numerals`), the `sprintf` state machine (`Formatter`) and
the stateful `strtok` (`Tokenizer`).

**Disk transfers** (`ata.c`). `AtaDisk` is any channel with two drives that follow the PIO
data-in and data-out protocols of ATA/ATAPI-6 (clauses 9.5 and 9.6), with arbitrary finite
delays and errors, and a status register that says nothing for 400 ns after each command and
block; `AtaDriver` is the driver in front of it. What may be done to the disk in which state is a
precondition there, so the driver is also shown to keep the protocol.

A C function that is long here appears as several methods, one per loop or case; each is
listed with the lines it stands for. Code that changes memory in place is a class or a
method over an array; what it computes is stated by functions on values, and the lemmas are
about those functions.

## Where the code differs from its comments or from what one expects

The model does what the code does. Where that is not what it should do, a lemma says
exactly when it is.

- `itoa` pads with NULs, not zeros: the text survives only if the digits fill the padding
  (`Numerals.PaddingIff`). So `%q` loses the low half of most 64-bit numbers
  (`Formatter.QuadShownIff`). `%qd` and `%qo` print hexadecimal, as `%qx` does
  (`Formatter.QuadShown`). `sprintf` writes no terminator.
- The keyboard handler has no case for three bytes. Long codes go to the ring in two
  pieces, its case for four bytes is never reached, and on overflow part of a code can stay
  (`Keyboard.CodeFramedIff`). A reader that runs inside a code makes the count negative
  (`Keyboard.ReadInsideCodeFails`, `Keyboard.Keyboard.ScanCode`).
- `kb_scan_code` moves the head before it lowers the count. An interrupt in between stores
  its bytes too far behind, so that it counts as one before the read if and only if the
  head has not moved yet or the interrupt stores nothing (`KeyboardInside.InsideIsBeforeIff`).
- A serial ring with exactly 64 unread bytes looks empty (`Serial.FullLooksEmpty`).
  `serial_init` installs the handler for the interrupt of COM1 whatever device it is called
  for, so only the ring of COM1 is ever filled (`Serial.OnlyFirstRingFilled`).
- The installer asks for one zone too many for files of 7 blocks and for two too many for
  files of 519 (`KernelFile.PrecheckIsExact`).
- `minix_trunc_inode` never assigns its loop limit. It is a parameter here. Of the limits up
  to the number of blocks, exactly that number restores the zone map
  (`KernelFile.TruncationRestoresIff`). A larger accidental limit reads words that no block
  has set; what it then does depends on them, and it can leave the map restored as well.
- `minix_file_block_2_block` accepts the index right behind the end of a file that fills its
  last block, where `load_zone` halts (`InstallBoot.LookupsAgree`, `InstallBoot.LookupsDiffer`).
- `mem_allocate_frames` returns a 32-bit address, so frames from 4 GB on have the address of
  a lower frame, or NULL. Giving them back by that address frees other frames
  (`FrameAllocation.GivenBackAlwaysIff`, `FrameAllocation.NullMeansNoneIff`,
  `FrameAllocation.HighFramesAreLost`, `FrameAllocation.HighFrameIsNull`).
- Bit k of the zone map stands for zone `s_firstdatazone + k`; MINIX has it one lower.
- `load_zone` compares with sign, so from zone index 0x8000 on it takes the wrong branch
  (`BootLoader.DescentFollowsTreeIff`, `BootLoader.LoadsTreeZoneIff`). Step 6 doubles the
  number of the inode's block in 16 bits, so it finds only inodes in blocks below 0x8000
  (`BootLoader.InodeFoundIff`). The comments of the boot loader put the kernel at 0x7e00;
  the code puts it at `KERNEL_BASE`.
- The driver sends 24 bits of the sector number (`AtaDriver.LandsIff`) and does not look at
  the disk behind the last sector of a write (`AtaDriver.AtaWrite`).
- In `kalloc` the product that gives the number of frames has 32 bits, so requests above
  0xFFFFFFE0 bytes ask for too few (`HeapModel.FramesForIsEnough`).

## Assumptions

- Nobody but `kalloc` and the one allocation of the stack frame takes or returns frames in
  [1M, 3M), and no unavailable region reaches into it, as the head of mem.c says. The bytes
  set aside for the bitmap are addressable if the bitmap fits. A memory map has its terminator.
- Heap memory and the bitmap are separate stores. The bitmap's bytes lie in frames up to
  `BitmapLastFrame`, and the heap's frames start behind it.
- The partition has all the zones its superblock names, and their numbers fit 16 bits; the
  installer has loaded that superblock from block 1. Files
  have at least one byte and at most 7 + 512 + 512 * 512 blocks. The kernel has at most
  608.5 KB, and its inode's block has a number below 0x8000.
- In the runs of `Keyboard`, keys are pressed and the keyboard is read between codes, not
  inside one, and the codes in the ring fit it. For the serial port nothing is assumed;
  `NoOverrun` and `AllInTime` are its conditions for delivery in order.
- A disk transfer starts at least 400 ns after the last block of the one before it and moves
  at most 256 sectors.

## Model

| member | source | states |
|---|---|---|
| PackedBitmap.SetSlotGetSlot | src/kernel/drivers/mem.c:103-118 | A status written to one of the four slots of a byte reads back, and the other three slots keep theirs |
| PackedBitmap.WithEntryStatus | src/kernel/drivers/mem.c:103-118 | Writing the entry of one frame is seen at that frame and at no other frame of the bitmap |
| PackedBitmap.WithEntryMap | src/kernel/drivers/mem.c:103-111 | A write to the packed bytes is the update of one frame in the frame-to-status map, and nothing if the frame is beyond memory |
| FrameAllocation.FrameAllocator.SetEntry | src/kernel/drivers/mem.c:103-111 | Changes the status of exactly that frame, and no byte but the one that holds it |
| FrameAllocation.FrameAllocator.GetEntry | src/kernel/drivers/mem.c:113-118 | The status of the frame in the map |
| FrameMap.FirstRunIs | src/kernel/drivers/mem.c:207-221 | There is only one leftmost run of free frames, so the specification of an allocation has one answer |
| FrameMap.ScanStep | src/kernel/drivers/mem.c:207-221 | A counter that starts over at each frame in use reaches the number asked for exactly at the end of the leftmost run |
| FrameMap.OneHoleFirstRun | src/kernel/drivers/mem.c:200-223 | Over a range with one hole first fit takes the hole from its left end, and fails exactly if the hole is too small |
| FrameMap.AdjacentGrowthIffOneHole | src/kernel/drivers/mem.c:200-223 | In a range of frames every two successive allocations are adjacent if and only if its free frames are one hole |
| FrameAllocation.FrameAllocator.AllocateFrames | src/kernel/drivers/mem.c:200-223 | Finds the leftmost run of free frames in the clamped range, marks exactly its frames used and returns its address as 32 bits keep it; if there is none, returns NULL with the bitmap unchanged; also for a request of no frames |
| FrameAllocation.StartOfNone | src/kernel/drivers/mem.c:207-221 | A request for no frames gets the address behind the first frame in use of the range, or NULL if all are free |
| FrameAllocation.FrameAllocator.MarkUsed | src/kernel/drivers/mem.c:214-217 | The countdown marks exactly the frames of the run |
| FrameAllocation.FrameAllocator.ClampIs | src/kernel/drivers/mem.c:203-205 | The limit of an allocation leaves exactly the frames of memory below the one that the caller names, or all of them if none is named |
| FrameAllocation.FrameAllocator.ReleaseFrames | src/kernel/drivers/mem.c:228-245 | Frees the used frames of the range that exist; reserved and free ones stay as they are |
| FrameAllocation.GivenBackIff | src/kernel/drivers/mem.c:200-245 | Giving back by its address what was allocated restores the map if and only if the run starts at a frame above 0 and below 2^20 |
| FrameAllocation.BitmapStaysReserved | src/kernel/drivers/mem.c:179-245 | Memory setup reserves the frames up to the last one of the bitmap, no allocation or release changes that, and so every run that an allocation finds lies behind them |
| FrameAllocation.EntriesReserved | src/kernel/drivers/mem.c:179-188 | In every map that the allocator can have, the frame that holds the byte with the entry of any frame is reserved |
| FrameAllocation.GivenBackAlwaysIff | src/kernel/drivers/mem.c:200-245 | For the arguments of a call: giving back restores every map that the allocator can have if and only if no run of the range can start at frame 2^20 or later |
| FrameAllocation.NullMeansNoneIff | src/kernel/drivers/mem.c:198-222 | For the arguments of a call: NULL means that there is no run, in every map that the allocator can have, if and only if no run of the range can start at 4 GB or a multiple of it |
| FrameAllocation.HighFramesAreLost | src/kernel/drivers/mem.c:200-245 | On a map of more than 4 GB with the frames of the bitmap reserved, a caller that gives back its frame 0x100201 frees the used frame 0x201 instead |
| FrameAllocation.HighFrameIsNull | src/kernel/drivers/mem.c:200-223 | On such a map a caller gets NULL for frame 0x100000 although the frame is marked, and it stays so |
| FrameAllocation.FrameAllocator.AllocateThenRelease | src/kernel/drivers/mem.c:200-245 | On the code: allocating frames and giving them back restores the bitmap if and only if the run has a 32-bit address that is not NULL |
| FrameAllocation.RegionsStop | src/kernel/drivers/mem.c:129-134 | A scan of the memory map visits exactly the entries in front of its terminator |
| FrameAllocation.FrameAllocator.HighestAddress | src/kernel/drivers/mem.c:129-135 | The greatest end of any region |
| FrameAllocation.TotalFramesIs | src/kernel/drivers/mem.c:129-136 | The frames of memory are those that end at or below the highest address |
| FrameAllocation.FrameAllocator.FindRoom | src/kernel/drivers/mem.c:138-151 | Finds an available region with room for the bitmap if and only if there is one |
| FrameAllocation.HoldsBitmapIs | src/kernel/drivers/mem.c:138-147 | A region is taken for the bitmap if and only if it is available and has every one of the two bytes per frame that are set aside |
| FrameAllocation.BitmapFitsBounds | src/kernel/drivers/mem.c:123-188 | If the bitmap fits, every frame that any region spans and every frame of the bitmap has its entry inside the verified bytes |
| FrameAllocation.ZeroMapIsFree | src/kernel/drivers/mem.c:155-157 | Cleared bytes mean free frames, whatever their number |
| FrameAllocation.FrameAllocator.ReserveFrames | src/kernel/drivers/mem.c:165-188 | Reserves exactly the frames of an inclusive range; the read-back check never fails |
| FrameAllocation.ReservedForStep | src/kernel/drivers/mem.c:160-176 | One more region of the memory map reserves its inclusive span and nothing else |
| FrameAllocation.SpansIs | src/kernel/drivers/mem.c:160-176 | A region reserves exactly the frames of its bytes and of the address behind them |
| FrameAllocation.FrameAllocator.ReserveUnavailable | src/kernel/drivers/mem.c:160-176 | A frame is reserved exactly if a region that is not available spans it; no byte outside the bitmap changes, and the failure exit is not taken |
| FrameAllocation.FrameAllocator.Init | src/kernel/drivers/mem.c:123-188 | Succeeds if and only if the bitmap fits; then a frame is reserved exactly if it is at or below the last frame of the bitmap or spanned by an unavailable region, and free otherwise; `FrameAllocation.BitmapLastFrameIs` says where that frame is, in bytes |
| FrameAllocation.BitmapLastFrameIs | src/kernel/drivers/mem.c:179-182 | No entry of a frame lies behind the last frame of the bitmap, and that frame does not start behind the last byte that can hold an entry |
| KernelHeap.InitialKernelHole | src/kernel/drivers/mem.c:17-18 | If no unavailable region reaches into [1M, 3M), the free frames of that range are one hole, from behind the bitmap to its end |
| KernelHeap.StackFrameRun | src/kernel/kernel.c:44-50 | The call for the stack can get no frame but the last one below the user space |
| KernelHeap.KernelHeap.MemInit | src/kernel/drivers/mem.c:123-194 | The frames are in their initial state and the list head is empty, or the call fails |
| KernelHeap.KernelHeap.Boot | src/kernel/kernel.c:39-50 | Memory setup and the stack frame establish the invariant of the heap: an empty list, one hole behind the bitmap that ends at the stack; fails exactly if memory, the bitmap or the stack frame do not allow it |
| HeapModel.TilesOrder | src/kernel/drivers/mem.c:267-278 | Entries of a tiled heap are in the order of their addresses and do not overlap |
| HeapModel.TilesTotal | src/kernel/drivers/mem.c:333-346 | Headers and payloads of a tiled heap add up to its frames |
| HeapModel.UnitsForIs | src/kernel/drivers/mem.c:299-301 | The units of a request hold its bytes, and one unit fewer would not |
| HeapModel.FramesForIsEnough | src/kernel/drivers/mem.c:333-335 | The frames asked for hold the bytes and a header exactly if the request is at most 0xFFFFFFE0 bytes, and then they are as few as possible |
| HeapModel.FirstFitIs | src/kernel/drivers/mem.c:303-331 | There is only one first entry that fits |
| HeapModel.FitsIs | src/kernel/drivers/mem.c:309-310 | An entry serves a request if and only if it is free and its payload has that many bytes |
| HeapModel.AllocKeepsInv | src/kernel/drivers/mem.c:295-348 | Allocation keeps the heap tiled and without two free neighbours, also when growth puts two free entries side by side in between |
| HeapModel.DeallocKeepsInv | src/kernel/drivers/mem.c:350-392 | Release keeps the heap tiled and leaves no two free neighbours, for any pointer |
| HeaderList.SplitList | src/kernel/drivers/mem.c:314-326 | The writes that split an entry turn the list of headers into the list with the entry in two, all links in both directions right |
| HeaderList.JoinList | src/kernel/drivers/mem.c:375-386 | The writes that merge two headers turn the list into the list with the two entries as one |
| HeaderList.GrowList | src/kernel/drivers/mem.c:341-345 | Linking new frames behind the last header gives the list with one more free entry |
| HeaderList.FlagList | src/kernel/drivers/mem.c:310-370 | Changing the flags of a header changes the status of that entry and nothing else of the list |
| HeaderList.DoublyLinked | src/kernel/drivers/mem.c:270-278 | In a list that all the writes keep right, the next link of every entry leads to one whose prev link leads back |
| KernelHeap.KernelHeap.Split | src/kernel/drivers/mem.c:314-326 | The front of the entry is taken and the rest is a new free entry; memory changes only at headers |
| KernelHeap.KernelHeap.ObtainFrames | src/kernel/drivers/mem.c:333-340 | While the hole is large enough, the frames come from right behind the heap; otherwise nothing changes |
| KernelHeap.KernelHeap.LinkFrames | src/kernel/drivers/mem.c:341-346 | The new frames are one free entry at the end of the list, also when the list was empty |
| KernelHeap.KernelHeap.Walk | src/kernel/drivers/mem.c:304-331 | Follows the links to the first free entry that fits, or to the last entry if there is none |
| KernelHeap.KernelHeap.Locate | src/kernel/drivers/mem.c:303-347 | Ends after at most one growth, at the first entry that fits; NULL with the state unchanged if neither an entry nor the frames suffice; `HeapModel.FitsIs` says in bytes what fits |
| KernelHeap.AllocFailsOnMapIff | src/kernel/drivers/mem.c:303-340 | The model of an allocation fails exactly if no free entry has the bytes and [1M, 3M) has no run of free frames that hold them and a header |
| KernelHeap.KernelHeap.Kalloc | src/kernel/drivers/mem.c:295-348 | Keeps the invariant of list and frames; the heap, the pointer and the frames taken are those of the model; NULL exactly if no free entry has the bytes and the frame map no run of frames that hold them and a header, and then nothing changes; memory changes only at headers |
| KernelHeap.KernelHeap.FindBlock | src/kernel/drivers/mem.c:356-365 | Finds the entry whose payload starts at the pointer and the entry before it, or none if there is no such entry |
| KernelHeap.KernelHeap.FreeEntry | src/kernel/drivers/mem.c:369-388 | The entry is free and merged with its free neighbours on either side; memory changes only at headers |
| KernelHeap.KernelHeap.Kfree | src/kernel/drivers/mem.c:350-392 | Keeps the invariant; frees the block at the pointer as the model does, and ignores NULL, foreign pointers and double frees |
| HeapRuns.AllocBlocks | src/kernel/drivers/mem.c:295-348 | Adds exactly the block that is returned, new, large enough and less than two units too large; all other blocks stay |
| HeapRuns.AllocTakesFirst | src/kernel/drivers/mem.c:303-331 | The first free entry with enough bytes serves a request, no frame is taken, and the block has less than two units more than asked for |
| HeapRuns.AllocGrows | src/kernel/drivers/mem.c:333-347 | Without such an entry the heap grows by the fewest frames that hold the bytes and a header, and the block is at their start; if there is no room for them, nothing changes |
| HeapRuns.DeallocBlocks | src/kernel/drivers/mem.c:350-392 | Removes exactly the block at the pointer; all other blocks stay |
| HeapRuns.BlocksApart | src/kernel/drivers/mem.c:295-392 | Two blocks share no unit, a block holds no header, and all lie inside the frames of the heap |
| HeapRuns.RunKeepsGood | src/kernel/drivers/mem.c:295-392 | In every state of every run the heap is tiled, has no two free neighbours, and its blocks are exactly the live ones, each with at least the bytes asked for |
| HeapRuns.RunConserves | src/kernel/drivers/mem.c:333-392 | In every state of every run the sizes with their headers sum to 256 units for each frame obtained |
| HeapRuns.RunKeepsRange | src/kernel/drivers/mem.c:295-392 | In every state of every run the heap has the same first frame and the same limit |
| HeapRuns.RunLiveBlocksApart | src/kernel/drivers/mem.c:295-392 | In every state of every run any two live blocks are disjoint and off all headers, and lie inside the frames that the heap started with |
| HeapRuns.RunAllFreed | src/kernel/drivers/mem.c:372-387 | In every run, once nothing is live, the list is empty or one free entry over the whole heap |
| HeapRuns.RunKeepsPayload | src/kernel/drivers/mem.c:295-392 | Over every run that does not free a block or store to it, each unit of the block keeps its contents |
| HeapSession.Perform | src/kernel/drivers/mem.c:295-392 | The code does each allocation, release and store as a step of the model, from every valid state; an allocation returns NULL or the address of the block that is live from then on |
| HeapSession.StoreKeepsList | src/kernel/drivers/mem.c:270-278 | A store to a unit that holds no header leaves the list as it is |
| HeapSession.Session | src/kernel/kernel.c:39-50 | Boot, then any sequence of allocations, releases and stores by owners, goes through the states of a run that starts from an empty heap, and each allocation returns NULL or the address of its new live block; it fails exactly where boot does |
| HeapSession.RunFromBootInRange | src/kernel/drivers/mem.c:91-93 | In every state of every run from boot on, a live block has at least the bytes asked for, and it and its header lie behind the byte with the entry of any frame and below the frame of the stack |
| HeapRuns.FreeUndoesMalloc | src/kernel/drivers/mem.c:295-392 | Releasing a block right after it was taken from a free entry restores the heap |
| ZoneBitmap.BitAtWrite | tools/src/minix.c:48-56 | Setting or clearing a bit of the map is seen at that bit and at no other |
| ZoneBitmap.BitAtIs | tools/src/minix.c:48-49 | The bits of the map count from the lowest bit of the first byte on |
| ZoneTree.PlaceDeterminesRole | tools/src/minix.c:146-214 | No two zones of a file are recorded at the same place: the mixed index arithmetic does not collide |
| ZoneTree.BindKeepsZone | tools/src/minix.c:146-214 | Recording a new zone does not change where the zones before it are found |
| ZoneTree.ZoneOfIs | tools/src/minix.c:123-144 | The zone that the descent by roles finds is the one that the format names, in the inode, in one index block or in two |
| ZoneTree.BindKeepsTree | tools/src/minix.c:146-214 | Recording a new role at an unused zone keeps the tree: one zone for each role, one role for each zone, parents in place |
| ZoneTree.DataWriteKeepsTree | tools/src/minix.c:451-452 | Writing to a data zone changes no index block, so the tree stays |
| ZoneTree.CompleteNext | tools/src/minix.c:154-213 | With the roles that block n makes necessary, a tree complete for n blocks is complete for n + 1 |
| ZoneTree.ZonesForIs | tools/src/minix.c:150-213 | The zones a file of n blocks takes, data and index, in closed form |
| InodeTable.RecordReadsBack | tools/src/minix.c:76-84 | The 32 bytes written for an inode read back field by field |
| InodeTable.RecordLayout | tools/src/minix.c:76-84 | Which byte of a record is which byte of which field |
| InodeTable.SaveThenLoad | tools/src/minix.c:216-239 | A saved inode loads back, and every other inode loads as before |
| KernelFile.InodePlace | tools/src/minix.c:43-46 | The records of the inodes stand one after another, from the first byte behind boot block, superblock and the blocks of both maps on |
| FileZones.SuperblockLayout | tools/src/minix.c:64-69 | Which bytes of block 1 are which field of the superblock |
| Installer.Installer.TakeZone | tools/src/minix.c:155-160 | Takes the first zone whose bit is clear, all bits before it being set, and sets exactly that bit, or reports that none is free |
| Installer.Installer.RecordZone | tools/src/minix.c:155-209 | Takes a zone and records it in its place; all zones found before are found as before, and no other bit changes |
| Installer.Installer.AddDirect | tools/src/minix.c:154-161 | Adds the zone of a block below 7 to the inode; fails exactly if no zone is free |
| Installer.Installer.AddSingle | tools/src/minix.c:162-182 | Adds the zone of a block under the single-indirect zone, and that zone with the first one; fails exactly if the zones it needs are not free |
| Installer.Installer.AddIndexes | tools/src/minix.c:184-201 | Adds the double-indirect zone and a second-level zone exactly when the block starts one |
| Installer.Installer.AddDouble | tools/src/minix.c:183-213 | Adds the zone of a block under the double-indirect zone and the index zones it makes necessary; fails exactly if the zones it needs are not free |
| Installer.Installer.AddFileBlock | tools/src/minix.c:146-214 | Fails exactly if the zones it needs are not free; otherwise the tree has one more block, every earlier zone is found where it was, all zones are distinct with their bits set, and of the disk only index blocks of the file are written |
| Installer.Installer.FileBlockToBlock | tools/src/minix.c:123-144 | The zone that the tree records for the block, on all three levels; refuses exactly the blocks beyond the end as the code tests it |
| Installer.Installer.LoadInode | tools/src/minix.c:216-226 | The inode that the table holds under that number |
| Installer.Installer.SaveInode | tools/src/minix.c:228-239 | Writes exactly the record of that inode |
| Installer.Installer.TruncSingle | tools/src/minix.c:250-257 | Gives back the zone of the block and, with the first one, the index zone, once each |
| Installer.Installer.TruncIndexes | tools/src/minix.c:259-268 | Gives back the index zones that start with this block, and has the index blocks that lead to it |
| Installer.Installer.TruncInode | tools/src/minix.c:241-272 | Gives back each data and index zone of the blocks below the limit once, and no other zone |
| KernelFile.PrecheckIsExact | tools/src/minix.c:408-413 | The space asked for is the space used for every number of blocks but 7 and 519, where it is over by 1 and by 2 |
| Installer.Installer.CheckSpace | tools/src/minix.c:408-421 | Passes if and only if at least that many zones are free |
| KernelFile.StoringKeepsFile | tools/src/minix.c:451-454 | Storing data and inode destroys no index block of the file and no block stored before, and the inode loads back |
| KernelFile.FrontKept | tools/src/minix.c:228-239 | Storing a file changes no block in front of the inode table |
| Installer.Installer.CopyBlock | tools/src/minix.c:446-455 | One turn of the copy loop: the file has one more block with its bytes, the saved inode says so, and nothing else on the disk changes |
| Installer.Installer.CopyKernel | tools/src/minix.c:445-455 | With enough free zones the loop never runs out of space; it uses exactly the zones the size needs |
| Installer.Installer.WriteKernel | tools/src/minix.c:408-455 | Fails only in the check and then without a trace; otherwise the inode reads as the kernel, only free zones were taken, all other zones and inodes are as before, and so is every block in front of the inode table: boot block, superblock and maps |
| KernelFile.TruncationRestoresIff | tools/src/minix.c:241-272 | Of all limits up to the number of blocks of what was installed, exactly that number makes truncation restore the zone map |
| InstallBoot.InstallThenTruncate | tools/src/minix.c:216-455 | Install, then load the inode from the table and truncate it, on the code: of all limits up to the number of blocks, exactly that number restores the zone map |
| BootLoader.DescentFollowsTreeIff | src/boot/vbr.asm:595-620 | The levels that the boot loader descends are the places of the zone tree if and only if the zone index is below 0x8000 |
| BootLoader.LoadsTreeZoneIff | src/boot/vbr.asm:573-676 | From every memory and every disk, the zone loaded is the one that the zone tree has for the index, if and only if the index is below 0x8000 |
| BootLoader.LoadedZoneIs | src/boot/vbr.asm:595-672 | Below 0x8000 the descent through inode and index blocks ends at the zone of the tree, and every zone on the way is on the disk if the file is |
| BootLoader.LoadedZonePast | src/boot/vbr.asm:595-672 | From index 0x8000 on, the zone loaded is the word at that index behind the inode, at an address of 16 bits |
| BootLoader.BootLoader.LoadZone | src/boot/vbr.asm:573-676 | Halts exactly at or beyond the end of the file; otherwise it leaves in the buffer the block of the zone that the levels lead to, for every index, and changes no other memory |
| BootLoader.BootLoader.LoadSuperblock | src/boot/vbr.asm:312-329 | Puts the second half of block 0 and the superblock of block 1 at their places and changes nothing else but the buffer |
| BootLoader.BootLoader.FindTable | src/boot/vbr.asm:331-339 | The block of the inode table is the 16-bit sum of 2 and the two map sizes that the superblock on disk names |
| BootLoader.BootLoader.LoadKernelInode | src/boot/vbr.asm:468-501 | The current inode is the record at the place of that inode, in the block whose number is left of the right one after doubling in 16 bits |
| BootLoader.InodeFoundIff | src/boot/vbr.asm:471-491 | Step 6 finds the inode, on every disk, if and only if its block has a number below 0x8000 |
| BootLoader.OneMoreBlock | src/boot/vbr.asm:525-554 | The buffer lies below the kernel, so loading the next block leaves those loaded before |
| BootLoader.BootLoader.CopyBuffer | src/boot/vbr.asm:537-550 | The segment and offset computed address the linear target, and the copy changes only its 1024 bytes |
| BootLoader.BootLoader.LoadKernel | src/boot/vbr.asm:503-558 | The blocks of the kernel stand in memory one after another |
| BootLoader.BootLoader.Boot | src/boot/vbr.asm:312-562 | The kernel that is installed under the inode, in the table that the superblock on disk describes, stands at KERNEL_BASE byte for byte |
| InstallBoot.LookupsAgree | src/boot/vbr.asm:573-672 | For every zone index: below 0x8000 the zone that the boot loader loads is the one that the installer finds; both accept or refuse the same indices if and only if the size is below 2 GB and is not 1024 times the index |
| InstallBoot.LookupsDiffer | tools/src/minix.c:126-127 | For index 1 of a file of 1024 bytes the boot loader halts and the installer returns a zone |
| InstallBoot.InstallThenBoot | src/boot/vbr.asm:312-562 | Install, then boot, is the identity on the bytes of every kernel of admissible size, with the place of the inode table computed on both sides from the superblock in block 1; it fails exactly if the free-space check does |
| Keyboard.CodeInPieces | src/kernel/drivers/kb.c:53-76 | A long code goes to the ring in two pieces, each whole or not at all |
| Keyboard.CodeEnqueued | src/kernel/drivers/kb.c:53-76 | A complete code that finds room is in the ring whole, and nothing is kept back |
| Keyboard.CodeFramedIff | src/kernel/drivers/kb.c:68-75 | Which codes stay whole, and which are dropped whole, when the ring is nearly full, exactly |
| Keyboard.CodeRead | src/kernel/drivers/kb.c:85-122 | The reader takes exactly the code at the front of a queue of codes |
| Keyboard.RunDeliversCodes | src/kernel/drivers/kb.c:46-123 | Over every run of complete codes that fit the ring, read at code boundaries, the reader gets exactly the codes pressed, in order, one for each read that finds one, and the rest is in the ring |
| Keyboard.PressKey | src/kernel/drivers/kb.c:46-83 | The interrupts of one complete code that finds room put it into the ring whole |
| Keyboard.TypeAndRead | src/kernel/drivers/kb.c:46-123 | On the code, for keys and reads in any order that does not overflow the ring: each read gets the first code that is pending, the codes pressed come out in order, and the ring holds the rest |
| Keyboard.ReadInsideCodeFails | src/kernel/drivers/kb.c:85-122 | A read in the middle of a pause code leaves a negative count |
| Keyboard.RingPush | src/kernel/drivers/kb.c:71-73 | A byte stored behind the last one extends the contents of the ring by it, across the wrap-around too |
| Keyboard.RingPop | src/kernel/drivers/kb.c:92-96 | Moving the head drops that many bytes at the front |
| Keyboard.Keyboard.InterruptHandler | src/kernel/drivers/kb.c:46-83 | One interrupt does to ring and partial code what the sequence model does; the partial buffer and the count stay in range |
| Keyboard.Keyboard.ScanCode | src/kernel/drivers/kb.c:85-123 | Takes the first code off the ring and the count stays in range, if and only if the whole code is there |
| KeyboardInside.DisplacedIff | src/kernel/drivers/kb.c:71-75 | A piece stored too far behind comes out right, whatever the ring held before, if and only if the head had not moved |
| KeyboardInside.InsideIsBeforeIff | src/kernel/drivers/kb.c:46-122 | An interrupt behind s moves of the head has the effect of one before the read, on every ring, if and only if s is 0 or the interrupt stores nothing |
| KeyboardInside.ReadWithInterrupt | src/kernel/drivers/kb.c:46-123 | On the code, with an interrupt behind any of its head moves: the reader gets its code whole, the count stays in range, and the ring holds the rest and then the displaced bytes |
| Serial.HandlerAndReaderShareRing | src/kernel/drivers/serial.c:133-206 | Handler and reader use the same ring for the same port; a port has an interrupt if and only if it is COM1 or COM2 |
| Serial.RingsApart | src/kernel/drivers/serial.c:169-186 | Exactly four ports have rings, and different ports have different rings |
| Serial.OnlyFirstRingFilled | src/kernel/drivers/serial.c:94-206 | Whichever ports are set up, the only ring that interrupts fill is that of COM1, and they do once any setup succeeds |
| Serial.LatestIsUnique | src/kernel/drivers/serial.c:164-165 | The latest received byte of an index modulo 64 is one byte only |
| Serial.LatestIsNextIff | src/kernel/drivers/serial.c:161-165 | The byte read is the next one received if and only if at most 64 are unread |
| Serial.RunReadsLatest | src/kernel/drivers/serial.c:149-228 | In every run of the log the i-th byte read is the latest byte received at that time whose index is congruent to i modulo 64 |
| Serial.RunReadsIndices | src/kernel/drivers/serial.c:149-228 | In every run the bytes received are those that arrive, and each byte read is the arrival whose index the schedule of events alone determines |
| Serial.InOrderIff | src/kernel/drivers/serial.c:149-228 | The arrivals are read one by one and in order, none lost and none twice, if and only if at most 64 are unread whenever one is read |
| Serial.NoOverrunIsFifo | src/kernel/drivers/serial.c:149-228 | Without overrun the bytes read are a prefix of the bytes received |
| Serial.ReadsIff | src/kernel/drivers/serial.c:149-167 | A call returns a byte if and only if the number of unread ones is not a multiple of 64 |
| Serial.ReadsAll | src/kernel/drivers/serial.c:149-228 | After any run without overrun, as many calls as there are unread bytes, if these are fewer than 64, return all that has arrived |
| Serial.FullLooksEmpty | src/kernel/drivers/serial.c:161-162 | The reader goes on exactly if the number of unread bytes is not a multiple of 64 |
| Serial.Port.InterruptHandler | src/kernel/drivers/serial.c:208-228 | The byte joins the received ones, and every cell holds the latest byte of its index |
| Serial.Port.Load | src/kernel/drivers/serial.c:164 | Any time behind the wait, the byte at the read head is the latest received of its index |
| Serial.Port.Read | src/kernel/drivers/serial.c:149-167 | The byte returned is the one that the log of the port says |
| Serial.Deliver | src/kernel/drivers/serial.c:149-228 | On the code, for interrupts and reads in any order: each byte delivered is the latest arrival of its index modulo 64, and without overrun the bytes delivered are a prefix of the arrivals |
| SerialSteps.StepsReadLatest | src/kernel/drivers/serial.c:149-228 | With interrupts between any two steps of the reader, each byte returned is the latest byte of its index at the time of its load |
| SerialSteps.StepsInOrderIff | src/kernel/drivers/serial.c:149-228 | With interrupts between any two steps of the reader, the arrivals are read one by one and in order if and only if at most 64 are unread at every load |
| SerialSteps.ReadsOneIff | src/kernel/drivers/serial.c:159-166 | A reader at its wait returns exactly one byte, the latest of its index, in its next three steps if the number of unread bytes is not a multiple of 64; otherwise it stays |
| SerialSteps.UndividedAgrees | src/kernel/drivers/serial.c:149-228 | Without interrupts inside a call, the reader in steps reads exactly what whole calls read |
| SerialSteps.ReaderStep | src/kernel/drivers/serial.c:149-167 | On the code, each of the three steps of the reader does to ring, heads and log what the step of the machine does, whose progress `SerialSteps.ReadsOneIff` states |
| SerialSteps.DeliverSteps | src/kernel/drivers/serial.c:149-228 | On the code, for interrupts between any steps of the reader: the bytes returned are the arrivals with the indices that the schedule alone determines, the first arrivals in order if every load is in time, and those that whole calls return if no interrupt divides a call |
| Numerals.DigitsRoundTrip | src/kernel/string.c:28-32 | The digits of a number read back as the number, in each of the four bases |
| Numerals.DigitsNoZero | src/kernel/string.c:28-32 | The highest digit is not zero, and no digit is a NUL |
| Numerals.TextRoundTrip | src/kernel/string.c:12-55 | The text of a number reads back as the number behind its prefix, without a needless leading zero |
| Numerals.TextIsLiteral | src/kernel/string.c:12-55 | The text of a number is the literal of C for it in octal, decimal and hexadecimal, and its binary digits otherwise |
| Numerals.TextInjective | src/kernel/string.c:12-55 | Different numbers have different texts |
| Numerals.DigitsLengthIff | src/kernel/string.c:28-32 | A number has at most k digits if and only if it is below the k-th power of the base, so 65 characters suffice |
| Numerals.Itoa | src/kernel/string.c:12-55 | Writes prefix, padding and digits and a NUL to the buffer and nothing else, all indices in range |
| Numerals.PaddingIff | src/kernel/string.c:35-54 | The string in the buffer is the text of the number if and only if its digits fill the padding; otherwise only the prefix is left |
| Formatter.AppendLow | src/kernel/string.c:180-191 | The second call of itoa and the move over its prefix leave the text in front of it, and all stays inside 65 characters |
| Formatter.ConvertQuad | src/kernel/string.c:177-191 | What the buffer holds after a 64-bit conversion |
| Formatter.Placeholder | src/kernel/string.c:166-233 | Accepts exactly the conversions of the grammar, takes their arguments and gives their text, and never reads past the end of the format; what the texts show is in `Formatter.WordShown`, `Formatter.StringShown` and `Formatter.QuadShown` |
| Formatter.Sprintf | src/kernel/string.c:135-239 | Writes the meaning of the format, changes nothing behind it, and returns its length, or -1 at a bad conversion |
| Formatter.RenderOkIff | src/kernel/string.c:192-229 | A call succeeds if and only if the format is in the grammar |
| Formatter.EscapedTextComesOut | src/kernel/string.c:160-174 | Any text with its percent signs doubled comes out as it is |
| Formatter.WordShown | src/kernel/string.c:197-226 | Behind %b, %w or %d and a letter, the low 8, 16 or 32 bits of the argument come out as a number in base 2, 8, 10 or 16, as b, o, d or x says; then the rest of the format |
| Formatter.StringShown | src/kernel/string.c:166-170 | A string argument comes out as it is, then the rest of the format |
| Formatter.QuadShown | src/kernel/string.c:175-196 | Behind %q a 64-bit argument comes out in binary or, for o, d and x alike, in hexadecimal, and as itself if and only if it is zero or its low half fills its digits |
| Formatter.QuadShownIff | src/kernel/string.c:175-196 | A 64-bit conversion shows the number if and only if it is zero or its low half fills all its digits |
| Tokenizer.TokensUnique | src/kernel/string.c:100-133 | There is one list of the maximal nonempty stretches without delimiters, in order |
| Tokenizer.TokensAreTokens | src/kernel/string.c:107-130 | The stretches that successive calls find are exactly the maximal nonempty ones without delimiters, all of them and in order |
| Tokenizer.CutAllAt | src/kernel/string.c:127-130 | Of the memory exactly the characters behind the tokens become NULs |
| Tokenizer.RunLeavesTokens | src/kernel/string.c:127-132 | In the memory that a run leaves, each pointer returned is a string of its own: its token |
| Tokenizer.Tokenizer.Strtok | src/kernel/string.c:100-133 | Returns the next token or NULL, cuts the string behind it, and leaves the rest of the string for the next call |
| Tokenizer.Tokenizer.Tokenize | src/kernel/string.c:100-133 | A whole run returns the addresses of all tokens in order and then NULL, and overwrites only the delimiters behind them |
| AtaDriver.LandsIff | src/kernel/drivers/ata.c:286-288 | The sectors that a transfer reaches are those named by the caller, on every disk, if and only if the number has 24 bits |
| AtaDriver.WordsOfAt | src/kernel/drivers/ata.c:293-297 | The words of sectors stand sector by sector |
| AtaDriver.SetRegisters | src/kernel/drivers/ata.c:283-288 | The registers select the drive that is named, by sector number, and hold the low 24 bits of that number and the low eight of the count |
| AtaDriver.Poll | src/kernel/drivers/ata.c:247-267 | Ends for every finite delay, once the data block or the error is there, and says which of them it is |
| AtaDriver.ReadSector | src/kernel/drivers/ata.c:295-296 | One block of the disk behind the words read so far |
| AtaDriver.AtaRead | src/kernel/drivers/ata.c:270-300 | Success means that the buffer holds the words of all the sectors of the drive named; otherwise that drive has reported an error; the buffer behind them does not change; a count that is not positive succeeds and leaves the drive in front of a transfer |
| AtaDriver.WriteSector | src/kernel/drivers/ata.c:328-329 | One block of the buffer in its sector, or an error and anything in that sector alone |
| AtaDriver.AtaWrite | src/kernel/drivers/ata.c:302-334 | Success means that the sectors of the drive named hold the buffer, all but the last one even if the drive reports an error too late to be seen; no sector outside the range and no sector of the other drive ever changes; a count that is not positive succeeds and leaves the drive in front of a transfer |
| AtaDriver.StoredReadsBack | src/kernel/drivers/ata.c:270-334 | Reading sectors that were stored gives back their words |
| AtaDriver.StoredElsewhere | src/kernel/drivers/ata.c:324-330 | Storing sectors leaves all others as they are |
| AtaDriver.WriteThenRead | src/kernel/drivers/ata.c:270-334 | A write and a read of the same range that both succeed without a late error give back the words written; no other sector of the drive and none of the other drive changes |

## Left out

- KernelHeap.KernelHeap.Kalloc: does not cover requests above 0xFFFFFFE0 bytes, for which the product in the source wraps and the frames do not hold the block.
- FrameAllocation.FrameAllocator.Init: memory maps, of 8 TB and more, whose bitmap fits a region but not the 32-bit address space.
- KernelHeap.KernelHeap.MemInit: the same memory maps.
- Installer.Installer.TruncInode: takes the loop limit as a parameter that is at most the number of blocks; a larger accidental value clears bits named by stale words, some of them outside the map.
- KernelFile.TruncationRestoresIff: limits up to the number of blocks, for the same reason.
- InstallBoot.InstallThenTruncate: limits up to the number of blocks; the number of the inode is known, not found by searching the root directory.
- Numerals.Itoa: paddings that the temporary array has room for with the prefix behind them; a larger one writes past the array.
- Keyboard.RunDeliversCodes: readers that run at code boundaries and are not interrupted, since the property fails otherwise (`Keyboard.ReadInsideCodeFails`, `KeyboardInside.InsideIsBeforeIff`).
- KeyboardInside.ReadWithInterrupt: one interrupt in one call; the change of the count is one step.
- AtaDriver.AtaRead: counts up to 256; with a larger one the driver waits for blocks that never come.
- AtaDriver.AtaWrite: the same counts.
- AtaDriver.WriteThenRead: counts from 1 to 256, the transfers that one command can do.
- Tokenizer.Tokenizer.Tokenize: one delimiter for the whole run; single calls may each have their own.
- HeapSession.Session: owners store whole 16-byte units, and only inside their blocks.
- Serial.Deliver: calls that no interrupt divides, and a call that would wait does nothing; `SerialSteps.DeliverSteps` has the wait and the interrupts inside.
- Readers inside a handler: a handler is one step, as interrupts are not nested.
- Searching and changing the root directory, the inode bitmap and partition tables: the number of the kernel's inode is a parameter.
- Disk images, BIOS calls and program exits: reading and writing blocks always succeeds; an exit for lack of space is a result.
- The frame buffer, `fb_printf`, `mem_inspect`: display only.
- Interrupt controller, interrupt table and stubs, port setup of the serial lines: fixed register writes; an interrupt is a step.
- `ata_init`, `identify_command`: field copying that depends on an uninitialised variable. `device.c` is not built.
- `serial_write`, `memcmp`, `strcmp`, `memcpy`: one-loop members that no property above needs.
- Descriptor tables, moving the stack, real-mode segmentation beyond the copy loop of the boot loader.
