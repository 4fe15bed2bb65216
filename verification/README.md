# BeeOS kernel and libc: verified models

BeeOS is a small Unix-like kernel with its own C library. This project models its most
intricate parts in Dafny and proves what they keep over whole runs. Kernel code runs on one
processor with interrupts off, so a step is everything a task does up to its next call of
`scheduler()` or its return.

Most parts come in three layers. A value-level model gives the state as a datatype and every
operation as a function, loops included. A theory file proves invariants, exact conditions and
run-level theorems about those functions. An operations file holds the code in its own form, a
class with the fields the C code updates and methods with its loops, each method proved to
compute the function. `dafny verify dfyconfig.toml` checks everything.

* **Physical memory** (`Bits`, `Dyadic`, `Buddy`, `BuddyTheory`, `BuddyLists`,
  `BuddyAllocator`, `Zone`, `Frame`, `FrameAllocator`). In every state reachable from `buddy_init` the free and the
  handed-out blocks partition the frames, every pair bit is the exclusive or of its two
  buddies, and the free lists hold exactly the maximal aligned free runs. Hence allocation
  fails exactly when no aligned run of the size is free, and freeing what was just allocated
  restores every list. The pair maps are large enough exactly for the frame counts that
  `MapFitsExactly` names; for 65 frames, for example, `buddy_init` allocates one word too few.
  Zones count references so that a second free changes nothing. `frame_free` finds the zone
  that issued a block exactly when no zone ahead in the list has frames so large that the block,
  measured in them, wraps around the address space and ends inside that zone; with equal or
  falling frame sizes this never happens.
* **Object allocators** (`Slab`, `SlabTheory`, `SlabOps`, `Htable`, `Kmalloc`, `KmallocOps`,
  `Malloc`, `MallocTheory`, `MallocRuns`, `MallocOps`). Slabs are on the list their use count
  demands, objects in use never overlap and are found again through their page or the hash
  table. `kmalloc` and `kfree` choose the least class that is large enough, exactly up to 4
  MiB. On every run of `malloc`, `free` and stores into blocks in which no split leaves a
  remainder smaller than a header, the user-space heap keeps its circular address-ordered list
  and tiles exactly the memory obtained. A split that leaves four bytes makes the return of the
  block destroy the heap, and only such a split does: `malloc(4084)` on a fresh heap is one.
  Programs whose requests, with the header added, are multiples of a header never cause one.
* **Pipes** (`Pipe`, `PipeCalls`, `PipeRing`, `PipeOps`). Any interleaving of readers, writers
  and signals is a bounded first-in first-out queue, and no wake-up is lost. Every read hands its
  caller exactly the bytes that left the ring for it, over all its sleeps, and every write
  returns when exactly its bytes have entered the ring.
* **Tasks and timers** (`Sched`, `SchedTheory`, `SchedEffects`, `SchedOps`, `Timer`,
  `TimerOps`, `List`). Every step wakes exactly whom it should and leaves all others alone.
  Round-robin scheduling with bounded waiting, wait queues served in order of arrival, zombies
  that never run again, and a stable timer queue from which a cancelled event never fires.
* **Path resolution** (`Vfs`, `VfsTheory`, `VfsResolve`, `VfsOps`). Any path, with `.`, `..`
  and repeated slashes, resolves to what its pieces lead to over parents and mounts, and fails
  exactly where one leads nowhere. Resolving the path that `dentry_path`
  prints for an entry that no mount hides gives the entry back, exactly when it is not itself a
  mount point. A hidden entry is found again only through a second place of the same path where
  it, or a directory above it, is mounted, and so never where only whole trees are mounted. A
  mount keeps the forest well-formed exactly when its point is a directory without a mount, its
  root is not mounted yet, and the point does not lie under it.
* **Files, descriptors and programs** (`Ramdisk`, `RamdiskOps`, `Ext2`, `Ext2Ops`, `Fds`,
  `FdOps`, `Exec`, `ExecOps`, `Itoa`, `ItoaOps`). `ext2_read` returns the bytes that the block
  pointers define, exactly when offset plus count does not wrap around; open-file counts equal
  the slots pointing at a file in every run; the argument stack decodes to what was put in;
  every long survives printing and parsing, and signed overflow happens on the way exactly for
  the smallest one.

`Common`, `Bytes` and `Division` hold definitions that several parts share. Products and
remainders by a block size are written as recursive functions there and proved equal to the
machine operators.

Where the code and its comments disagree, the code is modelled: `ramdisk_read` reports the
size of a short last block although it copies nothing from it, `dentry_path` accepts a path
that fills the buffer and then terminates it one byte past the end, `isspace` treats the letter v
as white space, and `dup` and `dup2` clear `FD_CLOEXEC`, a flag that nothing sets, so that the copy
of a descriptor opened with `O_CLOEXEC` is closed on exec too.

## Model

| member | source | states |
|---|---|---|
| BuddyAllocator.BuddySys.constructor | kernel/src/mm/buddy.c:118-187 | builds the model's initial state for every frame count; when the maps fit, every frame is a live block of order 0 and the invariant holds |
| BuddyAllocator.BuddySys.ToggleBit | kernel/src/mm/buddy.c:33-44 | flips exactly the pair's bit in its word; the result is non-zero iff the bit is now set |
| BuddyAllocator.BuddySys.Free | kernel/src/mm/buddy.c:49-78 | the coalescing loop computes the model's free |
| BuddyAllocator.BuddySys.Alloc | kernel/src/mm/buddy.c:83-113 | search and split compute the model's allocation |
| BuddyAllocator.BuddySys.Split | kernel/src/mm/buddy.c:105-111 | the splitting loop lists each right half and flips its pair bit |
| BuddyTheory.FreeLoopInv | kernel/src/mm/buddy.c:49-78 | coalescing keeps partition, lists and pair bits, and takes back exactly one live block |
| BuddyTheory.SplitLoopInv | kernel/src/mm/buddy.c:105-111 | splitting keeps partition, lists and pair bits |
| BuddyTheory.Canonical | kernel/src/mm/buddy.c:49-113 | a block is listed iff it is a maximal aligned free run |
| BuddyTheory.AllocExact | kernel/src/mm/buddy.c:83-113 | allocation fails, changing nothing, iff no aligned free run of the order exists; otherwise it hands out such a run |
| BuddyTheory.FreeExact | kernel/src/mm/buddy.c:49-78 | freeing a live block removes exactly it from the live blocks |
| BuddyTheory.LiveDeterminesFree | kernel/src/mm/buddy.c:49-113 | the live blocks determine the contents of every free list |
| BuddyTheory.AllocThenFree | kernel/src/mm/buddy.c:49-113 | freeing what was just allocated restores every free list up to order |
| BuddyLists.AllocLists | kernel/src/mm/buddy.c:83-113 | allocation takes the first block of the least order that has one; the right halves become the only blocks of the lists below, and no other list changes |
| BuddyLists.FreeLists | kernel/src/mm/buddy.c:49-78 | a freed block merges upwards for a while: each buddy leaves its list, what results joins its own at the end, and no other list changes |
| BuddyTheory.InitGood | kernel/src/mm/buddy.c:118-187 | the state after initialisation satisfies the invariant when the maps fit |
| BuddyTheory.MapFitsExactly | kernel/src/mm/buddy.c:160-164 | the allocated map words cover every pair iff a condition on the frame count holds at each order |
| BuddyTheory.MapTooSmall | kernel/src/mm/buddy.c:160-164 | with 65 frames the words do not cover the last pair |
| BuddyTheory.PowerOfTwoFits | kernel/src/mm/buddy.c:160-164 | every power of two of frames is covered |
| BuddyTheory.RunGood | kernel/src/mm/buddy.c:33-187 | every run of allocations and frees of live blocks keeps the invariant |
| BuddyTheory.RunPartition | kernel/src/mm/buddy.c:33-187 | in every reachable state free and live blocks are aligned, inside the frames, cover every frame, and are disjoint |
| BuddyTheory.RunPairBits | kernel/src/mm/buddy.c:33-44 | in every reachable state a pair bit is set iff exactly one buddy is listed, and never are both |
| BuddyTheory.RunCanonical | kernel/src/mm/buddy.c:49-113 | in every reachable state the lists hold exactly the maximal free runs |
| Zone.InitInv | kernel/src/mm/zone.c:50-61 | a new zone satisfies the invariant that a frame's count is 1 iff it heads a live block |
| Zone.AllocInv | kernel/src/mm/zone.c:25-34 | allocation hands out the address of a free run and counts its head, or returns null and changes nothing when there is none |
| Zone.FreeInv | kernel/src/mm/zone.c:36-48 | a free removes exactly the block whose head is addressed and changes nothing on any other frame |
| Zone.FreeCounts | kernel/src/mm/zone.c:36-48 | takes one reference off the frame, if it has any, and gives the block back iff that was the last |
| Zone.DoubleFree | kernel/src/mm/zone.c:36-48 | a second free of the same address, with any order, changes nothing |
| Zone.ZoneSt.constructor | kernel/src/mm/zone.c:50-61 | builds the model's initial zone for every frame count; when the maps fit it satisfies the zone invariant |
| Zone.ZoneSt.Alloc | kernel/src/mm/zone.c:25-34 | computes the model's zone allocation in place |
| Zone.ZoneSt.Free | kernel/src/mm/zone.c:36-48 | computes the model's zone free in place |
| Frame.IsWithinExact | kernel/src/mm/frame.c:45-58 | the test is exact containment iff the range does not wrap around to end inside the other one |
| Frame.IsWithinEmpty | kernel/src/mm/frame.c:50-54 | an empty range is inside iff it starts in the other one, or where an empty one starts |
| Frame.IsWithinWraps | kernel/src/mm/frame.c:45-58 | a block of 2^19 frames of 4096 bytes above a zone at 0x1000 is wrongly reported as inside it |
| Frame.FrameAllocExact | kernel/src/mm/frame.c:29-42 | allocation fails iff every zone lacks a requested flag bit or a free run of the order; otherwise the first zone with all requested bits and room serves it |
| Frame.InvUsable | kernel/src/mm/frame.c:29-42 | in every consistent state of the zones a request can be served |
| Frame.RoutesToIssuer | kernel/src/mm/frame.c:61-75 | a live block is routed to the zone that issued it iff no zone ahead captures it by wrap-around |
| Frame.SmallFramesRoute | kernel/src/mm/frame.c:61-75 | with no larger frames in the zones ahead every live block is routed to its issuer |
| Frame.CapturedBreaks | kernel/src/mm/frame.c:61-75 | a captured block cannot be returned: it goes to an earlier zone, and the frame computed for it lies past the frames of that zone |
| Frame.CaptureHappens | kernel/src/mm/frame.c:61-95 | registering a 4 KiB frame at the top of memory and then a 1 MiB frame further down is a run in which the first zone's block is captured |
| Frame.BlocksDisjoint | kernel/src/mm/frame.c:29-75 | no byte lies in two live blocks, of the same zone or of different ones |
| Frame.FrameFreeInv | kernel/src/mm/frame.c:61-75 | a free keeps all zones consistent; if nothing stops being live nothing changes |
| Frame.FreeIssued | kernel/src/mm/frame.c:61-75 | returning a live block is in order iff no zone ahead captures it, and then only that block stops being live |
| Frame.AddInv | kernel/src/mm/frame.c:77-95 | registering a zone of any frame size on a new range keeps all zones consistent |
| Frame.RunInv | kernel/src/mm/frame.c:29-95 | every run of registrations, allocations and frees, with any frame sizes, keeps the invariant of all zones |
| FrameAllocator.Frames.FrameAllocate | kernel/src/mm/frame.c:29-42 | the walk over the zone objects allocates in the zone the model chooses, the one `Frame.FrameAllocExact` describes in flag bits, and leaves the others alone |
| FrameAllocator.Frames.FrameRelease | kernel/src/mm/frame.c:61-75 | the walk over the zone objects frees in the zone the model finds and leaves the others alone |
| FrameAllocator.Home | kernel/src/mm/frame.c:67-70 | the walk stops at the first zone whose range and orders admit the block |
| FrameAllocator.Frames.ZoneAdd | kernel/src/mm/frame.c:77-95 | puts a new zone object at the head of the list, or fails and changes nothing iff memory is short, the frame size is 0 or the orders exceed the word size |
| Pipe.NextKeeps | kernel/src/ipc/pipe.c:63-179 | every step of a reader, writer or signal keeps ring size, counters, queue and sleep conditions |
| Pipe.RunInv | kernel/src/ipc/pipe.c:63-179 | every interleaving from an empty pipe keeps them |
| Pipe.RunFifo | kernel/src/ipc/pipe.c:33-171 | bytes taken by all calls together, followed by bytes queued, equal bytes put, and at most 512 are queued; `PipeCalls.RunTold` says what each call gets |
| Pipe.NoLostWakeup | kernel/src/ipc/pipe.c:72-178 | a sleeping reader implies an empty ring, a sleeping writer a full one, never both |
| Pipe.NoDeadlock | kernel/src/ipc/pipe.c:72-178 | with a reader and a writer both in a call, one of them can be resumed |
| Pipe.ResumeProgress | kernel/src/ipc/pipe.c:95-171 | a resumed call moves at least one byte whenever the ring allows it |
| PipeCalls.RunTold | kernel/src/ipc/pipe.c:63-179 | in every run a call in progress remembers, and a finished read returns, exactly the bytes that left the ring while this call ran, in order and at most as many as asked for; a write returns when exactly its source has entered the ring |
| PipeCalls.RunLogged | kernel/src/ipc/pipe.c:63-179 | every run has such a log of what left and entered the ring |
| PipeCalls.RunEffect | kernel/src/ipc/pipe.c:72-178 | in every run a read takes all it may, returns iff it has all or has something while no writer is in a call, and else sleeps; a write fills the ring and returns iff all is queued; each wakes everybody or nobody as the other calls demand |
| PipeRing.WriteAppends | kernel/src/ipc/pipe.c:158-171 | writing a contiguous piece that stays clear of the read position appends it to the queue read off the two indices |
| PipeRing.PipeInode.TakePiece | kernel/src/ipc/pipe.c:95-105 | one inner iteration takes a non-empty contiguous piece from the front of the queue |
| PipeRing.PipeInode.PutPiece | kernel/src/ipc/pipe.c:158-171 | one inner iteration appends a non-empty contiguous piece to the queue |
| PipeRing.PipeInode.Read | kernel/src/ipc/pipe.c:63-114 | the two-index ring performs exactly the model's read up to blocking or return |
| PipeRing.PipeInode.Write | kernel/src/ipc/pipe.c:122-179 | the two-index ring performs exactly the model's write up to blocking or return |
| PipeRing.PipeInode.ResumeRead | kernel/src/ipc/pipe.c:83-113 | the same for a read that was woken |
| PipeRing.PipeInode.ResumeWrite | kernel/src/ipc/pipe.c:142-178 | the same for a write that was woken |
| PipeOps.PipeCallers.Read | kernel/src/ipc/pipe.c:63-114 | a read on the two-index ring is the model's step, with its bytes recorded in its own call |
| PipeOps.PipeCallers.Write | kernel/src/ipc/pipe.c:122-179 | the same for a write |
| PipeOps.PipeCallers.Resume | kernel/src/ipc/pipe.c:83-178 | a woken call goes on in the ring with the bytes it has moved before it slept |
| VfsTheory.UpThenDown | kernel/src/fs/vfs.c:364-406 | going up all mounts and then down ends where going down from the start ends |
| VfsTheory.SplitJoin | kernel/src/fs/vfs.c:192-214 | cutting a path made of names gives the names back |
| VfsTheory.RoundTrip | kernel/src/fs/vfs.c:410-481 | resolving the path of an entry that no mount hides gives the top of what is mounted on it, which is the entry iff it is no mount point, and creates nothing |
| VfsResolve.ResolvesExactly | kernel/src/fs/vfs.c:410-444 | every path, as pieces between slashes, resolves to what these lead to in the state left behind: `.` stays, `..` goes to the parent from the topmost mount point, a name goes to the entry below all mounts; it fails iff a piece leads nowhere; only entries on the way are read in, as the file system has them |
| VfsResolve.SplitExactly | kernel/src/fs/vfs.c:192-214 | a path is cut into exactly its pieces between slashes, long ones shortened to 64 characters |
| VfsResolve.ParentPath | kernel/src/fs/vfs.c:427-430 | `..` after the path of a directory that no mount hides resolves to what the path without its last name does |
| VfsResolve.ParentOfRoot | kernel/src/fs/vfs.c:427-430 | at the root of everything `..` resolves to the root |
| VfsResolve.NamesResolve | kernel/src/fs/vfs.c:410-444 | a path of plain names resolves to an entry that was there before iff it was shown at these names before |
| VfsTheory.BottomIs | kernel/src/fs/vfs.c:386-406 | following mounts down ends at the entry that a chain of mounts leads to and on which nothing is mounted |
| VfsTheory.TopIs | kernel/src/fs/vfs.c:364-384 | following mounts up ends at the entry from which a chain of mounts leads and which is mounted nowhere |
| VfsResolve.RoundTripExactly | kernel/src/fs/vfs.c:410-481 | the path of any entry resolves to it iff something seen at that path from the root, mounts followed, leads down to it |
| VfsResolve.TreesRoundTrip | kernel/src/fs/vfs.c:410-481 | where whole trees are mounted, that is iff no directory on the way is hidden by a mount and the entry is no mount point |
| VfsResolve.HiddenFound | kernel/src/fs/vfs.c:349-444 | a hidden entry that is mounted in a second place of the same path is found again by its path |
| VfsTheory.PathExists | kernel/src/fs/vfs.c:447-481 | every entry has a path |
| VfsTheory.IsPathUnique | kernel/src/fs/vfs.c:447-481 | an entry has one path only |
| VfsTheory.MountExactly | kernel/src/fs/vfs.c:349-361 | a mount keeps the forest well-formed iff its point is a directory without a mount, its root is not mounted yet and the point does not lie under the root |
| VfsResolve.MountLeads | kernel/src/fs/vfs.c:349-361 | after a mount what led down to its point leads to where its root leads, and nothing else changes |
| VfsTheory.CreateKeeps | kernel/src/fs/vfs.c:218-235 | a new entry under a directory keeps the forest well-formed |
| VfsTheory.NamedKeeps | kernel/src/fs/vfs.c:410-444 | resolving any path keeps the forest well-formed and never ends on a mount point |
| VfsTheory.RunKeeps | kernel/src/fs/vfs.c:218-444 | every run of resolutions, mounts and new trees keeps the forest well-formed |
| VfsTheory.RunRoundTrip | kernel/src/fs/vfs.c:410-481 | in every reachable state every visible entry is found again by its own path |
| VfsOps.Kernel.NextElem | kernel/src/fs/vfs.c:192-214 | scanning by position finds the model's next element and rest |
| VfsOps.Kernel.GoUp | kernel/src/fs/vfs.c:364-384 | the restarting scan of the mount list ends, at the top of the mount chain |
| VfsOps.Kernel.GoDown | kernel/src/fs/vfs.c:386-406 | the restarting scan ends, at the bottom of the mount chain |
| VfsOps.Kernel.Lookup | kernel/src/fs/vfs.c:256-272 | finds the first child of the name |
| VfsOps.Kernel.Get | kernel/src/fs/vfs.c:275-297 | returns the cached child or creates it from the file system |
| VfsOps.Kernel.DoMountOn | kernel/src/fs/vfs.c:349-361 | puts the mount first in the table and marks the point, or fails and changes nothing without memory |
| VfsOps.Kernel.Resolve | kernel/src/fs/vfs.c:410-444 | the element loop computes the model's resolution, `.` and `..` included, which `VfsResolve.ResolvesExactly` describes |
| VfsOps.Kernel.Climb | kernel/src/fs/vfs.c:447-470 | the climb writes the path backwards and gives up iff it does not fit |
| VfsOps.Kernel.PathOf | kernel/src/fs/vfs.c:447-481 | succeeds iff the path is no longer than the buffer, leaves it at the front, and writes the terminator right after it |
| Malloc.FreeKeeps | libc/src/stdlib/malloc.c:62-77 | freeing keeps list order, tiling and non-adjacency and ends exactly one live block, unless a sliver lies below |
| Malloc.SliverBreaks | libc/src/stdlib/malloc.c:62-77 | with a sliver below no reading of the headers is consistent afterwards |
| Malloc.FreeExactly | libc/src/stdlib/malloc.c:62-77 | freeing keeps the heap consistent iff no sliver lies right below |
| Malloc.EvenNoSliver | libc/src/stdlib/malloc.c:97-121 | when all sizes are multiples of a header every free block has room for one |
| Malloc.CarveFresh | libc/src/stdlib/malloc.c:111-121 | what is handed out was free, and every word of it |
| Malloc.CarveKeeps | libc/src/stdlib/malloc.c:111-121 | carving keeps list and tiling and adds exactly one live block of the size; it leaves a free block without room for a header iff four bytes remain |
| Malloc.AddArea | libc/src/stdlib/malloc.c:80-95 | memory from the system joins the tiling as a block that may be freed |
| Malloc.UserStore | libc/src/stdlib/malloc.c:51-129 | a store inside a live block's payload keeps the heap consistent |
| Malloc.NeedExactly | libc/src/stdlib/malloc.c:101-102 | the size computed in 32 bits has room for header and request iff size + 11 stays below 2^32 |
| MallocTheory.FreeNoSliver | libc/src/stdlib/malloc.c:62-77 | freeing, whatever it merges, never leaves a free block without room for a header |
| MallocTheory.ListIsFree | libc/src/stdlib/malloc.c:51-129 | walking from the start of the list visits exactly the free blocks |
| MallocRuns.RunConsistent | libc/src/stdlib/malloc.c:51-129 | every run of requests, frees and stores in which no split leaves four bytes keeps the heap consistent |
| MallocRuns.EvenRunConsistent | libc/src/stdlib/malloc.c:51-129 | every run whose requests, with the header added, and grants are multiples of a header leaves no sliver and keeps the heap consistent |
| MallocRuns.Tiling | libc/src/stdlib/malloc.c:51-129 | in a consistent heap the blocks handed out and those on the list tile exactly the memory from the system, without overlap |
| MallocRuns.Circle | libc/src/stdlib/malloc.c:51-129 | in a consistent heap the list is a circle in address order with one descent, to the static head, and no two free blocks touch |
| MallocRuns.RequestExactly | libc/src/stdlib/malloc.c:51-129 | in a consistent heap, returning what a request handed out keeps the heap consistent iff the split did not leave four bytes |
| MallocRuns.SliverReached | libc/src/stdlib/malloc.c:97-129 | a request for 4084 bytes on an untouched heap leaves four bytes, and returning the block destroys the heap |
| MallocTheory.SearchShrinks | libc/src/stdlib/malloc.c:56-60 | the search of `free` gets closer to its place with every step |
| MallocTheory.LargeEnough | libc/src/stdlib/malloc.c:80-95 | a run of unused words lies inside one free block |
| MallocOps.Allocator.Free | libc/src/stdlib/malloc.c:51-78 | the list walk ends, the block alone stops being live, and no sliver appears |
| MallocOps.Allocator.Place | libc/src/stdlib/malloc.c:56-60 | the search ends at the first block on the list where the loop's tests stop, which is right below the freed block |
| MallocOps.Allocator.MoreCore | libc/src/stdlib/malloc.c:80-95 | adds the new memory to the free list; live blocks are unchanged, a large enough block exists and no sliver appears |
| MallocOps.Allocator.Walk | libc/src/stdlib/malloc.c:106-127 | one round of the list ends and finds the first fit iff a block is large enough |
| MallocOps.Allocator.Allocate | libc/src/stdlib/malloc.c:97-129 | returns null iff more memory is needed and refused; otherwise a fresh live block of the size needed; slivers stay absent iff the split does not leave four bytes |
| SlabTheory.LayoutOk | kernel/src/mm/slab.c:321-388 | every layout holds at least one object, word-aligned, and embedded slabs are one page with the control data free |
| SlabTheory.LayoutExactly | kernel/src/mm/slab.c:321-388 | control data is embedded iff object and link take at most 512 bytes; objects take the fewest words; a slab has as many as fit in the fewest pages for one, less 24 bytes when embedded |
| SlabTheory.PageOfObj | kernel/src/mm/slab.c:44-51 | the page of an embedded object is its slab, and the object stays clear of the control data |
| SlabTheory.AllocKeeps | kernel/src/mm/slab.c:195-290 | allocation fails iff there is no partial slab and no memory; what it hands out was not in use; the invariant is kept |
| SlabTheory.FreeKeeps | kernel/src/mm/slab.c:292-318 | a free takes back exactly the object; with outside control data any other address changes nothing |
| SlabTheory.AllocThenFree | kernel/src/mm/slab.c:258-318 | an object freed right after it was handed out leaves slabs and both lists as they were, in the same order |
| SlabTheory.FreshAt | kernel/src/mm/slab.c:231-253 | a new slab hands out its objects from the last to the first |
| SlabTheory.LiveDisjoint | kernel/src/mm/slab.c:258-318 | objects in use never overlap |
| SlabTheory.LiveClear | kernel/src/mm/slab.c:44-51 | objects in use stay clear of every slab's control data and name their slab |
| SlabTheory.InuseCounts | kernel/src/mm/slab.c:258-318 | a slab's use count is the number of its objects in use |
| SlabTheory.RunKeeps | kernel/src/mm/slab.c:195-388 | every run of a new cache keeps list membership, counts and the hash table exact |
| SlabOps.SlabCache.SpaceAlloc | kernel/src/mm/slab.c:195-255 | the chaining loop builds the new slab's list of free objects |
| SlabOps.SlabCache.HashGet | kernel/src/mm/slab.c:110-140 | the bucket walk finds and unlinks the first link of the address |
| SlabOps.SlabCache.HashLink | kernel/src/mm/slab.c:92-108 | links the control data in front of its bucket |
| SlabOps.SlabCache.CacheAlloc | kernel/src/mm/slab.c:258-290 | computes the model's allocation in place |
| SlabOps.SlabCache.CacheFree | kernel/src/mm/slab.c:292-318 | computes the model's free in place |
| SlabOps.AlwaysCan | kernel/src/mm/slab.c:258-318 | in every consistent state an allocation, and a free of an object in use, can go ahead |
| Htable.Chains.constructor | kernel/src/htable.h:63-66 | every bucket of a new table is empty |
| Htable.Chains.Insert | kernel/src/htable.h:68-79 | the node heads its bucket's chain with correct forward and back pointers; other buckets are unchanged |
| Htable.Chains.Delete | kernel/src/htable.h:81-89 | the chain closes over the node through its back pointer; other buckets are unchanged |
| Htable.Chains.TakeOut | kernel/src/mm/slab.c:110-140 | walking the chain unlinks the node of the address exactly as the sequence model of the bucket does |
| Kmalloc.FnzbIs | kernel/src/util.h:40-66 | the halving search is the floor of the logarithm for every 32-bit word |
| Kmalloc.FnzbLog2 | kernel/src/util.h:40-66 | on every 32-bit word the search agrees with the logarithm that the buddy system's orders are defined by |
| Kmalloc.NextPow2Is | kernel/src/kmalloc.c:56-68 | bit smearing gives the least power of two that is large enough, and 0 above 2^31 |
| Kmalloc.ClassIs | kernel/src/kmalloc.c:87-109 | the class is the least one whose objects are large enough |
| Kmalloc.LargeWraps | kernel/src/kmalloc.c:87-97 | above 2^31 bytes the choice wraps around to the smallest class |
| Kmalloc.ServedExactly | kernel/src/kmalloc.c:87-124 | the class is in range and large enough iff the size is at most 4 MiB |
| KmallocOps.RoundUp | kernel/src/kmalloc.c:56-68 | the straight-line smearing computes the model |
| KmallocOps.HighestBit | kernel/src/util.h:40-66 | the step-by-step search computes the model and the floor of the logarithm |
| KmallocOps.Allocator.constructor | kernel/src/kmalloc.c:113-124 | nineteen caches of 16 << i bytes |
| KmallocOps.Allocator.Choose | kernel/src/kmalloc.c:87-109 | up to 4 MiB the chosen cache exists and is the least large enough |
| Fds.CloseFrees | kernel/src/sys/sys_close.c:28-50 | a file disappears iff the slot closed was its only one |
| Fds.CloseClears | kernel/src/sys/sys_close.c:28-50 | fails iff the descriptor is not open; otherwise exactly this slot is cleared |
| Fds.OpenTakes | kernel/src/sys/sys_open.c:50-70 | returns the lowest free slot, which then holds the file with count 1 and the close-on-exec mark iff asked for, and changes no other slot; EMFILE iff no slot is free, ENOMEM iff only the file is missing, both changing nothing |
| Fds.DupShares | kernel/src/sys/sys_dup.c:25-43 | succeeds iff the descriptor is open and a slot is free; the lowest free slot then shares the file and keeps the close-on-exec mark, nothing else changes |
| Fds.Dup2Shares | kernel/src/sys/sys_dup2.c:25-47 | succeeds iff both numbers are in range and the first is open; another second one then shares its file and keeps the close-on-exec mark, nothing else changes |
| Fds.DupExec | kernel/src/sys/sys_dup.c:33-36 | after an exec the descriptor made by `dup` is open iff the original was not marked close-on-exec |
| Fds.Dup2Exec | kernel/src/sys/sys_dup2.c:43-45 | after an exec the descriptor made by `dup2` is open iff the original was not marked close-on-exec |
| Fds.MarkIsKept | kernel/src/sys/sys_execve.c:222-231 | opening with close-on-exec, `dup2` and exec is a run after which both descriptors are closed |
| Fds.RunTidy | kernel/src/sys/sys_open.c:64-68 | in every run the flag that `dup` and `dup2` clear is never set, and free slots carry no mark that `pipe` could inherit |
| Fds.PipeTakes | kernel/src/ipc/pipe.c:204-251 | succeeds iff two slots are free and there is memory, and puts the files in the two lowest, whose flags stay; otherwise nothing changes |
| Fds.Dup2Keeps | kernel/src/sys/sys_dup2.c:25-47 | `dup2` keeps counts equal to slots, also when it closes the target |
| Fds.PipeKeeps | kernel/src/ipc/pipe.c:204-251 | `pipe` keeps counts equal to slots |
| Fds.ForkKeeps | kernel/src/proc/task.c:67-74 | after a fork the child has the parent's open descriptors with their close-on-exec marks, others are unchanged, and counts equal slots |
| Fds.CloseFromKeeps | kernel/src/sys/sys_exit.c:123-131 | closing all slots on exit, or those marked close-on-exec on exec (kernel/src/sys/sys_execve.c:222-231), closes exactly those and keeps counts equal to slots |
| Fds.RunCounts | kernel/src/sys/sys_dup.c:25-43 | in every run of any number of tasks each file's count is the number of its slots, open files have one, no slot points at a freed file |
| FdOps.Files.SysClose | kernel/src/sys/sys_close.c:28-50 | computes the model's close, or EBADF |
| FdOps.Files.SysOpen | kernel/src/sys/sys_open.c:50-70 | computes the model's open, whose result `Fds.OpenTakes` gives: the lowest free slot, or EMFILE, or ENOMEM |
| FdOps.Files.SysDup | kernel/src/sys/sys_dup.c:25-43 | copies the slot into the first free one and clears the flag the source clears, or EBADF, or EMFILE |
| FdOps.Files.SysDup2 | kernel/src/sys/sys_dup2.c:25-47 | copies the slot into the given one, closing what it held, and clears the flag the source clears, or EBADF |
| FdOps.Files.PipeCreate | kernel/src/ipc/pipe.c:204-251 | puts two new files in the first two free slots, or EMFILE, or -1 without memory |
| FdOps.Files.TaskInit | kernel/src/proc/task.c:67-74 | the copy loop duplicates every open slot of the parent |
| FdOps.Files.CloseAll | kernel/src/sys/sys_exit.c:123-131 | the close loop of exit, and that of exec (kernel/src/sys/sys_execve.c:222-231), computes the model |
| SchedTheory.ScheduleKeeps | kernel/src/proc/scheduler.c:88-119 | after every call a runnable task is current, the idle task if there is no other |
| SchedTheory.RunInv | kernel/src/proc/scheduler.c:88-119 | every run of waits, wake-ups, signals, timers, forks, exits and reaps keeps ring, queues and states consistent |
| SchedTheory.RunQueues | kernel/src/sync/cond.c:30-55 | a task is on at most one wait queue, once, and then sleeps |
| SchedTheory.ZombieStays | kernel/src/sys/sys_exit.c:142-150 | a zombie stays one until reaped and is never current again |
| SchedTheory.ScheduleNears | kernel/src/proc/scheduler.c:88-119 | every call selects a runnable task or brings it strictly closer |
| SchedTheory.StepNears | kernel/src/proc/task.c:79-90 | no step takes a runnable task farther away, and entering the scheduler brings it closer |
| SchedTheory.BoundedWaiting | kernel/src/proc/scheduler.c:88-119 | while a runnable task waits the scheduler is entered fewer times than the task was places behind |
| SchedTheory.ArrivalOrder | kernel/src/sync/cond.c:30-55 | queued tasks keep their order of arrival through every step |
| SchedTheory.FirstComeFirstWoken | kernel/src/sync/cond.c:30-49 | a new waiter comes last; a signal wakes the first and only it |
| SchedTheory.BroadcastKeeps | kernel/src/sync/cond.c:51-55 | a broadcast empties its queue and makes all its tasks runnable |
| SchedTheory.TaskSignalKeeps | kernel/src/proc/task.c:29-42 | a signal keeps ring, queues and states consistent and touches nobody who is not asleep; `SchedEffects.SignalEffect` says whom it wakes |
| SchedEffects.SignalEffect | kernel/src/proc/task.c:29-42 | an unmasked signal makes a sleeping task runnable and takes it off its queue, whose other tasks keep their order; a masked one changes nothing; no other task or queue changes |
| SchedEffects.StepEffect | kernel/src/proc/scheduler.c:88-119 | every step of every kind has exactly its effect: who wakes, sleeps, joins or leaves a queue, becomes current, and that all others stay as they are |
| SchedEffects.ExitWakesParent | kernel/src/sys/sys_exit.c:139-150 | an exit leaves a parent that waits for its children runnable |
| SchedOps.Kernel.Scheduler | kernel/src/proc/scheduler.c:88-119 | the ring scan computes the model's choice |
| SchedOps.Kernel.Wait | kernel/src/sync/cond.c:30-38 | enqueues, sleeps and schedules |
| SchedOps.Kernel.Signal | kernel/src/sync/cond.c:40-49 | wakes the first waiter, if any |
| SchedOps.Kernel.BroadcastAll | kernel/src/sync/cond.c:51-55 | the loop ends and wakes all waiters |
| SchedOps.Kernel.Deliver | kernel/src/proc/task.c:29-42 | computes the model's signal delivery, whose effect `SchedEffects.SignalEffect` gives |
| SchedOps.Kernel.ExitTask | kernel/src/sys/sys_exit.c:139-150 | signals the parent, wakes its waiters, turns into a zombie and schedules |
| SchedOps.Kernel.AddTask | kernel/src/proc/task.c:79-90 | puts the new task just before the current one, last in turn |
| Timer.UpdateIs | kernel/src/timer.c:70-82 | a tick fires exactly the expired events in order and leaves the later ones with the requeued ones inserted |
| Timer.AddOrdered | kernel/src/timer.c:34-47 | inserting the newest event keeps expiry order with ties in order of insertion |
| Timer.AddContents | kernel/src/timer.c:34-47 | insertion adds exactly the event |
| Timer.OrderedUnique | kernel/src/timer.c:34-47 | the order leaves no choice: the contents determine the queue |
| Timer.RunKeeps | kernel/src/timer.c:34-82 | every run of insertions, cancellations and ticks keeps the stable order |
| Timer.RunFires | kernel/src/timer.c:70-82 | in every run a tick fires exactly the expired events, once each, by expiry and insertion, and all that is queued afterwards, requeued events included, expires later |
| Timer.CancelledNeverFires | kernel/src/timer.c:34-82 | an event cancelled in any run is not queued, and so does not fire, in any continuation |
| TimerOps.TimerQueue.EventAdd | kernel/src/timer.c:34-47 | the insertion loop finds the place before the first later event |
| TimerOps.TimerQueue.EventDel | kernel/src/timer.c:49-52 | the queue loses exactly the event, and an ordered queue stays ordered and no longer holds it |
| TimerOps.TimerQueue.Tick | kernel/src/timer.c:70-82 | the expiry loop ends and does what the model does, with callbacks that queue their event again |
| List.RingTurns | kernel/src/list.h:26-33 | a circular list has no first link |
| List.Link.constructor | kernel/src/list.h:41-45 | a new link is a ring of one |
| List.InsertBefore | kernel/src/list.h:56-63 | the new link joins the ring at its end |
| List.InsertAfter | kernel/src/list.h:47-54 | the new link joins the ring right after the first |
| List.Delete | kernel/src/list.h:71-77 | the rest of the ring closes up and the link is alone |
| List.Merge | kernel/src/list.h:84-93 | two rings become one, and on two links of one ring the same steps cut it in two |
| List.InsertAt | kernel/src/list.h:56-63 | inserting before element i of a list puts the new one at place i |
| List.Remove | kernel/src/list.h:71-77 | deleting element i leaves the others in order |
| List.IsEmpty | kernel/src/list.h:101-101 | the test is true iff the list has no elements |
| Ramdisk.ReadBlocksIs | kernel/src/driver/ramdisk.c:87-95 | the loop copies up to the end of the whole blocks |
| Ramdisk.ReadOutside | kernel/src/driver/ramdisk.c:80-81 | a read that starts past the whole blocks copies nothing and returns the size of the short block, or an error |
| Ramdisk.FlatExactly | kernel/src/driver/ramdisk.c:67-98 | a read is a slice of the flat disk iff it avoids a short last block and starts at most one block past the end |
| RamdiskOps.Disk.LoadBlock | kernel/src/driver/ramdisk.c:35-56 | loads a block, or the short last one, or fails |
| RamdiskOps.Disk.ReadInto | kernel/src/driver/ramdisk.c:67-98 | the block loop copies the model's bytes to the caller's buffer and nothing else |
| Ext2.LookupIs | kernel/src/fs/ext2/ext2.c:134-179 | inside the mapped blocks the lookup follows direct and indirect pointers |
| Ext2.PanicExactly | kernel/src/fs/ext2/ext2.c:160-169 | the kernel panics iff the byte lies past the first 268 blocks |
| Ext2.ReadExactly | kernel/src/fs/ext2/ext2.c:185-219 | a read copies exactly the file's bytes from offset to offset plus count iff that sum does not wrap or the offset is past the end |
| Ext2.RamdiskServes | kernel/src/driver/ramdisk.c:67-98 | the memory disk gives every part of every block on it as stored |
| Ext2.RamdiskFile | kernel/src/fs/ext2/ext2.c:185-219 | through the memory disk every read of a mapped file returns the bytes its pointers define |
| Ext2Ops.Ext2Super.FindBlock | kernel/src/fs/ext2/ext2.c:134-179 | computes the model's lookup, reading the indirect block into a buffer |
| Ext2Ops.Ext2Super.ReadInto | kernel/src/fs/ext2/ext2.c:185-219 | the block loop fills the caller's buffer as the model does |
| Exec.PushAllLays | kernel/src/sys/sys_execve.c:44-59 | strings lie below the top with a closed table of their user addresses, the table below the strings, and nothing else changes |
| Exec.StringBack | kernel/src/sys/sys_execve.c:34-42 | a pushed string is read back up to its terminator |
| Exec.RoundTrip | kernel/src/sys/sys_execve.c:84-99 | whenever tables and strings fit, decoding the stack gives back the count, the arguments and the environment |
| ExecOps.ArgStack.PushString | kernel/src/sys/sys_execve.c:34-42 | copies the string with its terminator below the stack pointer |
| ExecOps.ArgStack.PushStrings | kernel/src/sys/sys_execve.c:44-59 | the backward loop computes the model |
| ExecOps.ArgStack.Init | kernel/src/sys/sys_execve.c:84-99 | fills the buffer as the model does; the count read back is the one stored |
| Itoa.UimaxtoaIs | libc/src/stdio/vsnprintf.c:290-333 | the full text denotes the number in every base; a smaller size gives exactly its last digits |
| Itoa.ImaxtoaIs | libc/src/stdio/vsnprintf.c:338-355 | a minus sign iff negative, then digits that denote the absolute value with letters in the case asked for; a limit keeps the sign and the last digits |
| Itoa.WrittenCase | libc/src/stdio/vsnprintf.c:318-330 | all letters are in the case asked for |
| Itoa.CountUpper | libc/src/stdio/vsnprintf.c:298-299 | that many digits are enough for the number |
| Itoa.CountLower | libc/src/stdio/vsnprintf.c:298-299 | one digit fewer is not enough |
| Itoa.WrittenValue | libc/src/stdio/vsnprintf.c:318-330 | the last k digits denote the number modulo the k-th power of the base |
| Itoa.RoundTrip | libc/src/stdlib/atol.c:25-49 | every long survives printing in base 10 and reading, with 32-bit wrap-around |
| Itoa.RoundTripDefined | libc/src/stdlib/atol.c:25-49 | reading back a printed long leaves the range of a long iff it is the smallest one |
| Itoa.AtolIs | libc/src/stdlib/atol.c:25-49 | every text is read as the number its sign and digits denote, modulo 2^32 |
| Itoa.AtolReads | libc/src/stdlib/atol.c:25-49 | any text of blanks, a sign or none, decimal digits and a rest is read as sign and digits say, modulo 2^32 |
| Itoa.ReadsAll | libc/src/stdlib/atol.c:25-49 | every text is of that form |
| ItoaOps.CountDigits | libc/src/stdio/vsnprintf.c:298-299 | the division loop counts the digits |
| ItoaOps.WriteDigits | libc/src/stdio/vsnprintf.c:318-330 | the backward loop fills exactly the given places |
| ItoaOps.PrintUnsigned | libc/src/stdio/vsnprintf.c:290-333 | writes the model's text and returns its length; without a buffer it returns the length of the whole text |
| ItoaOps.PrintSigned | libc/src/stdio/vsnprintf.c:338-355 | writes sign and digits and returns their number; without a buffer it returns the length of the whole text |
| ItoaOps.SkipBlanks | libc/src/stdlib/atol.c:31-32 | the loop stops at the first character that is not white space |
| ItoaOps.ReadDigits | libc/src/stdlib/atol.c:41-44 | the digit loop with two shifts computes the model's value |
| ItoaOps.Parse | libc/src/stdlib/atol.c:25-49 | returns the number that the text denotes modulo 2^32 |

## Left out

- Pipe.NextKeeps: end-of-file and broken-pipe returns are left out, because the inode count they test never drops to 1 after `pipe_create`.
- Pipe.RunFifo: does not claim that a write of up to PIPE_BUF bytes is one piece, because a blocked writer's bytes can interleave with others.
- Frame.RunInv: zones are taken to be disjoint, with frame counts whose maps fit, and not to start at address 0, where a block's address would read as failure.
- Malloc.CarveKeeps: sbrk results are word-aligned and above the static list head; sizes are unbounded here, and when they wrap is `Malloc.NeedExactly`.
- VfsTheory.NamedKeeps: path elements of 64 characters or more are excluded, because the copied name then has no terminator.
- VfsTheory.RunKeeps: the same for the paths resolved in a run.
- VfsOps.Kernel.PathOf: a buffer size of zero is excluded, because the source then writes before the buffer.
- Exec.RoundTrip: what `stack_init` does when tables and strings do not fit is not modelled, because it writes outside its buffer.
- Ext2.ReadExactly: block sizes above 2^28, where twelve blocks no longer fit in 32 bits, and files of 2 GiB or more are excluded.
- Ramdisk.FlatExactly: disks that end less than a block below the top of the 32-bit address space are excluded.
- SlabTheory.RunKeeps: hashing is any map into 32 buckets, and with embedded control data only objects in use are freed; buckets are sequences, which `Htable` refines to linked nodes.
- Free lists, wait queues, the task ring, mount and zone lists are sequences in the models; `List` shows that the linked operations act on sequences this way.
- BuddyTheory.FreeExact: only blocks that are live, with their own order, are freed; the source does not check this.
- Zone.FreeInv: the address lies in the zone, and a live head is freed with its own order, because the source indexes its frames unchecked.
- Zone.InitInv: the maps fit; when they do not is `BuddyTheory.MapFitsExactly`.
- Zone.ZoneSt.constructor: the frame size is not zero; the zero case is in `FrameAllocator.Frames.ZoneAdd`.
- FrameAllocator.Frames.FrameRelease: the block can be taken by the zone found for it, as for `Frame.FrameFreeInv`.
- Frame.FrameFreeInv: the same for the zone that the address is routed to.
- MallocOps.Allocator.Free: only live blocks without a sliver below are freed; the source does not check for null, and what a sliver does is `MallocRuns.RequestExactly`.
- MallocOps.Allocator.Allocate: memory from sbrk is new, word-aligned and above the static list head; a size that wraps around with its header is only covered by `Malloc.NeedExactly`.
- SlabTheory.FreeKeeps: with embedded control data only objects in use are freed, because the source finds the slab from the address alone.
- SlabTheory.LayoutOk: objects are aligned to a word; larger alignment arguments are not modelled, because no caller passes one.
- SlabTheory.LayoutExactly: caches created with `SLAB_OPTIMIZE`, which may take more pages, are not modelled.
- SlabOps.SlabCache.SpaceAlloc: control data is a value, so its own allocation from other caches and their failure are not modelled.
- SlabOps.SlabCache.HashLink: failure to allocate the table is not modelled, because the source does not roll back.
- SlabOps.SlabCache.CacheAlloc: as for `SlabOps.SlabCache.HashLink`.
- KmallocOps.Allocator.constructor: only the object sizes are built; the caches themselves are `SlabOps.SlabCache`.
- Timer.RunFires: callbacks touch the queue only by queueing their own event for a later tick.
- Timer.RunKeeps: ticks and expiry times are unbounded, because after a wrap of the 32-bit tick counter expiries no longer compare in order.
- VfsResolve.ResolvesExactly: path elements of 64 characters or more are excluded, as for `VfsTheory.NamedKeeps`.
- VfsOps.Kernel.Resolve: path elements of 64 characters or more are excluded, as for `VfsTheory.NamedKeeps`.
- ExecOps.ArgStack.Init: tables and strings fit, as for `Exec.RoundTrip`.
- Parent, child and sibling links of tasks, and the search loops of `sys_waitpid` over them.
- Reference counts of directory entries and inodes, and `dput`.
- `timer_event_mod` on an event that is still queued, and the time-slice counter in `timer_update`.
- `SLAB_OPTIMIZE`, `slab_cache_deinit`, `ksbrk` before initialisation, and out-of-memory rollback in `buddy_init`, `slab_cache_alloc`, `task_create` and `sys_execve`.
- Names, flags and access modes of open files; directory reading and writing; everything in ext2 but reading file data.
- `realloc` and `calloc`, which only call `malloc` and copy.
- Widths, flags and the remaining conversions of `vsnprintf`.
- Paging, context switch, interrupt and device drivers, tty, devfs dispatch, ELF loading, shell and test programs.
