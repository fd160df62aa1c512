# JOS, modelled and proved in Dafny

JOS is a small teaching kernel with user-level servers and the lwIP network stack. This project models the parts of
it in which a property runs through several functions and shared, mutable state, and proves that property for every
input, every run or every interleaving. `dafny verify dfyconfig.toml` checks everything.

| files | part of JOS |
|---|---|
| `HeapLayout`, `Heap` | the lwIP heap: a doubly linked block list kept inside the heap memory |
| `PbufChain`, `CopyWalk`, `Pbuf` | lwIP packet buffers: reference-counted chains with cumulative lengths |
| `Cow` | user-level copy-on-write fork as an interleaved protocol |
| `PageTables`, `Pmap`, `Syscalls` | physical pages, reference counts, two-level page tables, `env_free`, the page system calls |
| `FsMap`, `Fs`, `Bitmap` | the file server: block ownership, the walk through direct and indirect blocks, reading and writing |
| `BlockCache` | the demand-faulted write-back block cache, on which the server works |
| `Format`, `Image` | the disk formatter, whose image is a start state of the server, and the restart of a server after a sync |
| `PipeClose`, `PipeFifo` | pipes: the reference-count test for a closed end while others open, close and fork, and the ring buffer |
| `Ring`, `NicTx`, `NicRx` | the e1000 descriptor rings, with the hardware as the second party |
| `ArgPage` | the argument page that `spawn` builds |
| `Options`, `Words` | the option type, the outcome of calls that may panic, and 32-bit words in bytes |

How it is built:

- Code that updates memory in place is a class or a method on arrays: the heap is an array of cells holding the
  `struct mem` headers, pages and tables are maps from addresses that methods update, the bitmap and the argument page
  are arrays. Each method is proved against a value-level description (`HeapLayout`, `PbufChain`, `PageTables`,
  `FsMap`), and the lemmas there say what the description means.
- Concurrent protocols are state machines whose steps are the system calls, stores, register accesses and hardware
  actions of the source. Their invariants are kept by every step, and the results speak about all runs.
- Addresses and block numbers are integers. `NULL` is 0 for pbufs and -1 for page numbers. 32-bit, 16-bit and 8-bit
  wrap-around is written out where the code depends on it: `LWIP_MEM_ALIGN_SIZE`, `tot_len`, the `u8_t` counter of
  `pbuf_free`, the little-endian words of index blocks and of the argument page.
- Disk blocks are bytes. The pointers of files are where the source keeps them, in `struct File` and in the words of
  index blocks, and free blocks are the bits of the bitmap; the map from file blocks to disk blocks is ghost. The
  server loads and stores blocks through the block cache.
- `LWIP_NOASSERT` is not defined, so `LWIP_ASSERT` and `LWIP_ERROR` panic when their test fails. A call that can fail
  such a test has the outcome `Panicked` with its exact condition.

Properties that are false of the code, with the exact condition under which they hold:

- Rounding a heap request covers it if and only if the request is at most 2^32 - 4 (`HeapLayout.RoundingCovers`), so in
  every run a block is as large as it was asked to be if and only if that was at most 2^32 - 4 (`HeapLayout.RunKeeps`).
- `sys_page_alloc` returns or keeps track of every page if and only if it is not called, with good arguments and free
  memory, for an environment that does not exist (`Syscalls.SysPageAlloc`; `Syscalls.BadEnvLeaks` is such a call).
- The root directory that `finishdir` writes owns its block if and only if there is at least one file
  (`Format.RootFits`; `Format.MakeImage` without files makes the image that no naming of blocks makes sound).
- The totals after `pbuf_cat` are exact if and only if the sum is below 65536 (`Pbuf.Bufs.Cat`), and `pbuf_dechain`
  undoes `pbuf_chain` under the same condition, because it panics otherwise (`Pbuf.Bufs.ChainThenDechain`).
- `pbuf_dechain` tells whether the rest of the chain is gone if and only if the number of freed pbufs is not a
  positive multiple of 256 (`Pbuf.CountTellsAll`; `Pbuf.CountMissesAll` is a chain of 256).
- `pbuf_copy` to a target that is large enough panics on some chains that end in empty pbufs (`CopyWalk.StopsOnEmpty` is
  one); `CopyWalk.Stopped` is the exact condition in their lengths (`Pbuf.Bufs.Copy`), and it never holds without empty
  pbufs (`Pbuf.NoEmptyNoStop`).
- `file_get_block` is to return -E_NO_DISK when it cannot get a block on a full disk. It does if and only if no block is
  free and the block it needs first is an index block, and panics in `diskaddr` otherwise (`Fs.NoDiskPromise`;
  `Fs.FullDiskPanics` is the first block of an empty file). `file_read` and `file_write` inherit this, with one exact
  condition for each way they end (`FsMap.TransferFate`).
- `_pipeisclosed` can say "closed" of an open end while another environment is in `fork` or `spawn`, which map the
  descriptor pages before the pipe pages: `PipeClose.OrderMatters` is such a run. While no descriptor is being opened or
  closed, "closed" is right if and only if no descriptor is mapped without its pipe page
  (`PipeClose.ClosedMeansClosed`), which is so between forks (`PipeClose.ClosedBetweenForks`).
- `duppage` needs its second mapping even for pages that are copy-on-write already, which answers the exercise in its
  comment (`Cow.RemarkNeeded`), and a page it found read-only must not become writable before it is mapped
  (`Cow.StillnessNeeded`).

Where code and comments disagree the model follows the code: `pgfault` accepts a write fault on any present page,
and `ram_end->prev` is left stale by some heap paths.

## Model

| member | source | states |
|---|---|---|
| `HeapLayout.FollowMeetsAll` | jos/net/lwip/core/mem.c:221-254 | following `next` from offset 0 meets every block header and ends at the end marker, so the blocks tile the heap |
| `HeapLayout.Covering` | jos/net/lwip/core/mem.c:259-286 | every byte of the heap belongs to a block |
| `HeapLayout.AllFreeIsInitial` | jos/net/lwip/core/mem.c:221-286 | a well-formed heap with nothing handed out is the single free block that `mem_init` made |
| `HeapLayout.RoundingCovers` | jos/net/lwip/core/mem.c:493-500 | the aligned, minimum-sized request covers the request if and only if aligning does not wrap |
| `HeapLayout.InsertKeeps` | jos/net/lwip/core/mem.c:537-560 | splitting a block keeps tiling, back links and the absence of adjacent free blocks |
| `HeapLayout.TakeKeeps` | jos/net/lwip/core/mem.c:518-575 | handing out any block that fits keeps the list well formed, split or not |
| `HeapLayout.TakeLowest` | jos/net/lwip/core/mem.c:574-583 | no free block lies below the old `lfree` afterwards, and the hint is still right unless its own block was taken |
| `HeapLayout.MergeCoalesces` | jos/net/lwip/core/mem.c:221-254 | joining a free block to its neighbour repairs the one place where two free blocks were adjacent |
| `HeapLayout.PlugForwardKeeps` | jos/net/lwip/core/mem.c:231-242 | after the forward half of `plug_holes` the successor is in use or the end |
| `HeapLayout.PlugBackwardKeeps` | jos/net/lwip/core/mem.c:244-253 | after the backward half the whole list is well formed |
| `HeapLayout.ReleaseKeeps` | jos/net/lwip/core/mem.c:294-340 | freeing a block keeps the list well formed and coalesced, and removes exactly that block from those handed out |
| `HeapLayout.ShrinkKeeps` | jos/net/lwip/core/mem.c:354-468 | shrinking in place keeps the list well formed, whether the tail joins a free successor or becomes a block |
| `HeapLayout.UnuseLowest` | jos/net/lwip/core/mem.c:325-330 | after a free, the lower of the block and the old hint is the lowest free block |
| `HeapLayout.MoveLowest` | jos/net/lwip/core/mem.c:409-433 | when a shrink moves a free header down, the hint moves with it exactly if it pointed there |
| `HeapLayout.InsertLowest` | jos/net/lwip/core/mem.c:435-454 | a block split off by a shrink becomes the hint exactly if it lies below the old one |
| `HeapLayout.LiveDisjoint` | jos/net/lwip/core/mem.c:479-605 | payloads handed out are aligned, inside the heap, at least the minimum size and pairwise disjoint |
| `HeapLayout.PayloadsApart` | jos/net/lwip/core/mem.c:479-605 | no payload byte lies in a header or inside another block |
| `HeapLayout.TakeAddsOne` | jos/net/lwip/core/mem.c:518-595 | allocation adds one block of at least the asked size, less than a minimal block more, and changes no other |
| `HeapLayout.ReleaseDropsOne` | jos/net/lwip/core/mem.c:294-340 | freeing removes that block and changes no other |
| `HeapLayout.ShrinkChangesOne` | jos/net/lwip/core/mem.c:354-468 | shrinking changes the size of that block only, and never below what was asked |
| `HeapLayout.StepServes` | jos/net/lwip/core/mem.c:294-605 | every call keeps each handed-out block between the rounded request made for it and less than a minimal block more |
| `HeapLayout.RunKeeps` | jos/net/lwip/core/mem.c:221-605 | in every run of malloc, free and realloc the list is well formed; whenever everything is freed, in any order, one free block is left; the blocks handed out are those asked for and not freed since, each at least as large as it was last asked to be, precisely unless that was more than 2^32 - 4 |
| `Heap.Mem.constructor` | jos/net/lwip/core/mem.c:259-286 | the memory after `mem_init` holds the initial list and end marker |
| `Heap.Mem.FindFit` | jos/net/lwip/core/mem.c:518-595 | the scan from `lfree` that stops early finds the lowest block that fits, and fails only if none anywhere does |
| `Heap.Mem.Malloc` | jos/net/lwip/core/mem.c:479-605 | first fit on the in-memory list, NULL for zero or only if nothing fits, a step of the layout runs, well formed with the right `lfree`, no payload byte changes |
| `Heap.Mem.PlugHoles` | jos/net/lwip/core/mem.c:221-254 | the in-place header updates perform both joins and restore the invariant with the right `lfree` |
| `Heap.Mem.Free` | jos/net/lwip/core/mem.c:294-340 | panics on anything but NULL and a block that is handed out, and on nothing else; otherwise takes the step that the layout runs describe; changes no payload byte |
| `Heap.Mem.Realloc` | jos/net/lwip/core/mem.c:354-468 | NULL exactly for more than the whole heap; panics exactly for a smaller request that exceeds the block or names a pointer outside the heap; else takes the step that the layout runs describe and keeps every byte below the new size and every byte of other blocks |
| `Heap.Mem.Store` | jos/net/lwip/core/mem.c:479-605 | a client writing inside its own payload disturbs neither the list nor any other byte |
| `PbufChain.ChainDistinct` | jos/net/lwip/core/pbuf.c:456-522 | a chain that ends never meets a pbuf twice |
| `PbufChain.DroppedIs` | jos/net/lwip/core/pbuf.c:441-522 | dropping a reference removes exactly the head run of once-referenced pbufs, lowers the next count by one and no other |
| `PbufChain.SurvivingChain` | jos/net/lwip/core/pbuf.c:441-522 | a chain that anyone still refers to loses no pbuf when others are freed |
| `PbufChain.Dealloc` | jos/net/lwip/core/pbuf.c:490-510 | deallocating a pbuf keeps counts equal to links plus handles, its link becoming the caller's handle |
| `PbufChain.LinkTo` | jos/net/lwip/core/pbuf.c:588-594 | turning a handle into a link keeps counts exact |
| `PbufChain.ChainCat` | jos/net/lwip/core/pbuf.c:572-595 | linking the last pbuf of one chain to another gives the concatenated chain |
| `PbufChain.TrimmedTotals` | jos/net/lwip/core/pbuf.c:287-317 | adding the negative change in wrapping 16-bit arithmetic leaves every kept total exact |
| `PbufChain.TrimmedBytes` | jos/net/lwip/core/pbuf.c:291-317 | the kept pbufs carry exactly the first bytes of the old chain |
| `PbufChain.PatchNode` | jos/net/lwip/core/pbuf.c:696-711 | writing inside one pbuf writes at the matching place of the chain's bytes and nowhere else |
| `PbufChain.AddedUndone` | jos/net/lwip/core/pbuf.c:174-181 | freeing a chain of new pbufs restores links and counts exactly |
| `Pbuf.FreeChainIs` | jos/net/lwip/core/pbuf.c:456-522 | the link-by-link effect of giving up a reference is: head run gone, pool pbufs back, first survivor one lower |
| `Pbuf.CountTellsAll` | jos/net/lwip/core/pbuf.c:648-658 | a zero count from `pbuf_free` means the pbuf is still there, if and only if the freed run is no positive multiple of 256 |
| `Pbuf.CountMissesAll` | jos/net/lwip/core/pbuf.c:648-658 | for every unshared chain of 256 pbufs the count is zero although all are gone |
| `Pbuf.AllBack` | jos/net/lwip/core/pbuf.c:499-501 | the pool gets back exactly the pool pbufs freed, each once |
| `Pbuf.Bufs.constructor` | jos/net/lwip/core/memp.c:249-278 | a full pool and no pbuf in use is a valid state |
| `Pbuf.Bufs.Free` | jos/net/lwip/core/pbuf.c:456-522 | panics exactly on NULL; else counts stay exact, precisely the head run is deallocated, and its length modulo 256 is returned |
| `Pbuf.Bufs.AddRef` | jos/net/lwip/core/pbuf.c:550-560 | one more handle and one more count; nothing for NULL |
| `Pbuf.Bufs.Cat` | jos/net/lwip/core/pbuf.c:572-595 | panics exactly if a chain is missing or the last total of the first is not its length; else the chains and their bytes are concatenated, the caller's handle is consumed, totals are exact if and only if the sum fits 16 bits |
| `Pbuf.Bufs.Chain` | jos/net/lwip/core/pbuf.c:613-620 | as `Cat`, with the same panics, and with the caller's handle kept by a raised count |
| `Pbuf.Bufs.Dechain` | jos/net/lwip/core/pbuf.c:630-659 | panics exactly if the first total is not the length of the pbuf plus the next total, as integers; else the head is cut off, one reference to the rest is given up, handles do not change, and the result depends on the run modulo 256 |
| `Pbuf.Bufs.ChainThenDechain` | jos/net/lwip/core/pbuf.c:613-659 | `pbuf_chain` and `pbuf_dechain` on a single pbuf with the right total both return, and then links, totals, counts, pool and handles are as before, if and only if the sum of the lengths is below 65536 |
| `Pbuf.Bufs.Realloc` | jos/net/lwip/core/pbuf.c:268-327 | panics exactly on NULL and on a chain that claims more than `new_len` bytes and has fewer; else the chain keeps exactly its first `new_len` bytes, with exact totals if they were exact, gives up one reference to the rest, never grows |
| `Pbuf.Bufs.CopyPartial` | jos/net/lwip/core/pbuf.c:743-779 | panics exactly if the chain or the buffer is missing; else the buffer gets exactly the requested slice, its length is returned, bytes behind it are untouched |
| `Pbuf.Bufs.Copy` | jos/net/lwip/core/pbuf.c:679-732 | panics if and only if a chain is missing, the target is shorter, or the lengths make one of the tests in the loop fail; else the target starts with the source's bytes and keeps its own behind |
| `Pbuf.NoEmptyNoStop` | jos/net/lwip/core/pbuf.c:691-729 | a copy between chains without empty pbufs, into a target that is large enough, is never stopped |
| `CopyWalk.StepWalks` | jos/net/lwip/core/pbuf.c:691-729 | a round that passes its tests keeps what the lengths say about where the walk is |
| `CopyWalk.CaughtIsStopped` | jos/net/lwip/core/pbuf.c:718-728 | whatever the tests of a round catch satisfies the condition on the lengths |
| `CopyWalk.DoneIsNotStopped` | jos/net/lwip/core/pbuf.c:729-732 | a walk that comes to the end of the source does not satisfy it |
| `CopyWalk.StopsOnEmpty` | jos/net/lwip/core/pbuf.c:718-723 | a source with two empty pbufs behind its 5 bytes is not copied to a target of 5 bytes |
| `Pbuf.Bufs.AllocPool` | jos/net/lwip/core/pbuf.c:113-207 | fails if and only if the pool has too few pbufs, then links, counts and the pool's contents are as before; else a new chain of exactly `length` bytes with exact totals |
| `Cow.NoWriter` | jos/lib/fork.c:16-67 | an unshared page of a running environment is writable through no other entry |
| `Cow.FaultMoveKeeps` | jos/lib/fork.c:55-61 | replacing the faulting entry by the private copy keeps the invariant against every concurrent fork; what the copy holds is `FaultResult` |
| `Cow.MapChildKeeps` | jos/lib/fork.c:80-114 | the child's mapping of each of the three kinds of page keeps the invariant |
| `Cow.RemarkKeeps` | jos/lib/fork.c:102-107 | marking the parent's own entry copy-on-write keeps the invariant |
| `Cow.StepKeeps` | jos/lib/fork.c:16-179 | every step of every environment keeps the invariant |
| `Cow.RunSoleMapping` | jos/lib/fork.c:80-163 | in every run, a writable unshared entry is the only mapping of its page, outside the middle of `duppage` and `pgfault` |
| `Cow.StepView` | jos/lib/fork.c:16-117 | a step changes another environment's unshared page only as a store through the entry of the page `duppage` is copying |
| `Cow.RunIsolation` | jos/lib/fork.c:135-179 | over any run in which it takes no step, the entry and the view of a running environment at an unshared page do not change |
| `Cow.CopyKept` | jos/lib/fork.c:42-61 | once `pgfault` has copied an unshared page, no step of anybody makes the copy and the page differ before the copy replaces it |
| `Cow.OwnStepView` | jos/lib/fork.c:16-117 | an environment's own page faults and forks change nothing that it sees at an unshared page |
| `Cow.RunMemory` | jos/lib/fork.c:16-179 | in every run and from any moment on, what a running environment sees at an unshared page changes only when it stores to that page, allocates it or unmaps it itself |
| `Cow.FaultResult` | jos/lib/fork.c:42-61 | whatever others do in between, the page that `pgfault` puts in place, shared before or not, holds what the environment saw there at the copy |
| `Cow.ForkSnapshot` | jos/lib/fork.c:80-117 | every unshared page of a child under construction, read-only pages included, holds what the parent saw there at some moment of this fork |
| `Cow.ForkCopiesAll` | jos/lib/fork.c:156-162 | when fork's loop ends the child has every page of the parent but the exception stack; a page shared in the parent has the same entry in the child, and a writable shared page of the child the same in the parent; every unshared page holds what the parent saw there at some moment of the fork |
| `Cow.ChildSees` | jos/lib/fork.c:135-179 | whatever anybody does after the child may run, at a page that it has unshared it sees what its parent saw there at some moment of the fork, until it changes the page itself |
| `Cow.RemarkNeeded` | jos/lib/fork.c:69-76 | without the second mapping there is a run in which the parent writes a page the child sees, although the page was copy-on-write at the test |
| `Cow.StillnessNeeded` | jos/lib/fork.c:108-114 | mapping a page found read-only that has become writable breaks the invariant |
| `Cow.AliasedKeeps` | jos/lib/fork.c:80-95 | every step keeps shared pages of a parent and its child under construction on the same entry |
| `PageTables.Unreferenced` | jos/kern/pmap.c:392-432 | a page whose count is zero is no table or directory and no entry names it |
| `PageTables.ExactAddEntry` | jos/kern/pmap.c:603-637 | entering a page and raising its count keeps all counts exact |
| `PageTables.ExactDropEntry` | jos/kern/pmap.c:685-703 | clearing an entry and lowering the count keeps all counts exact |
| `PageTables.ExactAddTable` | jos/kern/pmap.c:467-512 | making a table page keeps counts exact and changes no translation |
| `PageTables.LookupOfAdd` | jos/kern/pmap.c:603-637 | writing one entry changes the translation of that page number in that directory only |
| `PageTables.LookupOfDrop` | jos/kern/pmap.c:685-703 | clearing one entry removes that translation only |
| `PageTables.ExactElsewhere` | jos/kern/pmap.c:1044-1056 | words outside tables and directories matter to no count and no translation |
| `PageTables.TeardownSplits` | jos/kern/env.c:445-493 | each reference to a page either survives or was held by the directory torn down, never both |
| `PageTables.Teardown` | jos/kern/env.c:445-493 | each count drops by exactly the mappings the environment held, other directories translate as before |
| `Pmap.Kernel.PageInit` | jos/kern/pmap.c:317-378 | exactly the pages that are not reserved are on the free list, in a valid state |
| `Pmap.Kernel.PageAlloc` | jos/kern/pmap.c:392-412 | takes the head of the free list, cleared on request, fails only if the list is empty, changes no translation |
| `Pmap.Kernel.PageFree` | jos/kern/pmap.c:418-432 | an unreferenced page goes to the front of the acyclic, duplicate-free list |
| `Pmap.Kernel.PageDecref` | jos/kern/pmap.c:438-443 | the page goes to the list exactly when its last reference goes |
| `Pmap.Kernel.PgdirWalk` | jos/kern/pmap.c:467-512 | finds or makes the table; NULL exactly when it is missing and not to be made or memory is out; no translation changes |
| `Pmap.Kernel.PageLookup` | jos/kern/pmap.c:650-668 | reads the two levels as `check_va2pa` does |
| `Pmap.Kernel.PageRemove` | jos/kern/pmap.c:685-703 | removes exactly one translation, lowers exactly one count, frees the page exactly when it was the last |
| `Pmap.Kernel.PageInsert` | jos/kern/pmap.c:603-637 | sets exactly one translation with exact counts, also when the page is put back at its own address; the words of the page stay; -E_NO_MEM changes nothing and comes exactly when a table is missing and memory is out |
| `Pmap.Kernel.EnvSetupVm` | jos/kern/env.c:174-210 | a new directory translates nothing below UTOP and disturbs no other |
| `Pmap.Kernel.EnvFree` | jos/kern/env.c:445-493 | tears one address space down: counts drop by what it held, pages it held last are free once, other translations stay |
| `Pmap.Kernel.UserStore` | jos/kern/pmap.c:603-637 | stores to a mapped user page change no translation and no count |
| `Syscalls.SysPageAlloc` | jos/kern/syscall.c:208-247 | the result for all arguments; on success exactly one translation changes and the new page has no present word; a page is lost exactly for a bad environment after the other checks passed |
| `Syscalls.BadEnvLeaks` | jos/kern/syscall.c:230-239 | a concrete call that loses a page |
| `Syscalls.SysPageMap` | jos/kern/syscall.c:265-306 | the result for all arguments, read-only pages are never granted for writing, exactly one translation changes, errors change nothing |
| `Syscalls.MappedPage` | jos/kern/syscall.c:286-303 | a mapped page is a referenced user page, never a table, never free |
| `Syscalls.SysPageUnmap` | jos/kern/syscall.c:315-334 | the result for all arguments, and exactly one translation goes |
| `FsMap.BlocksApart` | jos/fs/fs.c:147-179 | different file blocks are different disk blocks, and none is an index block |
| `FsMap.AddKeeps` | jos/fs/fs.c:57-80 | entering a free block keeps ownership exact: each block is reserved, free or named exactly once |
| `FsMap.DropKeeps` | jos/fs/fs.c:427-440 | giving a block back keeps ownership exact |
| `FsMap.AddIndexHeld` | jos/fs/fs.c:161-174 | a free block that is cleared can become the index block of a file: ownership, the words of all index blocks and every mapping are as before |
| `FsMap.ClearingNeeded` | jos/fs/fs.c:171-174 | a block with a word that is not zero, entered as an index block without clearing, breaks the agreement of words and pointers |
| `FsMap.StoreIndexed` | jos/fs/fs.c:189-208 | storing a block number in a slot, as a word of an index block or in a struct File, is seen at that slot and at no other |
| `FsMap.ClearIndexed` | jos/fs/fs.c:427-440 | clearing a slot is seen there and nowhere else |
| `FsMap.DataIndexed` | jos/fs/fs.c:401-423 | changing a block that holds file data changes no pointer |
| `FsMap.PatchBytes` | jos/fs/fs.c:401-423 | storing inside one block changes those bytes of that file and no byte of any file besides |
| `FsMap.ResizeKeeps` | jos/fs/fs.c:470-478 | the size may become n exactly because nothing at or past n is mapped |
| `FsMap.DropIndexHeld` | jos/fs/fs.c:463-466 | the index block can go once the blocks it maps are gone, without any mapping changing |
| `FsMap.TruncateKeeps` | jos/fs/fs.c:451-478 | cutting a file keeps its bytes below the cut and the bytes of all other files |
| `FsMap.NeedStep` | jos/fs/fs.c:189-208 | mapping the next block lowers what a transfer still needs by exactly the blocks it took |
| `FsMap.FateStep` | jos/fs/fs.c:372-423 | mapping the next block does not change how a transfer is to end: with all its bytes, past the largest file, for want of an index block, or for want of a data block |
| `FsMap.FateStuck` | jos/fs/fs.c:372-423 | the first block that cannot be had is the reason for which the transfer was to end |
| `FsMap.RoomFits` | jos/fs/fs.c:372-423 | a transfer is to end with all its bytes if and only if it is within MAXFILESIZE and the blocks that it lacks are free |
| `FsMap.PatchHeld` | jos/fs/fs.c:401-423 | copying into a block of a file keeps every pointer, the bytes outside the range and all other files |
| `FsMap.AllocatedRoom` | jos/fs/fs.c:372-423 | a range that is allocated needs no free block |
| `Fs.Server.Mount` | jos/fs/fs.c:108-129 | a server starts in a valid state on any sound image whose pointers are in its struct Files and in the words of its index blocks, as the cache shows them |
| `Fs.Server.ReadBlock` | jos/fs/bc.c:29-70 | every load of the server is from a block that is not marked free, so `bc_pgfault` does not panic; it gets the contents that the server goes by |
| `Fs.Server.WriteBlock` | jos/fs/bc.c:29-70 | the same for every store, which changes that block only |
| `Fs.Server.AllocBlock` | jos/fs/fs.c:57-80 | takes the lowest free block out of the bitmap, or reports that none is free |
| `Fs.Server.BlockWalk` | jos/fs/fs.c:147-179 | the slot of a file block, each error exactly when the source returns it; a new index block is cleared before its words count, so no mapping changes |
| `Fs.Server.GetBlock` | jos/fs/fs.c:189-208 | the block is read from the slot, in an index block by its word; an existing block is returned as is; else a block is mapped there and nowhere else; -E_INVAL, -E_NO_DISK and the panic each have their exact condition |
| `Fs.NoDiskPromise` | jos/fs/fs.c:182-208 | for a block that cannot be had, -E_NO_DISK is returned if and only if no block is free and a missing index block is needed first; else the call panics |
| `Fs.FullDiskPanics` | jos/fs/fs.c:198-205 | the first block of an empty file on a full disk is such a panic |
| `Fs.Server.FreeFileBlock` | jos/fs/fs.c:427-440 | that block is unmapped, every other mapping stays |
| `Fs.Server.TruncateBlocks` | jos/fs/fs.c:451-467 | exactly the blocks at or past the new size go, and the index block if it is no longer needed |
| `Fs.Server.SetSize` | jos/fs/fs.c:470-478 | truncation and the new size; ownership stays exact, and so do the bytes below the new size and of all other files |
| `Fs.Server.Write` | jos/fs/fs.c:401-423 | each of success, -E_INVAL, -E_NO_DISK and panic comes exactly when the missing blocks of the range and the free blocks say so; success if and only if the range is within MAXFILESIZE and as many blocks are free as it lacks, counting a missing index block; then the range holds the buffer; every other allocated byte of the file and all bytes of other files are unchanged, also on failure |
| `Fs.Server.Read` | jos/fs/fs.c:372-394 | each outcome comes exactly when the missing and the free blocks say so, as for a write; on success it returns exactly the bytes of the range cut at the end of the file; no allocated byte changes |
| `Fs.Server.WriteThenRead` | jos/fs/fs.c:372-423 | what a write stored is what a read returns, across direct and indirect boundaries, through the words of index blocks |
| `Bitmap.BitOfPut` | jos/fs/fs.c:29-47 | setting or clearing one bit changes no other bit of any word |
| `Bitmap.BlockIsFree` | jos/fs/fs.c:29-37 | true exactly for blocks below the disk size whose bit is set |
| `Bitmap.FreeBlock` | jos/fs/fs.c:40-47 | adds exactly that block to the free set |
| `Bitmap.AllocBlock` | jos/fs/fs.c:57-80 | removes exactly the lowest free block, or reports that there is none |
| `BlockCache.Cache.PgFault` | jos/fs/bc.c:29-70 | faulting a block in changes no contents; the panic comes exactly for blocks marked free |
| `BlockCache.Cache.Load` | jos/fs/bc.c:29-70 | a load sees the logical contents, mapped or not |
| `BlockCache.Cache.Store` | jos/fs/bc.c:29-70 | a store changes the logical contents of that block only |
| `BlockCache.Cache.FlushBlock` | jos/fs/bc.c:79-101 | afterwards the block is on disk and clean; no contents change, no other disk block and no other dirty bit |
| `BlockCache.Cache.UnmapClean` | jos/fs/bc.c:79-101 | dropping a clean page loses nothing |
| `BlockCache.Cache.FsSync` | jos/fs/fs.c:503-509 | every block from 1 up is on disk and no contents change |
| `BlockCache.Cache.SyncThenRestart` | jos/fs/fs.c:503-509 | a server started on the disk after a sync sees every block from 1 up as it was |
| `BlockCache.Cache.FileFlush` | jos/fs/fs.c:484-499 | the file's own block, its index block and every mapped block below its size are on disk |
| `Format.Formatter.constructor` | jos/fs/fsformat.c:91-120 | an empty image with its boot, super and bitmap blocks reserved |
| `Format.Formatter.FinishFile` | jos/fs/fsformat.c:134-148 | block i of the file is block start + i for every i below the rounded count, by the server's own walk over the struct File and the words of the index block it writes, and nothing else is mapped |
| `Format.Formatter.WriteFile` | jos/fs/fsformat.c:180-209 | succeeds if and only if its blocks fit; the file reads back byte for byte, other files are unchanged |
| `Format.Formatter.FinishDir` | jos/fs/fsformat.c:169-178 | the root directory, with any number of entries, gets its blocks; ownership stays exact if it has an entry |
| `Format.Formatter.FinishDisk` | jos/fs/fsformat.c:122-132 | exactly the blocks below the bump pointer are marked in use |
| `Format.MakeImage` | jos/fs/fsformat.c:218-243 | the image is made if and only if the blocks it takes, those of the file system included, stay below the end of the disk; with at least one file it satisfies the ownership invariant the server keeps, with its pointers in struct Files and index blocks, and holds every file; without files no naming of blocks makes it sound |
| `Image.FormatThenRead` | jos/fs/fsformat.c:218-243 | a server mounted on the bytes of the formatter's image, its struct Files and its bitmap reads every file exactly as it was given to the formatter |
| `Image.SyncThenRestart` | jos/fs/fs.c:503-509 | after a sync, a server that starts with nothing in memory on that disk has every byte of every file |
| `Image.WriteSyncRead` | jos/fs/fs.c:401-509 | what was written before a sync and a restart is read back after them |
| `Format.RootFits` | jos/fs/fsformat.c:169-178 | the directory owns the blocks its size claims if and only if it has an entry |
| `Format.EmptyRootUnsound` | jos/fs/fsformat.c:169-178 | the image of a root directory without entries, whose one block is not allocated, satisfies the ownership invariant under no naming of blocks; `MakeImage` without files makes it |
| `PipeClose.StepMapped` | jos/lib/fd.c:100-202 | every step of dup, close, exit and fork keeps each descriptor of a running environment beside a mapping of the pipe page, and each child under construction a copy of its parent as far as the copying has come |
| `PipeClose.StepFair` | jos/kern/env.c:571-582 | while env_runs has not moved and the environment runs, the counts it read are still the counts |
| `PipeClose.Counts` | jos/lib/pipe.c:75-89 | in every state the pipe-page references plus the bare descriptors are the descriptor references plus the loose pipe pages |
| `PipeClose.RunCounts` | jos/lib/fd.c:100-202 | the same in every state of every run, where a bare descriptor is in a child that does not run yet, and a loose pipe page in a slot that its environment is opening or closing |
| `PipeClose.ClosedMeansClosed` | jos/lib/pipe.c:75-89 | in every run with forks, as long as no descriptor is without its pipe page, "closed" means that no descriptor of the other end is mapped anywhere, and "open" with no operation in flight means that one is; and with no operation in flight a right "closed" means that no descriptor is without its pipe page |
| `PipeClose.ReturnsExactly` | jos/lib/pipe.c:75-89 | in every run with forks, the answer is "closed" if and only if the other end's descriptors and the loose pipe pages are as many as the bare descriptors |
| `PipeClose.ClosedBetweenForks` | jos/lib/spawn.c:302-316 | in every run that kills no environment in the middle of a fork, "closed" is right whenever no fork is under way, however many have been completed |
| `PipeClose.OrderMatters` | jos/lib/fork.c:156-162 | a run, from a start state, in which a reader asks in the middle of another environment's fork and is told "closed" although the write end is open |
| `PipeClose.RecheckNeeded` | jos/lib/pipe.c:80-88 | a run in which the two counts agree although the other end is open, so the second look at env_runs is needed |
| `PipeFifo.StepKeeps` | jos/lib/pipe.c:117-171 | every test, copy and increment of either side keeps the window invariant |
| `PipeFifo.Fifo` | jos/lib/pipe.c:104-172 | for every interleaving, positions differ by 0 to 32, the window holds exactly the unread bytes, and the bytes taken are a prefix of the bytes written |
| `PipeFifo.MovingFirstLoses` | jos/lib/pipe.c:131-134 | moving the read position before taking the byte lets the writer overwrite it |
| `NicTx.StepKeeps` | jos/kern/e1000.c:95-125 | every driver and hardware step keeps the ring invariant |
| `NicTx.AgainMeansBusy` | jos/kern/e1000.c:105-116 | a packet of legal size is turned away if and only if one descriptor is left unfetched or the next is not written back |
| `NicTx.NotOverwritten` | jos/kern/e1000.c:118-121 | the buffer about to be filled belongs to no packet that is not done |
| `NicTx.SentInOrder` | jos/kern/e1000.c:13-125 | for every interleaving, packets sent are an unaltered in-order prefix of packets accepted |
| `NicRx.PollKeeps` | jos/kern/e1000.c:136-142 | a packet is found if and only if one was written back and not taken |
| `NicRx.StepKeeps` | jos/kern/e1000.c:127-158 | every driver and hardware step keeps the ring invariant |
| `NicRx.NotOverwritten` | jos/kern/e1000.c:151-156 | the hardware never fills a buffer whose packet was not taken |
| `NicRx.DeliveredInOrder` | jos/kern/e1000.c:43-158 | for every interleaving, each packet that arrived is delivered once, in order, cut to 1518 bytes |
| `ArgPage.Measure` | jos/lib/spawn.c:194-198 | the room for all strings with terminators |
| `ArgPage.FitsWhen` | jos/lib/spawn.c:205-213 | the page suffices if and only if rounded strings, one word per argument and three words fit 4096 bytes |
| `ArgPage.StringsInPage` | jos/lib/spawn.c:200-208 | strings lie above the pointer array, one after the other, and end exactly at the page top |
| `ArgPage.RegionsApart` | jos/lib/spawn.c:200-213 | header words, pointer array and strings do not overlap, and the words are aligned |
| `ArgPage.InitStack` | jos/lib/spawn.c:186-261 | -E_NO_MEM if and only if it does not fit, then nothing is written; else the child at the returned stack pointer reads argc, every string and the null word |
| `ArgPage.RoundTrip` | jos/lib/spawn.c:214-247 | reading the page at child addresses gives argc, every string unchanged, and the null word |

## Left out

- IDE, console, keyboard, interrupt controllers, PCI and boot code: port input and output. Sectors are a map from block to contents.
- Scheduling (`sched_yield`), multiprocessor locking and kernel IPC; the close test of pipes is modelled on one processor, as its argument needs.
- `user_mem_check`, trap entry and the debugger, and the user programs that fault on purpose.
- jos/lib/malloc.c, whose scan can run past its end; the lwIP heap is the allocator modelled here.
- Directories: `file_create`, `walk_path` and lookup by name. The file set is fixed, and `struct File` objects and the bitmap are kept apart from the blocks that store them.
- lwIP sockets, TCP, UDP, DHCP and DNS. `pbuf_header` moves the payload pointer of one pbuf and adds the same amount to two of its fields; the PBUF_RAM, PBUF_ROM and PBUF_REF cases of `pbuf_alloc` fill in the fields of one new pbuf with a reference count of 1 and take no part in chains.
- The loading of program segments in `spawn`, and the failure of its system calls.
- The kernel half of page directories, `region_alloc` with its extra count, and 16-bit overflow of `pp_ref`; extra references are pins.
- `env_runs` and pipe positions are taken not to overflow 32 bits.
- Cow: environments are not destroyed during the protocol, pages are aliased only by fork, the fault handler's scratch page is not itself forked over, and a page found shared or read-only is not remapped between the test and the mapping in `duppage`. During a fault the handler stores to its exception stack only, besides the copy into the scratch page.
- PipeClose: descriptor numbers are below MAXFD (`dup` does not check its target, and a larger number would name a data page); a child under construction is not killed, and mapping a page into it does not fail, where the source panics.
- Heap.Mem.Free: asks that an aligned pointer into the heap has a block header before it, because what the source reads there otherwise is payload.
- Heap.Mem.Realloc: asks that a pointer into the heap is a block that is handed out; the source does not check.
- Pbuf.Bufs.Realloc: after a panic the totals met so far are lowered already; clears `next` of the new last pbuf before it frees the rest, where the source does so after; the heap call that returns the memory of a shortened PBUF_RAM pbuf is a cut of its payload.
- Pbuf.Bufs.Copy: asks that both chains are single packets with exact totals, not packet queues, and that they share no pbuf. After a panic in the middle the target may hold part of the source.
- Pbuf.Bufs.AddRef: reference counts are unbounded integers, where the source has 16 bits.
- Pbuf.Bufs.Cat: after the panic on a wrong last total the totals before it are raised already; the contract only says that links and handles are as before.
- Pbuf.Bufs.AllocPool: the contents of new buffers are unspecified in the source; the contract says nothing about them.
- Fs.Server.GetBlock: is called for blocks below the end of the file, as `file_read` and `file_write` do; new data blocks are not cleared, so nothing is said about bytes of holes. When it panics the source has stored the error code in the slot; the model leaves the slot as it was.
- Fs.Server.SetSize: sizes and offsets are not negative, although `off_t` is signed.
- Fs.Server.Mount: disks have at most 2^32 blocks, so that a block number fits its word; `check_super` admits 786432.
- Image.SyncThenRestart: the struct Files and the bitmap are handed to the new server as they are, being kept apart from the blocks.
- Fs.Server.Write: file sizes are unbounded integers, and the flushes of `free_block` and `file_set_size` are left to the cache model.
- Format.Formatter.constructor: asks for a disk that is large enough for the blocks of the file system itself; `MakeImage` stops before it otherwise.
- Format.Formatter.FinishDir: directory entries are taken to be zeroed, although `malloc` does not zero them; there are at most 128 entries, as the source checks.
- NicRx.DeliveredInOrder: packets longer than one 2048-byte buffer are not received, and packets that arrive when no buffer is free are dropped by the hardware before the model sees them.
- ArgPage.InitStack: asks that the sizes keep the 32-bit address arithmetic from wrapping.
