# Quark kernel structures: a verified model

Quark is a secure container runtime. Its kernel library `qlib` holds a handful of data structures and lock-free
protocols on which the rest of the kernel depends. This project models the hardest of them in Dafny and proves
what they promise, for all inputs, all runs and all interleavings.

- **Page tables** (the modules `Page...`). The four-level page table of section 4.5 of the Intel SDM, Volume 3A: a
  memory of 512-entry tables, reference counts, a free list. The abstract meaning is a map from page numbers to
  frames and flags. Mapping, unmapping, moving and traversing refine operations on that map; references are
  conserved, call by call and at every moment of every run of calls; tables form a tree; the free list never holds
  a frame in use, exactly under stated conditions; a call succeeds exactly if the page pool can supply its tables.
- **Upgradable reader/writer lock** (`UpgradableLock`). One lock word and any number of threads, one atomic
  instruction a step: exclusion, exact counting, no deadlock.
- **Buddy allocator** (`BuddyTree`, `BuddyAllocator`, `BuddyPages`, `MemAllocator`). Two searches that agree, lowest
  fit, completeness, disjoint blocks over every run, exact round trip.
- **Trigger bitmap** (`TriggerProtocol`, `TriggerBitmap`). Any number of notifiers and scanners at single atomic
  operations: no notification lost, none invented. The bit loops are proved on the words themselves.
- **Message ring** (`RingQueue`). One producer and one consumer at every load, copy and store: first in first out,
  no torn reads, 32-bit wrap-around.
- **Byte ring** (`RingBuf`). Over every run it does what a bounded byte queue does, byte for byte; its pieces, and its
  wake-up flags.
- **Path cleaning** (`PathSpec`, `Path`, `Utf8`). The one-pass cleaner equals a component stack, keeps the meaning
  of a path, decides equality of meaning, is shortest, and keeps UTF-8 well formed.
- **Index structures** (`LruCache`, `IdAllocator`, `Areas`, `AreaMgr`, with `OrderedKeys` for the ordered map's
  iterators). They agree with a sequence, a set and an address-indexed map.

`Basics` holds what the modules share.

Atomic operations are sequentially consistent steps. Addresses and ids are unbounded numbers unless a width is
named; the lock word, the ring counters and the page index digits have their widths.

Assumptions that appear as `requires`: addresses of the page table lie below the canonical hole, the start of a
traversal aside, which is any canonical address, and flags are not zero; pages still in the page pool, and for
kernel mappings managed frames, are not mapped; a dereferenced frame has a positive count; the buddy allocator has
at most 27 levels and, where it would panic, its caller gives sizes and offsets inside the pool; ids start at 1
and ranges of ids are not empty; a cache has room for one key; a ring's length is a power of two below 2^32.

Where the code does not do what one would expect, the code is followed, and the exact condition is proved:

- `Map` over a range can free a frame and then map it again: `PageMapping.SafeIffHeld`, `PageTheorems.LostFrame`.
- `Traverse` without failing fast can miss mapped pages: `PageTheorems.CoverageIff`, `PageTheorems.MissedPage`.
- A failed `MapPage` or `Map` can leave empty tables behind: `PageGrowth.TrimmedIff`, `PageRuns.TableLeftBehind`.
- A failed `Remap` can leave references to frames not yet placed, and empty tables: `PageRemapping.LeakIff`,
  `PageRemapping.MoveIff`, `PageRuns.FrameStranded`.
- The buddy allocator's guard compares a page number with an address: `BuddyPages.RoundTrip`,
  `BuddyPages.NotTakenBack`.
- `Join` with an empty path gives a rooted path: `PathSpec.JoinCleaned`.
- `IdAllocator` does not notice a double free: `IdAllocator.ReleasedExactly`, `IdAllocator.ReleasedTwice`.
- `AreaMgr` drops the part of an area after a range inside it: `Areas.RemovedExactly`, `Areas.LostTail`.
- An empty read of a full byte ring, or an empty write to an empty one, clears a flag that should stay:
  `RingBuf.RingBuf.Read`, `RingBuf.RingBuf.Write`.
- `Consume` and `Produce` of the byte ring check nothing, and dropping nothing from no pieces can wrap their count
  round: `RingBuf.RingBuf.Consume`, `RingBuf.RingBuf.Produce`, `RingBuf.ConsumeIovs`.
- Setting the size of a cache lower never takes effect by adding keys: `LruCache.OverfullStays`.
- `AreaMgr` accepts an empty range inside an area, and then puts an empty area there: `AreaMgr.AreaMgr.Protect`.

## Model

| member | source | states |
|---|---|---|
| `PageTables.PageTables.constructor` | qlib/pagetable.rs:177-186 | a new address space maps nothing, has its root as the only table, counted once and held by nobody outside, and an empty free list; it satisfies the invariant and has no empty table |
| `PageTables.PageTables.AllocPage` | qlib/mem/block_allocator.rs:240-251 | fails exactly if the pool is empty, and then changes nothing; else hands out the first pool page, zeroed, with one reference held by the caller or, if none is asked for, lent to them with none; counts, tree and free list stay as they should be |
| `PageTables.PageTables.Ref` | qlib/mem/block_allocator.rs:188-202 | one more reference to a managed frame, none to another; counts stay conserved and the free list sound if the frame was not on it |
| `PageTables.PageTables.Deref` | qlib/mem/block_allocator.rs:205-220 | one reference fewer, and the count left; 1 for a frame the pool does not manage |
| `PageTables.PageTables.FreePages` | qlib/pagetable.rs:545-555 | every page on a sound free list goes back to the pool, exactly once; none of them is a table of the tree or named by an entry that is mapped |
| `PageTables.PageTables.FreeEntry` | qlib/pagetable.rs:1635-1644 | unmaps exactly one page, drops one reference to its frame, and puts the frame on the free list exactly when that was the last |
| `PageTables.PageTables.VirtualToEntry` | qlib/pagetable.rs:376-416 | finds the entry of a page exactly if the abstract map has it, else reports the address |
| `PageTables.PageTables.Install` | qlib/pagetable.rs:1715-1738 | replaces one leaf entry: the abstract map is updated at that page only, references are handed over, and the result says whether the page was mapped |
| `PageTables.PageTables.MapEntries` | qlib/pagetable.rs:1715-1746 | the innermost loop advances the job page by page to the end of the leaf table, with the hand-carried index equal to the digit of the address |
| `PageTables.PageTables.MapCanonical` | qlib/pagetable.rs:1647-1768 | succeeds exactly if the pool has a page for each table that the range needs and the tree lacks; maps exactly a prefix of the job's pages, the whole of it on success; every table added is used on success |
| `PageTables.PageTables.MapPageAt` | qlib/pagetable.rs:461-539 | the straight walk of MapPage does the same as mapCanonical on one page |
| `PageTables.PageTables.MapPage` | qlib/pagetable.rs:461-539 | succeeds exactly if the pool has a page for each table missing on the way to the page; then the abstract map is updated at one page and the result says whether it was mapped; on failure nothing is mapped differently, and empty tables are left behind exactly if the pool was not empty; the free list stays sound exactly if the frame was not on it; outside references stay what they were, with none to a new table |
| `PageTables.PageTables.Map` | qlib/pagetable.rs:823-870 | succeeds exactly if the pool has a page for each table missing for the range; then every page that begins at an address of the range below the canonical hole is mapped, in order, onto the frames from the physical address on, and every other page is as it was, and the result is true exactly if some page was mapped; otherwise it stops at the first page whose tables are too many, with exactly the pages before it mapped so, and leaves no empty table exactly if these need the whole pool; all argument errors; the free list stays sound if and only if every frame is held by something outside the part of the range before it; outside references stay what they were |
| `PageTables.JobMapsOnto` | qlib/pagetable.rs:823-870 | a mapping of the pages of a request is, address by address, one onto the frames from its physical address on |
| `PageGrowth.SucceedsIff` | qlib/pagetable.rs:1647-1768 | a mapping reaches its end exactly if the pool has a page for each missing table, and otherwise stops at the first page whose tables are too many |
| `PageGrowth.TrimmedIff` | qlib/pagetable.rs:1647-1768 | a mapping that used up the pool leaves no empty table if and only if the pages it mapped need all the tables added |
| `PageGrowth.TrimmedTables` | qlib/pagetable.rs:893-1011 | no table is empty if and only if the tables are exactly those on the way to the mapped pages |
| `PageRuns.TableLeftBehind` | qlib/pagetable.rs:461-539 | a concrete address space in which a failed mapping leaves an empty table |
| `PageMapping.SafeIffHeld` | qlib/pagetable.rs:1715-1738 | after mapping, no mapped frame is on the free list if and only if every frame was held at its turn |
| `PageMapping.TurnOf` | qlib/pagetable.rs:1715-1738 | a managed frame that only pages already overwritten by the same range named is on the free list by the time it is mapped again |
| `PageTheorems.LostFrame` | qlib/pagetable.rs:1715-1738 | a concrete range mapped over itself and the state that mapping it leads to, in which a mapped frame is on the free list |
| `PageTables.PageTables.UnusedEntryCount` | qlib/pagetable.rs:879-891 | counts the unused entries of a table |
| `PageUnmapping.NextBlock` | qlib/pagetable.rs:872-877 | stepping over the block of a node leads to the first page of the next node at that level |
| `PageTables.PageTables.UnmapEntries` | qlib/pagetable.rs:943-964 | the innermost loop unmaps exactly the pages it passes and counts exactly the entries it clears |
| `PageTables.PageTables.UnmapSlot` | qlib/pagetable.rs:902-1006 | a table given up has no used entry left, a table kept that had something under it still has, and the count of unused entries kept by hand is right |
| `PageTables.PageTables.UnmapPages` | qlib/pagetable.rs:893-1011 | exactly the pages of the range are cut out of the tree, and every table but those on the path to the root that was in use stays in use |
| `PageTables.PageTables.Unmap` | qlib/pagetable.rs:893-1011 | every page of the range becomes unmapped and every other keeps frame and flags; a table released has only unused entries, and if no table but the root was empty before, none is after; argument errors change nothing |
| `PageTables.PageTables.ReleaseTable` | qlib/pagetable.rs:1635-1644 | releasing an empty table keeps tree and abstract map, and gives its page back |
| `PageTables.PageTables.Gather` | qlib/pagetable.rs:571-592 | takes a reference to each frame mapped in the old range and unmaps the range |
| `PageTables.PageTables.Place` | qlib/pagetable.rs:594-609 | maps the gathered frames at their new places one by one, each still referenced while it is moved |
| `PageTables.PageTables.Remap` | qlib/pagetable.rs:557-612 | moves all pages at once even if the ranges overlap: every page that begins at an address of the new range gets, with the new flags, the frame of the page at the same distance in the old range, if that was mapped; the other pages of the old range end unmapped, and all others are as they were, a last page cut by the end included; no moved frame reaches the free list; after any end one reference more is held for each managed frame not yet placed, so outside references are what they were exactly if there is none; with no empty table before, it succeeds exactly if the tables the pages need in their new place can be had from those left standing and the pool, a failure stops at the first page for which these no longer suffice, and it leaves no empty table exactly if the pages placed need all of these |
| `PageTables.MoveMovesOnto` | qlib/pagetable.rs:570-609 | what a move has done after any number of pages, address by address; all its pages are those that begin before the end of the range |
| `PageRemapping.PlaceReady` | qlib/pagetable.rs:594-609 | a frame on its way is referenced, in no pool and on no free list |
| `PageRemapping.LeakIff` | qlib/pagetable.rs:557-612 | giving a move up leaves the outside references as they were if and only if no page still to be placed had a managed frame |
| `PageRemapping.MoveIff` | qlib/pagetable.rs:557-612 | with no empty table before, a move succeeds if and only if the tables it needs can be supplied; a move given up stops where the supply lasts for the pages before and not for one more, and leaves no empty table if and only if the pages placed need the whole supply |
| `PageRemapping.StopUnique` | qlib/pagetable.rs:594-609 | there is only one page at which a move can stop so: how far it gets follows from the pages and the supply |
| `PageRuns.FrameStranded` | qlib/pagetable.rs:557-612 | a concrete move given up after which a frame mapped nowhere keeps a reference that nobody gives back |
| `PageRuns.Execute` | qlib/pagetable.rs:461-1011 | any allocations, references, mappings of pages and ranges, unmappings, moves, protections and reclaims on a new address space, failed ones included: the states between are those that the calls lead to, one after the other; in the end each count is the references the client holds, plus one per page naming the frame, plus one for a table, plus the frames that failed moves did not place; these are none, and no table is empty, as long as the pool had a page for every table needed; and as long as no frame was mapped or referenced after it had lost its last reference, the free list holds exactly the frames without references, each once |
| `PageRuns.StepBooks` | qlib/pagetable.rs:461-1011 | whatever the call, a state that it leads to has the outside references of the state before, with those the client took or gave back and those a failed move left; with enough pages no empty table and none left; a careful call keeps the free list sound |
| `PageRuns.RunSettled` | qlib/pagetable.rs:461-1011 | the same as Execute, of every sequence of states in which each follows from the one before by a call, at every moment of it |
| `PageTables.PageTables.Traverse` | qlib/pagetable.rs:1143-1275 | failing fast it visits every page of the range once in ascending order, or reports the lowest unmapped address having visited exactly the pages below it; otherwise it visits, in ascending order, exactly the mapped pages of the range outside two intervals given by its first two steps; an end before the start is no error, and nothing is visited; for any callback, the entries of exactly the pages visited become what it makes of them, a cleared entry unmapping its page, and the invariant is kept if it keeps their frames |
| `PageTables.PageTables.MProtect` | qlib/pagetable.rs:1595-1633 | sets the flags of exactly the pages visited, which are those a traversal visits, and changes no frame; nothing at all if the end is before the start |
| `PageTables.PageTables.TraverseSlot` | qlib/pagetable.rs:1182-1266 | the hand-carried digits are those of the page the walk comes to next, including where digits are left standing |
| `PageTables.PageTables.SkipSlot` | qlib/pagetable.rs:1164-1232 | an unused slot stops the walk if it fails fast, and is stepped over otherwise: the digits are then those of the page the walk comes to next, reset below the slot or, from the last slot of a lower directory, left standing |
| `PageWalk.WalkVisits` | qlib/pagetable.rs:1182-1226 | the walk visits a mapped page of the range if and only if it does not jump over it |
| `PageWalk.VisitsIff` | qlib/pagetable.rs:1182-1226 | the walk visits a mapped page of the range if and only if it is outside the two intervals of its first two steps |
| `PageWalk.StandsTwice` | qlib/pagetable.rs:1182-1226 | of three steps of a walk in a row at least one leaves no digit standing, after which none does |
| `PageTheorems.CoverageIff` | qlib/pagetable.rs:1182-1226 | a traversal that does not fail fast reaches every mapped page of the range if and only if none lies in the two intervals between where its first two steps would have led with all digits reset and where they lead |
| `PageTheorems.CoverageFromRoundStart` | qlib/pagetable.rs:1143-1275 | from a start that is a multiple of 1 GiB it reaches all of them |
| `PageTheorems.WalkAscends` | qlib/pagetable.rs:1143-1275 | pages are visited in ascending order, each once |
| `PageTheorems.MissedPage` | qlib/pagetable.rs:1192-1194 | a concrete mapped page, in a tree without empty tables, that a traversal not failing fast does not visit |
| `PageTheorems.DirectoryUnique` | qlib/pagetable.rs:376-416 | every table is reached by one path only: the memory determines which table belongs to which node |
| `PageTheorems.TablesArePrefixes` | qlib/pagetable.rs:893-1011 | without empty tables the tables are exactly the prefixes of the mapped pages, so equal maps have trees of equal shape |
| `PageTableShape.WriteLeaf` | qlib/pagetable.rs:1715-1738 | writing one leaf entry changes what one page maps to and nothing else |
| `PageTableShape.AddTable` | qlib/pagetable.rs:1673-1713 | hanging a zeroed table under an unused slot changes nothing that is mapped |
| `PageTableShape.DropTable` | qlib/pagetable.rs:966-1003 | taking an empty table out changes nothing that is mapped |
| `PageCounts.NameConserves` | qlib/pagetable.rs:1715-1738 | mapping a frame turns one outside reference into one leaf reference: counts equal outside references plus leaf entries plus one for a table |
| `PageCounts.UnnameConserves` | qlib/pagetable.rs:1635-1644 | unmapping a page keeps that equation |
| `PageCounts.HangConserves` | qlib/pagetable.rs:1673-1713 | adding a table keeps that equation |
| `PageCounts.UnhangConserves` | qlib/pagetable.rs:966-1003 | releasing a table keeps that equation |
| `PageCounts.UncountedUnseen` | qlib/pagetable.rs:1635-1644 | a frame whose count is 0 is named by no entry that is reachable and is no table |
| `PageSpace.RecycledKeeps` | qlib/pagetable.rs:545-555 | giving a page of a sound free list back to the pool keeps the whole invariant |
| `UpgradableLock.StepCounted` | qlib/mutex.rs:392-496 | every step keeps the word at four times the threads that added themselves, plus the flags, including readers about to undo and the 64-bit wrap-around of subtraction |
| `UpgradableLock.StepOneOwner` | qlib/mutex.rs:462-549 | every step keeps at most one thread owning the flags, and a flag set only while there is one |
| `UpgradableLock.StepExclusive` | qlib/mutex.rs:392-549 | every step keeps a writer alone |
| `UpgradableLock.RunInv` | qlib/mutex.rs:392-549 | the invariant holds in every state of every run of any number of threads |
| `UpgradableLock.AnyThreads` | qlib/mutex.rs:370-383 | runs start with any threads, as many as the word can count |
| `UpgradableLock.RunSafe` | qlib/mutex.rs:392-549 | in every run a thread that may write excludes all other readers and writers, the word counts the threads in the lock, and it is 0 when all threads are idle |
| `UpgradableLock.AttemptsRight` | qlib/mutex.rs:392-549 | in every state of every run, in terms of the threads: an attempt to read succeeds exactly if no thread owns the flags, other readers or not; one to write exactly if no thread owns them and none is among the readers; an upgrade is claimed exactly if no thread owns them, and completed exactly if none is among the readers; no step moves another thread |
| `UpgradableLock.GuardKept` | qlib/mutex.rs:515-549 | an upgrade goes on until its thread may write, and a downgrade until its thread reads again; neither loses the guard on the way |
| `UpgradableLock.CanRead` | qlib/mutex.rs:392-410 | whenever no thread owns the flags a thread without a guard can get a read guard |
| `UpgradableLock.CanWrite` | qlib/mutex.rs:433-460 | whenever no thread owns the flags or is among the readers a thread without a guard can get a write guard |
| `UpgradableLock.CanUpgrade` | qlib/mutex.rs:473-538 | the only reader can come to write |
| `UpgradableLock.CanDowngrade` | qlib/mutex.rs:540-549 | a writer can always come to read |
| `UpgradableLock.NoDeadlock` | qlib/mutex.rs:392-549 | from every state of every run some schedule lets all threads finish |
| `BuddyTree.UsedDetermines` | qlib/buddyallocator.rs:279-409 | the blocks allocated determine every Split, Full and Unused mark of a consistent tree |
| `BuddyTree.SearchRight` | qlib/buddyallocator.rs:195-226 | the left-first search that skips taken nodes finds the lowest free node of the level, or none only if there is none |
| `BuddyTree.LevelOf` | qlib/buddyallocator.rs:411-433 | the least level whose blocks hold the pages asked for |
| `BuddyAllocator.BuddyAllocator.CheckParentFull` | qlib/buddyallocator.rs:337-353 | makes the tree consistent again after one mark below was set, without allocating or freeing anything |
| `BuddyAllocator.BuddyAllocator.Alloc` | qlib/buddyallocator.rs:195-226 | the recursive search under a node allocates exactly the node the search finds, or changes nothing |
| `BuddyAllocator.BuddyAllocator.AllocRecursively` | qlib/buddyallocator.rs:195-226 | from the root it allocates exactly the lowest free block of the level, or returns -1 and changes no mark |
| `BuddyAllocator.BuddyAllocator.Visit` | qlib/buddyallocator.rs:288-331 | one turn of the stack search keeps what is left to find, needs at most levels - target + 1 stack entries, and leaves fewer nodes to visit |
| `BuddyAllocator.BuddyAllocator.AllocWithStack` | qlib/buddyallocator.rs:277-335 | 28 stack slots suffice for up to 27 levels; it ends, and allocates exactly the lowest free block of the level, or returns -1 and changes no mark |
| `BuddyPages.SearchesAgree` | qlib/buddyallocator.rs:195-335 | both searches return the same offset and leave the same tree on every consistent tree |
| `BuddyAllocator.BuddyAllocator.LogBase2` | qlib/buddyallocator.rs:424-433 | the position of the most significant bit |
| `BuddyAllocator.BuddyAllocator.LevelFromNumPages` | qlib/buddyallocator.rs:411-422 | the least level that holds the pages, 0 for none |
| `BuddyAllocator.BuddyAllocator.Allocate` | qlib/buddyallocator.rs:355-367 | serves a request from the least level that holds it, -1 if the pool is too small |
| `BuddyAllocator.BuddyAllocator.Coalesce` | qlib/buddyallocator.rs:390-406 | merging upwards makes the tree consistent again without allocating or freeing anything else |
| `BuddyAllocator.BuddyAllocator.Free` | qlib/buddyallocator.rs:369-409 | succeeds exactly if the offset is outside the refused range and its node is allocated, and then frees exactly that node |
| `BuddyPages.AllocatesLowest` | qlib/buddyallocator.rs:355-367 | the offset returned is that of the lowest aligned block of the rounded-up size with no page in use; -1 is returned exactly if there is none |
| `BuddyPages.AllocationLive` | qlib/buddyallocator.rs:355-367 | an allocation adds exactly the pages of its block to those in use |
| `BuddyPages.LiveBlocksDisjoint` | qlib/buddyallocator.rs:355-409 | two allocated blocks share no page |
| `BuddyPages.ReleaseLive` | qlib/buddyallocator.rs:369-409 | a release takes exactly the pages of its block from those in use |
| `BuddyPages.RoundTrip` | qlib/buddyallocator.rs:355-409 | freeing what was just allocated restores the node array exactly, if and only if the offset is outside the range the guard refuses |
| `BuddyPages.NotTakenBack` | qlib/buddyallocator.rs:372-374 | a concrete pool whose page cannot be given back, because the guard compares an address with a page number |
| `BuddyPages.RunSafe` | qlib/buddyallocator.rs:355-409 | in every run of requests and matching releases the blocks held are aligned, inside the pool and pairwise disjoint |
| `BuddyPages.RunComplete` | qlib/buddyallocator.rs:355-409 | in every run a request fails only if every aligned block of its size has a page in a block that is held |
| `MemAllocator.TreeComesFirst` | qlib/buddyallocator.rs:51-64 | in a pool with nothing allocated the tree's own pages are allocated at offset 0 |
| `MemAllocator.TreeNeverGiven` | qlib/buddyallocator.rs:51-64 | in every run after Init no block handed out holds a byte of the tree, unless the tree's own block is released |
| `MemAllocator.MemAllocator.constructor` | qlib/buddyallocator.rs:51-64 | Init succeeds for every order up to 27 and leaves exactly the tree's block allocated, of the least number of pages that holds the tree's bytes rounded up to a power of two |
| `MemAllocator.MemAllocator.Alloc` | qlib/buddyallocator.rs:71-80 | the address of the block, page aligned above the base, or NoEnoughMemory |
| `MemAllocator.MemAllocator.Free` | qlib/buddyallocator.rs:82-91 | frees the block at the address or reports InvalidInput |
| `MemAllocator.Perform` | qlib/buddyallocator.rs:71-91 | what the allocator does for any request, and for taking back any block that is held, is a step of the runs that are proved safe and complete |
| `MemAllocator.Drive` | qlib/buddyallocator.rs:51-91 | a new allocator put through any requests and releases makes such a run |
| `Path.Lazybuf.Append` | qlib/path.rs:43-69 | appends one byte to the content, whether or not the buffer has been allocated; the buffer is never written past its end |
| `Path.Lazybuf.Index` | qlib/path.rs:36-41 | the byte at a position of the buffer in use |
| `Path.Pop` | qlib/path.rs:108-112 | going back byte by byte takes exactly the last component off |
| `Path.CopyName` | qlib/path.rs:126-129 | copies exactly the component at the read position |
| `Path.AddName` | qlib/path.rs:121-130 | a name is added to the components kept |
| `Path.GoUp` | qlib/path.rs:103-120 | a parent reference takes a name away, stays, or is dropped, as the component definition says |
| `Path.Clean` | qlib/path.rs:79-138 | for every string of bytes the result is the component-stack normal form, and well-formed UTF-8 if the path is, so making a string of it does not fail |
| `Utf8.CleanedWellFormed` | qlib/path.rs:71-138 | the normal form of a path in well-formed UTF-8 is well-formed UTF-8 |
| `Utf8.WellFormedIff` | qlib/path.rs:71-75 | well-formed UTF-8 is exactly what encodes a sequence of characters: section 4 of RFC 3629 follows from section 3 |
| `PathSpec.CleanedTwice` | qlib/path.rs:79-138 | cleaning is idempotent, and keeps whether a path is rooted |
| `PathSpec.CleanedLeadsSame` | qlib/path.rs:79-138 | a cleaned path leads from every directory to where the path leads |
| `PathSpec.CleanedDecides` | qlib/path.rs:79-138 | two paths have the same cleaned form if and only if they lead to the same place from every directory |
| `PathSpec.CleanedShortest` | qlib/path.rs:79-138 | the cleaned form is the shortest non-empty path that leads to the same place from every directory |
| `PathSpec.StackNormal` | qlib/path.rs:79-138 | the components kept are parent references, none under the root, followed by names |
| `Path.JoinPath` | qlib/path.rs:149-153 | joining is cleaning the two with a slash between |
| `PathSpec.JoinedLeads` | qlib/path.rs:149-153 | a joined path leads to where the element leads from where the path leads, an empty path counting as the root |
| `PathSpec.JoinCleaned` | qlib/path.rs:149-153 | cleaning the path before joining changes nothing if and only if the path is not empty |
| `TriggerProtocol.StepCovered` | qlib/rdma_share.rs:448-495 | every step keeps: a set agent bit has its summary bit set, or a thread about to set it, or a scan that took it and has not yet taken the word |
| `TriggerProtocol.StepCurrent` | qlib/rdma_share.rs:449-491 | every step keeps: an agent bit is set exactly if the last thing that happened to the agent is a notification |
| `TriggerProtocol.StepTracked` | qlib/rdma_share.rs:448-495 | every step keeps: a completed notification has been reported since, or is still on its way to a scan |
| `TriggerProtocol.StepBounded` | qlib/rdma_share.rs:449-475 | agent ids below 64 * 503 never set a summary bit that stands for no word, so the scan's early exit loses nothing |
| `TriggerProtocol.RunInv` | qlib/rdma_share.rs:448-495 | all of these hold in every state of every run of any number of notifiers and scanners |
| `TriggerProtocol.NothingLost` | qlib/rdma_share.rs:448-495 | in every run, of every scan that has ended: it returned exactly what it took since it began, in order, and every notification completed before it began had been reported since it was made, or another scan had still to take its word |
| `TriggerProtocol.NothingInvented` | qlib/rdma_share.rs:459-494 | in every run a scan returns, in order, exactly what it took, and every agent reported had been notified and not been reported since |
| `TriggerProtocol.QuietCovered` | qlib/rdma_share.rs:448-495 | with no thread under way every set agent bit has its summary bit set, so the next scan finds it |
| `TriggerProtocol.StepRecords` | qlib/rdma_share.rs:449-494 | a step moves no other thread; a call to notify records its own agent, a scan its beginning and its end, and a scan leaves nothing in the words it takes |
| `TriggerProtocol.WaitFree` | qlib/rdma_share.rs:449-494 | whatever the others do, a notification or a scan under way has a next step, and each of its steps brings it nearer to its end |
| `TriggerProtocol.CanCall` | qlib/rdma_share.rs:449-494 | a thread without a call under way can notify any agent and can begin a scan, whatever the state |
| `TriggerBitmap.OrBit` | qlib/rdma_share.rs:455-456 | fetch-or of one shifted bit sets that bit and keeps the others |
| `TriggerBitmap.ListBits` | qlib/rdma_share.rs:478-487 | the shift loop lists exactly the set bits in ascending order |
| `TriggerBitmap.ShareRegion.UpdateBitmap` | qlib/rdma_share.rs:449-457 | sets exactly the agent's bit and its summary bit |
| `TriggerBitmap.ShareRegion.ScanBits` | qlib/rdma_share.rs:465-490 | takes exactly the words whose summary bit was set, also when the loop is left early |
| `TriggerBitmap.ShareRegion.GetAgentIds` | qlib/rdma_share.rs:459-494 | with no other thread running it returns all notified agents in ascending order and leaves none, if every set agent bit has its summary bit |
| `RingQueue.ProducerKeeps` | qlib/rdma_share.rs:85-99 | every step of Push keeps the queue's items in their slots across wrap-around of the 32-bit counters |
| `RingQueue.ProducerSpares` | qlib/rdma_share.rs:85-99 | no step of Push touches a slot that a Pop under way may read |
| `RingQueue.ConsumerKeeps` | qlib/rdma_share.rs:54-67 | every step of Pop keeps the queue's items and comes to the item whose turn it is |
| `RingQueue.ConsumerSpares` | qlib/rdma_share.rs:54-67 | no step of Pop takes back space that a Push under way has seen |
| `RingQueue.FirstInFirstOut` | qlib/rdma_share.rs:29-100 | in every interleaving the items popped are, whole and in order, a prefix of the items pushed, and at most 1024 are in the queue |
| `RingQueue.NeverTorn` | qlib/rdma_share.rs:54-99 | in every interleaving the slot being read is not being written |
| `RingQueue.RefusalsRight` | qlib/rdma_share.rs:54-99 | in every interleaving a push is refused exactly if the queue was full when it loaded the head, and has otherwise put its item last; a pop returns nothing exactly if the queue was empty when it loaded the tail, and otherwise the item whose turn it was |
| `RingQueue.PushRight` | qlib/rdma_share.rs:85-99 | in every interleaving, from the load of the head to the end of the call: the item given to Push is put after all others pushed before, if there was space then, and else nothing is done |
| `RingQueue.PopRight` | qlib/rdma_share.rs:54-67 | in every interleaving, from the load of the tail to the end of the call: Pop returns the item that had then waited longest and takes it from the queue, or nothing exactly if the queue was then empty |
| `RingQueue.WaitFree` | qlib/rdma_share.rs:54-99 | whatever the other side does, a call under way has a next step, and each of its steps brings it nearer to its end |
| `RingBuf.Advance` | qlib/bytestream.rs:471-488 | a counter that moves on by at most the length points where the position wraps to, also when the counter itself wraps |
| `RingBuf.RingBuf.constructor` | qlib/bytestream.rs:265-284 | a new ring is empty, with a reader waiting |
| `RingBuf.RingBuf.Read` | qlib/bytestream.rs:461-495 | returns the oldest bytes, as many as fit, and removes exactly these; reports whether the ring was full; the waiting flags stay exact if and only if the request was not empty or the ring not full |
| `RingBuf.RingBuf.Write` | qlib/bytestream.rs:716-751 | appends the first bytes of the request, as many as there is space for; reports whether the ring was empty; the waiting flags stay exact if and only if the request was not empty or the ring not empty |
| `RingBuf.RingBuf.Consume` | qlib/bytestream.rs:587-598 | for every count, also more than there is: the head moves on by the count modulo 2^32, and the ring stays a ring exactly if the count is at most the data or the counters come round; up to the data there is, exactly that number of oldest bytes is removed, with the same flags as a read |
| `RingBuf.RingBuf.ConsumeWithCheck` | qlib/bytestream.rs:576-584 | refuses exactly if there are fewer bytes, and then changes nothing; else removes exactly that number of oldest bytes, with the same flags as a read |
| `RingBuf.RingBuf.Produce` | qlib/bytestream.rs:703-713 | for every count: the tail moves on by the count modulo 2^32, and the ring stays a ring exactly if there was space or the counters come round; bytes put in the space are taken up, with the same flags as a write |
| `RingBuf.RingBuf.PrepareDataIovs` | qlib/bytestream.rs:544-574 | the data pieces put together are the queue's contents |
| `RingBuf.RingBuf.PrepareSpaceIovs` | qlib/bytestream.rs:621-655 | data pieces and space pieces cover the buffer, every byte once |
| `RingBuf.PiecesTile` | qlib/bytestream.rs:544-655 | a byte of the buffer is in the space pieces exactly if it is not in the data pieces |
| `RingBuf.SpaceAppends` | qlib/bytestream.rs:621-713 | writing through the space pieces puts the data where Produce takes it up, and leaves the data that is there alone |
| `RingBuf.ConsumeIovs` | qlib/bytestream.rs:89-103 | the pieces left hold exactly the bytes after those dropped, except that dropping nothing from no pieces with an empty first slot wraps the count of pieces round |
| `RingBuf.WriteSlice` | qlib/bytestream.rs:167-191 | writes to the pieces in order, refusing exactly if they are too short; what is left of the pieces is as in ConsumeIovs |
| `RingBuf.InOrder` | qlib/bytestream.rs:461-751 | a queue of as many bytes as the ring, put through any reads, writes and takes, each moving as many bytes as there are and fit: the bytes read, followed by the bytes still there, are the bytes written, in order |
| `RingBuf.Drive` | qlib/bytestream.rs:461-751 | a new ring put through any reads, writes and takes does for each exactly what that queue does, byte for byte, and ends with the same data; the bytes read, followed by the bytes still there, are the bytes written, in order; the flags are exact in the end if no empty write met an empty ring and no empty read a full one |
| `RingBuf.NotEmptyNotUpset` | qlib/bytestream.rs:461-751 | requests that are not empty never upset the flags |
| `LruCache.LinkEntry.Remove` | qlib/lrc_cache.rs:48-63 | takes an entry out and links its neighbours to each other, also if they are one; fails exactly if one is missing, and then clears the link to the one before and nothing else |
| `LruCache.LinkedList.PushFront` | qlib/lrc_cache.rs:109-119 | puts an entry first in a list linked both ways |
| `LruCache.LinkedList.Detach` | qlib/lrc_cache.rs:48-63 | takes exactly one entry out of a list and keeps it linked both ways |
| `LruCache.LinkedList.PopBack` | qlib/lrc_cache.rs:149-163 | takes the last entry, nothing from an empty list |
| `LruCache.LinkedList.PopFront` | qlib/lrc_cache.rs:121-135 | takes the first entry, nothing from an empty list |
| `LruCache.LruCache.constructor` | qlib/lrc_cache.rs:174-182 | a new cache is empty |
| `LruCache.LruCache.ContainsKey` | qlib/lrc_cache.rs:184-186 | says whether the key is in the list |
| `LruCache.LruCache.Add` | qlib/lrc_cache.rs:188-236 | map, list and size go on agreeing; a known key moves to the front with its value, a new one goes to the front, dropping the last from a full cache |
| `LruCache.LruCache.Remove` | qlib/lrc_cache.rs:239-260 | removes exactly the key, and says whether it was there |
| `LruCache.LruCache.Get` | qlib/lrc_cache.rs:262-267 | the value of the key, without changing the order |
| `LruCache.LruCache.Clear` | qlib/lrc_cache.rs:269-279 | empties list, map and size |
| `LruCache.LruCache.SetMaxSize` | qlib/lrc_cache.rs:289-292 | changes the room and nothing else; no key is dropped |
| `LruCache.ReplayRecent` | qlib/lrc_cache.rs:188-236 | after any additions, removals and clearings the cache holds at most as many keys as it has room for, and they are those of the keys added and not removed since whose latest additions are the latest, in that order |
| `LruCache.RecentIs` | qlib/lrc_cache.rs:188-236 | that reference order lists exactly the keys added and not removed or cleared since, each once, by latest addition |
| `LruCache.EvictsOldest` | qlib/lrc_cache.rs:188-236 | adding a new key to a full cache drops exactly the held key whose latest addition is the oldest |
| `LruCache.FullOfAdds` | qlib/lrc_cache.rs:188-236 | as long as keys are only added the cache holds as many as fit |
| `LruCache.OverfullStays` | qlib/lrc_cache.rs:188-292 | a cache that is full, or holds more than fits because its size was set lower, holds as many keys after any additions as before: setting the size lower never takes effect by adding |
| `LruCache.ValueHeld` | qlib/lrc_cache.rs:188-279 | after any operations the value held for a key is that of the addition which brought it in when it was last absent: adding a key that is there keeps its value |
| `LruCache.Run` | qlib/lrc_cache.rs:174-279 | a new cache put through any additions, removals and clearings holds what replaying them gives |
| `IdAllocator.GapsUnique` | qlib/idallocator.rs:77-219 | the free ids determine the gap map |
| `IdAllocator.IdAllocator.constructor` | qlib/idallocator.rs:28-37 | all ids of the range are free, as one gap |
| `IdAllocator.IdAllocator.Take` | qlib/idallocator.rs:77-130 | makes exactly the id not free and keeps the gaps maximal; does nothing if no gap reaches the id |
| `IdAllocator.IdAllocator.AllocAfterInternal` | qlib/idallocator.rs:132-156 | allocates the least free id at or above the hint; fails exactly if there is none, and then changes nothing |
| `IdAllocator.IdAllocator.AllocFromStart` | qlib/idallocator.rs:158-160 | allocates the least free id; fails exactly if none is free |
| `IdAllocator.IdAllocator.AllocFromCurrent` | qlib/idallocator.rs:162-171 | allocates the least free id after the last one allocated, or the least of all if there is none; fails exactly if none is free |
| `IdAllocator.IdAllocator.FreeId` | qlib/idallocator.rs:173-219 | adds exactly the id and keeps the gaps maximal, if and only if the id was not free or was a gap by itself; ignores ids outside the range |
| `IdAllocator.ReleasedExactly` | qlib/idallocator.rs:173-219 | the same of the gap map, for every map of maximal gaps |
| `IdAllocator.ReleasedTwice` | qlib/idallocator.rs:173-219 | concrete double releases: one leaves a gap inside a gap, one loses two free ids |
| `IdAllocator.TakeRelease` | qlib/idallocator.rs:77-219 | allocating and then freeing an id restores the map exactly |
| `AreaMgr.AreaMgr.Scan` | qlib/range.rs:199-226 | the backward loop over the areas cuts, lists for removal and lists for insertion exactly the areas it should, also when left early |
| `AreaMgr.AreaMgr.RemoveRange` | qlib/range.rs:199-235 | areas stay disjoint and not empty; those starting in the range go, those reaching into it are cut, the rest after it is kept |
| `Areas.RemovedExactly` | qlib/range.rs:199-235 | exactly the range is unmapped, if and only if no area sticks out of both its ends |
| `Areas.LostTail` | qlib/range.rs:217-220 | a concrete area whose part after the range is lost |
| `AreaMgr.AreaMgr.Add` | qlib/range.rs:238-241 | areas stay disjoint and not empty and exactly the range is overridden, if and only if it is not empty and no area sticks out of both its ends |
| `AreaMgr.AreaMgr.Check` | qlib/range.rs:245-274 | passes exactly if the mapped addresses of the range are a non-empty suffix of it, or an empty range lies inside an area, and the function accepts every area that overlaps it |
| `AreaMgr.AreaMgr.Parts` | qlib/range.rs:276-285 | lists the part of the range in each area that overlaps it, in order, with its data changed |
| `AreaMgr.AreaMgr.Protect` | qlib/range.rs:244-293 | a failure changes nothing; it succeeds exactly if the mapped addresses of the range are a non-empty suffix of it, or an empty range lies inside an area, and the function accepts every area that overlaps it; after success every mapped address of the range has what the function makes of its data, and every other address is as it was, if and only if no area sticks out of both ends of the range |
| `AreaMgr.AreaMgr.Get` | qlib/range.rs:306-322 | the area that holds the address, or nothing exactly if it is not mapped |

## Left out

- Swapping, TLB invalidation, huge pages, the upper half of the address space and confidential-computing address
  bits of the page table: hardware and host effects.
- `CopyRange`, `ForkRange`, `RemapForFile` and the other users of the page table: they add easy members.
- The flags of the entries that point at tables, which are set and never looked at.
- Page pool: `AllocPage` takes the first page of a list; how the pool is filled, and its partitioned maps, are not
  modelled. A frame whose count has reached 0 stays known to the pool until it is given back.
- PageTables.PageTables.Remap: when it succeeds, where it stops and whether a failure leaves empty tables is stated for
  address spaces without empty tables; from others it depends on which tables the unmapping of the old range keeps.
- PageTables.PageTables.Traverse: a callback that changes frames or clears entries answers for the reference counts
  itself; the invariant is then not promised.
- Weak memory orders of the lock, the bitmap and the rings: every atomic is sequentially consistent.
- Fairness of the lock: a schedule to the end exists from every state, but no bound on waiting is stated.
- The search with a growable stack (`alloc1`) of the buddy allocator: it is the fixed-stack search again.
- BuddyAllocator.BuddyAllocator.Free: sizes above the pool and offsets outside it, on which the code panics, are
  excluded.
- `Rel`, `Base`, `Ext`, `IsSubpath`, `Dir` and `Split` of the path module.
- The message types, the UDP buffers and the client dispatch around the trigger bitmap and the message ring.
- The byte ring at the granularity of single loads and stores: setting a flag after checking can miss a concurrent
  write, so flags are stated for whole calls.
- `writeFull`, `ReadVec`, `ReadString` and `ReadObj` of the byte ring: they do not do what their names say.
- LruCache.LinkEntry.Remove: an entry that is its own neighbour is excluded; it would wait for its own lock.
- IdAllocator.IdAllocator.Take: the assertion that fails for an id that is not free while a later gap exists is a
  precondition.
- 64-bit overflow of `start + len` in ranges, and the special range of maximal length.
